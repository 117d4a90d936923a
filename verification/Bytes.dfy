/** Bytes, byte sums and little-endian numbers: the vocabulary shared by the other modules. */
module Bytes {
  datatype Option<+T> = None | Some(value: T)

  type byte = x: int | 0 <= x < 256

  type uint16 = x: int | 0 <= x < 65536

  /** 2^32: addresses and 32-bit sums are taken modulo this. */
  const WORD: nat := 0x1_0000_0000

  /** The characters of a text, without a final NUL. */
  function Ascii(text: string): (b: seq<byte>)
    ensures |b| == |text|
  {
    seq(|text|, i requires 0 <= i < |text| => text[i] as int % 256)
  }

  // ---------- sums ----------

  function Sum(s: seq<byte>): nat {
    if s == [] then 0 else s[0] + Sum(s[1..])
  }

  lemma {:induction false} SumConcat(a: seq<byte>, b: seq<byte>)
    ensures Sum(a + b) == Sum(a) + Sum(b)
  {
    if a == [] {
      assert a + b == b;
    } else {
      assert (a + b)[1..] == a[1..] + b;
      SumConcat(a[1..], b);
    }
  }

  lemma SumSingle(x: byte)
    ensures Sum([x]) == x
  {
    assert [x][1..] == [];
  }

  lemma SumSnoc(s: seq<byte>, x: byte)
    ensures Sum(s + [x]) == Sum(s) + x
  {
    SumConcat(s, [x]);
    SumSingle(x);
  }

  lemma SumUpdate(s: seq<byte>, i: nat, x: byte)
    requires i < |s|
    ensures Sum(s[i := x]) == Sum(s) - s[i] + x
  {
    assert s == s[..i] + ([s[i]] + s[i + 1..]);
    assert s[i := x] == s[..i] + ([x] + s[i + 1..]);
    SumConcat(s[..i], [s[i]] + s[i + 1..]);
    SumConcat(s[..i], [x] + s[i + 1..]);
    SumConcat([s[i]], s[i + 1..]);
    SumConcat([x], s[i + 1..]);
    SumSingle(s[i]);
    SumSingle(x);
  }

  // ---------- little-endian numbers ----------

  function Pow256(n: nat): (p: nat)
    ensures p >= 1
  {
    if n == 0 then 1 else 256 * Pow256(n - 1)
  }

  lemma FourBytes()
    ensures Pow256(2) == 65536 && Pow256(4) == WORD
  {
    assert Pow256(1) == 256 && Pow256(3) == 16777216;
  }

  /** v as far as n bytes can hold it. */
  function Cut(v: nat, n: nat): nat {
    v % Pow256(n)
  }

  function FromLE(b: seq<byte>): nat {
    if b == [] then 0 else b[0] + 256 * FromLE(b[1..])
  }

  function ToLE(v: nat, n: nat): (b: seq<byte>)
    ensures |b| == n
  {
    if n == 0 then [] else [v % 256] + ToLE(v / 256, n - 1)
  }

  lemma {:induction false} FromLEBound(b: seq<byte>)
    ensures FromLE(b) < Pow256(|b|)
    ensures Cut(FromLE(b), |b|) == FromLE(b)
  {
    if b != [] { FromLEBound(b[1..]); }
    SmallMod(FromLE(b), Pow256(|b|));
  }

  lemma SmallMod(v: nat, m: nat)
    requires v < m
    ensures v % m == v
  {
    DivModUnique(v, m, 0, v);
  }

  /** Splitting off the lowest byte of a number taken modulo a power of 256. */
  lemma ModSplit(v: nat, p: nat)
    requires p >= 1
    ensures v % (256 * p) == v % 256 + 256 * (v / 256 % p)
  {
    var q, r := v / 256 / p, v / 256 % p;
    assert v / 256 == p * q + r;
    assert v == 256 * (p * q + r) + v % 256;
    assert 256 * (p * q) == (256 * p) * q;
    assert v == (256 * p) * q + (v % 256 + 256 * r);
    DivModUnique(v, 256 * p, q, v % 256 + 256 * r);
  }

  lemma DivModUnique(v: nat, d: nat, q: nat, r: nat)
    requires d > 0 && v == d * q + r && r < d
    ensures v % d == r && v / d == q
  {
    var q' := v / d;
    assert v == d * q' + v % d;
    if q' < q {
      ProductMonotone(d, q' + 1, q);
    } else if q < q' {
      ProductMonotone(d, q + 1, q');
    }
  }

  lemma ProductMonotone(d: nat, a: nat, b: nat)
    requires a <= b
    ensures d * a <= d * b
  {
    assert d * b == d * a + d * (b - a);
  }

  lemma {:induction false} FromToLE(v: nat, n: nat)
    ensures FromLE(ToLE(v, n)) == Cut(v, n)
  {
    if n > 0 {
      assert ToLE(v, n)[1..] == ToLE(v / 256, n - 1);
      FromToLE(v / 256, n - 1);
      ModSplit(v, Pow256(n - 1));
    }
  }

  lemma {:induction false} ToFromLE(b: seq<byte>)
    ensures ToLE(FromLE(b), |b|) == b
  {
    if b != [] {
      ToFromLE(b[1..]);
      assert FromLE(b) / 256 == FromLE(b[1..]);
    }
  }

  /** Only the low n bytes of a number count. */
  lemma {:induction false} ToLEMod(v: nat, n: nat, m: nat)
    requires n <= m
    ensures ToLE(Cut(v, m), n) == ToLE(v, n)
  {
    if n > 0 {
      ModSplit(v, Pow256(m - 1));
      assert (v % Pow256(m)) / 256 == v / 256 % Pow256(m - 1);
      ToLEMod(v / 256, n - 1, m - 1);
    }
  }

  lemma ModSum(a: nat, b: nat, m: nat)
    requires m > 0
    ensures (a % m + b) % m == (a + b) % m
  {
    var h, l := a / m, a % m;
    var q, r := (l + b) / m, (l + b) % m;
    assert a == m * h + l;
    assert l + b == m * q + r;
    Distribute(m, h, q);
    DivModUnique(a + b, m, h + q, r);
  }

  lemma Distribute(m: int, a: int, b: int)
    ensures m * a + m * b == m * (a + b)
  {
  }

  lemma CutSum(a: nat, b: nat, n: nat)
    ensures Cut(Cut(a, n) + b, n) == Cut(a + b, n)
  {
    ModSum(a, b, Pow256(n));
  }

  // ---------- reading memory ----------

  /** The little-endian number of n bytes that stands at a position. */
  function NumberAt(m: seq<byte>, at: nat, n: nat): nat {
    FromLE(Stretch(m, at, n))
  }

  /** n bytes from a position on; nothing if they are not all there. */
  function Stretch(m: seq<byte>, at: nat, n: nat): seq<byte> {
    if at + n <= |m| then m[at..at + n] else []
  }

  lemma FourFrom(b: seq<byte>)
    requires |b| == 4
    ensures FromLE(b) == b[0] as nat + 256 * b[1] as nat + 65536 * b[2] as nat + 16777216 * b[3] as nat
  {
    assert FromLE(b[3..]) == b[3] by { assert b[3..] == [b[3]]; assert [b[3]][1..] == []; }
    assert FromLE(b[2..]) == b[2] as nat + 256 * FromLE(b[3..]) by { assert b[2..][1..] == b[3..]; }
    assert FromLE(b[1..]) == b[1] as nat + 256 * FromLE(b[2..]) by { assert b[1..][1..] == b[2..]; }
  }

  // ---------- writing into a stretch of memory ----------

  /** m with the bytes b from index i on. */
  function Patch(m: seq<byte>, i: nat, b: seq<byte>): (r: seq<byte>)
    requires i + |b| <= |m|
    ensures |r| == |m|
  {
    m[..i] + b + m[i + |b|..]
  }

  lemma SliceOfSlice<T>(m: seq<T>, i: nat, n: nat, lo: nat, k: nat)
    requires i + n <= |m| && lo + k <= n
    ensures m[i..i + n][lo..lo + k] == m[i + lo..i + lo + k]
  {
    var a, b := m[i..i + n][lo..lo + k], m[i + lo..i + lo + k];
    forall j | 0 <= j < k ensures a[j] == b[j] {
      assert a[j] == m[i..i + n][lo + j];
    }
  }

  lemma PatchAt(m: seq<byte>, i: nat, b: seq<byte>)
    requires i + |b| <= |m|
    ensures forall k | 0 <= k < |m| :: Patch(m, i, b)[k] == if i <= k < i + |b| then b[k - i] else m[k]
  {
  }

  /** Writing inside a window is writing to the window. */
  lemma PatchWindow(m: seq<byte>, lo: nat, n: nat, i: nat, b: seq<byte>)
    requires lo + n <= |m| && i + |b| <= n
    ensures Patch(m, lo + i, b)[lo..lo + n] == Patch(m[lo..lo + n], i, b)
  {
  }

  lemma PatchElsewhere(m: seq<byte>, lo: nat, n: nat, i: nat, b: seq<byte>)
    requires lo + n <= |m| && i + |b| <= |m| && (i + |b| <= lo || lo + n <= i)
    ensures Patch(m, i, b)[lo..lo + n] == m[lo..lo + n]
  {
  }

  lemma PatchInside(m: seq<byte>, p: nat, h: seq<byte>, at: nat, b: seq<byte>)
    requires p + |h| <= |m| && at + |b| <= |h|
    ensures Patch(Patch(m, p, h), p + at, b) == Patch(m, p, Patch(h, at, b))
  {
  }

  lemma PatchAdjacent(m: seq<byte>, p: nat, a: seq<byte>, b: seq<byte>)
    requires p + |a| + |b| <= |m|
    ensures Patch(Patch(m, p, a), p + |a|, b) == Patch(m, p, a + b)
  {
  }

  lemma PatchSame(m: seq<byte>, p: nat, n: nat)
    requires p + n <= |m|
    ensures Patch(m, p, m[p..p + n]) == m
  {
  }

  lemma PatchOver(b: seq<byte>, o: nat, f: seq<byte>, g: seq<byte>)
    requires o + |f| <= |b| && |g| == |f|
    ensures Patch(b, o, f)[o..o + |f|] == f && Patch(Patch(b, o, f), o, g) == Patch(b, o, g)
  {
  }
}
