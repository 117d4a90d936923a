/** Byte sums and comparisons over memory (string.c), and what correcting a checksum byte does. */
module StringLib {
  import opened Bytes
  import opened FwCfg

  // ---------- checksum bytes ----------

  /** b after the byte at offset has been reduced by the sum of a range. */
  function Checksummed(b: seq<byte>, offset: nat, start: nat, len: nat): (r: seq<byte>)
    requires offset < |b| && start + len <= |b|
    ensures |r| == |b|
  {
    b[offset := (b[offset] - Sum(b[start..start + len])) % 256]
  }

  /** Reducing a byte by the sum of a range makes the range sum to zero exactly when it is inside the
      range, or nothing was left to correct. */
  lemma ChecksumZeroes(b: seq<byte>, offset: nat, start: nat, len: nat)
    requires offset < |b| && start + len <= |b|
    ensures Sum(Checksummed(b, offset, start, len)[start..start + len]) % 256 == 0 <==>
            start <= offset < start + len || Sum(b[start..start + len]) % 256 == 0
  {
    var r := Checksummed(b, offset, start, len);
    var range := b[start..start + len];
    if start <= offset < start + len {
      assert r[start..start + len] == range[offset - start := r[offset]];
      SumUpdate(range, offset - start, r[offset]);
    } else {
      assert r[start..start + len] == range;
    }
  }

  /** Repeating a checksum command at once changes nothing exactly when the first one zeroed the
      range. */
  lemma ChecksumAgain(b: seq<byte>, offset: nat, start: nat, len: nat)
    requires offset < |b| && start + len <= |b|
    ensures var r := Checksummed(b, offset, start, len);
            Checksummed(r, offset, start, len) == r <==>
            start <= offset < start + len || Sum(b[start..start + len]) % 256 == 0
  {
    ChecksumZeroes(b, offset, start, len);
    var r := Checksummed(b, offset, start, len);
    var s := Sum(r[start..start + len]);
    assert Checksummed(r, offset, start, len)[offset] == (r[offset] - s) % 256;
    NothingTaken(r[offset], s);
    assert r == r[offset := r[offset]];
  }

  lemma NothingTaken(x: byte, s: int)
    ensures (x - s) % 256 == x <==> s % 256 == 0
  {
    var k, r := s / 256, s % 256;
    assert s == 256 * k + r;
    if r <= x {
      ByteOf(x - r, -k);
    } else {
      ByteOf(x - r + 256, -k - 1);
    }
  }

  lemma ByteOf(x: int, k: int)
    requires 0 <= x < 256
    ensures (x + 256 * k) % 256 == x
  {
  }

  lemma ChecksummedElsewhere(b: seq<byte>, offset: nat, start: nat, len: nat, lo: nat, n: nat)
    requires lo + n <= |b| && !(lo <= offset < lo + n)
    requires offset < |b| && start + len <= |b|
    ensures Checksummed(b, offset, start, len)[lo..lo + n] == b[lo..lo + n]
  {
    hide Sum;
  }

  lemma ChecksummedIsPatch(b: seq<byte>, offset: nat, start: nat, len: nat)
    requires offset < |b| && start + len <= |b|
    ensures Checksummed(b, offset, start, len) ==
            Patch(b, offset, [(b[offset] - Sum(b[start..start + len]) % 256) % 256])
  {
    hide Sum;
    var s := Sum(b[start..start + len]);
    assert (b[offset] - s % 256) % 256 == (b[offset] - s) % 256;
  }

  // ---------- loops over memory ----------

  lemma SumEmpty()
    ensures Sum([]) == 0
  {
  }

  /** Wrapping at 32 bits does not disturb a sum modulo 256. */
  lemma WordSum(a: nat, b: nat, x: byte)
    requires a % 256 == b % 256
    ensures (a + x) % WORD % 256 == (b + x) % 256
  {
    var y := a + x;
    var q, r := y / WORD, y % WORD;
    DivModUnique(y, 256, 16777216 * q + r / 256, r % 256);
    ModSum(a, x, 256);
    ModSum(b, x, 256);
  }

  method Csum8(mem: array<byte>, p: nat, len: nat) returns (s: byte)
    requires p + len <= mem.Length
    ensures s == Sum(mem[p..p + len]) % 256
  {
    hide Sum;
    var sum := 0;
    var i := 0;
    SumEmpty();
    assert mem[p..p] == [];
    while i < len
      invariant 0 <= i <= len
      invariant 0 <= sum < WORD && sum % 256 == Sum(mem[p..p + i]) % 256
    {
      assert mem[p..p + i + 1] == mem[p..p + i] + [mem[p + i]];
      SumSnoc(mem[p..p + i], mem[p + i]);
      WordSum(sum, Sum(mem[p..p + i]), mem[p + i]);
      sum := (sum + mem[p + i] as int) % WORD;
      i := i + 1;
    }
    s := sum % 256;
  }

  method MemCmp(mem: array<byte>, p: nat, s: seq<byte>) returns (ret: int)
    requires p + |s| <= mem.Length
    ensures ret == 0 <==> mem[p..p + |s|] == s
    ensures ret != 0 ==> exists k :: 0 <= k < |s| && mem[p..p + k] == s[..k]
                                     && ret == mem[p + k] as int - s[k] as int
  {
    ret := 0;
    var i := 0;
    while i < |s|
      invariant 0 <= i <= |s| && ret == 0
      invariant mem[p..p + i] == s[..i]
    {
      ret := mem[p + i] as int - s[i] as int;
      if ret != 0 {
        assert mem[p..p + |s|][i] != s[i];
        return;
      }
      assert mem[p..p + i + 1] == mem[p..p + i] + [mem[p + i]];
      assert s[..i + 1] == s[..i] + [s[i]];
      i := i + 1;
    }
    assert s[..|s|] == s;
  }

  method StrLen(s: seq<byte>) returns (len: nat)
    requires 0 in s
    ensures len == |CString(s)|
  {
    len := 0;
    while s[len] != 0
      invariant len < |s| && 0 !in s[..len]
      decreases |s| - len
    {
      assert s[..len + 1] == s[..len] + [s[len]];
      EndsLater(s, len + 1);
      len := len + 1;
    }
    CStringIs(s, len);
  }

  lemma EndsLater(s: seq<byte>, k: nat)
    requires 0 in s && k <= |s| && 0 !in s[..k]
    ensures k < |s|
  {
    assert s[..|s|] == s;
  }
}
