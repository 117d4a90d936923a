/** Bounded formatting (printf.c) and the number parser of string.c that undoes it. */
module Printf {
  import opened Bytes
  import opened FwCfg
  import opened StringLib

  const SPACE: byte := ' ' as int
  const TAB: byte := '\t' as int
  const PLUS: byte := '+' as int
  const MINUS: byte := '-' as int
  const ZERO: byte := '0' as int
  const NINE: byte := '9' as int
  const PERCENT: byte := '%' as int
  const LOWER_A: byte := 'a' as int
  const LOWER_C: byte := 'c' as int
  const LOWER_D: byte := 'd' as int
  const LOWER_L: byte := 'l' as int
  const LOWER_P: byte := 'p' as int
  const LOWER_S: byte := 's' as int
  const LOWER_X: byte := 'x' as int

  /** A long has 32 bits; its minimum has no absolute value. */
  const LONG_LIMIT: nat := 0x8000_0000

  function Min(a: nat, b: nat): nat {
    if a <= b then a else b
  }

  // ---------- the output stream ----------

  /** A bounded output: room characters fit, and one more place is kept for the final NUL. */
  class PStream {
    const buffer: array<byte>
    var at: nat
    var remain: int
    var added: int
    ghost const room: nat
    ghost const initial: seq<byte>
    ghost var text: seq<byte>

    /** text is all that has been added; its first characters, as far as they fit, are in the buffer,
        which is otherwise as it was. */
    ghost predicate Valid()
      reads this, buffer
    {
      && |initial| == buffer.Length && room < buffer.Length
      && at == Min(|text|, room) && remain == room - at && added == |text|
      && buffer[..] == text[..at] + initial[at..]
    }

    constructor (buffer: array<byte>, size: nat)
      requires 1 <= size <= buffer.Length
      ensures Valid() && text == [] && this.buffer == buffer && room == size - 1 && initial == buffer[..]
    {
      this.buffer := buffer;
      at, remain, added := 0, size - 1, 0;
      room, initial, text := size - 1, buffer[..], [];
    }

    method AddChar(c: byte)
      requires Valid()
      modifies this, buffer
      ensures Valid() && text == old(text) + [c]
    {
      if remain != 0 {
        buffer[at] := c;
        at := at + 1;
        remain := remain - 1;
      }
      added := added + 1;
      text := text + [c];
    }
  }

  // ---------- strings ----------

  function Repeat(c: byte, n: int): (s: seq<byte>)
    ensures |s| == if n < 0 then 0 else n
  {
    if n <= 0 then [] else Repeat(c, n - 1) + [c]
  }

  datatype StrProps = StrProps(pad: byte, npad: int)

  /** A positive width pads on the left, a negative one with blanks on the right. */
  function Padded(t: seq<byte>, props: StrProps): seq<byte> {
    if props.npad > 0 then Repeat(props.pad, props.npad - |t|) + t
    else t + Repeat(SPACE, -props.npad - |t|)
  }

  /** The width is a minimum. */
  lemma PaddedLength(t: seq<byte>, props: StrProps)
    ensures var width := if props.npad < 0 then -props.npad else props.npad;
            |Padded(t, props)| == if width < |t| then |t| else width
  {
  }

  /** A positive width leaves the string at the end, behind padding; any other leaves it at the beginning,
      in front of blanks. */
  lemma PaddedSides(t: seq<byte>, props: StrProps)
    ensures var r := Padded(t, props); var n := |r| - |t|;
            if props.npad > 0 then n >= 0 && r[n..] == t && forall k | 0 <= k < n :: r[k] == props.pad
            else n >= 0 && r[..|t|] == t && forall k | |t| <= k < |r| :: r[k] == ' ' as int
  {
    var n := |Padded(t, props)| - |t|;
    var c := if props.npad > 0 then props.pad else SPACE;
    RepeatIs(c, n);
    forall k | 0 <= k < n ensures Repeat(c, n)[k] == c {
      assert Repeat(c, n)[k] in Repeat(c, n);
    }
    RepeatNone(c, if props.npad > 0 then props.npad - |t| else -props.npad - |t|);
  }

  lemma RepeatNone(c: byte, n: int)
    ensures Repeat(c, n) == Repeat(c, if n < 0 then 0 else n)
  {
  }

  /** The loop of print_str before the string. */
  method PadLeft(p: PStream, pad: byte, npad: int) returns (left: int)
    requires p.Valid()
    modifies p, p.buffer
    ensures p.Valid() && p.text == old(p.text) + Repeat(pad, npad)
    ensures left == if npad > 0 then 0 else npad
  {
    ghost var before := p.text;
    left := npad;
    while left > 0
      invariant p.Valid() && p.text == before + Repeat(pad, npad - left)
      invariant if npad > 0 then 0 <= left <= npad else left == npad
    {
      p.AddChar(pad);
      left := left - 1;
    }
  }

  /** The loop of print_str after the string. */
  method PadRight(p: PStream, pad: byte, npad: int)
    requires p.Valid()
    modifies p, p.buffer
    ensures p.Valid() && p.text == old(p.text) + Repeat(pad, -npad)
  {
    ghost var before := p.text;
    var left := npad;
    while left < 0
      invariant p.Valid() && p.text == before + Repeat(pad, left - npad)
      invariant if npad < 0 then npad <= left <= 0 else left == npad
    {
      p.AddChar(pad);
      left := left + 1;
    }
  }

  /** The loop of print_str over the string. */
  method AddString(p: PStream, s: seq<byte>)
    requires p.Valid() && 0 in s
    modifies p, p.buffer
    ensures p.Valid() && p.text == old(p.text) + CString(s)
  {
    ghost var before, t := p.text, CString(s);
    var i := 0;
    while s[i] != 0
      invariant p.Valid() && i <= |t| && i < |s| && p.text == before + t[..i]
      decreases |s| - i
    {
      InString(s, i);
      assert t[..i + 1] == t[..i] + [s[i]];
      p.AddChar(s[i]);
      i := i + 1;
    }
    StringOver(s, i);
  }

  method PrintStr(p: PStream, s: seq<byte>, props: StrProps)
    requires p.Valid() && 0 in s
    modifies p, p.buffer
    ensures p.Valid() && p.text == old(p.text) + Padded(CString(s), props)
  {
    hide PStream.Valid, Repeat, CString;
    var npad, pad := props.npad, props.pad;
    if npad > 0 {
      var len := StrLen(s);
      npad := npad - len;
      npad := PadLeft(p, pad, npad);
    }
    AddString(p, s);
    if npad < 0 {
      pad := SPACE;
      var len := StrLen(s);
      npad := npad + len;
      PadRight(p, pad, npad);
    }
  }

  lemma InString(s: seq<byte>, i: nat)
    requires i < |s| && 0 in s && i <= |CString(s)| && s[i] != 0
    ensures i < |CString(s)| && CString(s)[i] == s[i] && i + 1 < |s|
  {
    EndsLater(s, |CString(s)|);
  }

  lemma StringOver(s: seq<byte>, i: nat)
    requires i < |s| && s[i] == 0 && i <= |CString(s)|
    ensures CString(s)[..i] == CString(s)
  {
    var t := CString(s);
    forall k | 0 <= k < |t| ensures s[k] != 0 {
      assert t[k] in t;
    }
  }

  // ---------- numerals ----------

  /** "0123456789abcdef" */
  const DIGITS: seq<byte> := [48, 49, 50, 51, 52, 53, 54, 55, 56, 57, 97, 98, 99, 100, 101, 102]

  function DigitChar(d: int): byte
    requires 0 <= d < 16
  {
    DIGITS[d]
  }

  lemma DivShrinks(n: nat, base: nat)
    requires n > 0 && base >= 2
    ensures 0 <= n / base < n && 0 <= n % base < base && n == base * (n / base) + n % base
  {
    var q := n / base;
    assert n == base * q + n % base;
    ProductMonotone(q, 2, base);
    assert q * base == base * q;
  }

  /** The digits of n, least significant first; none for 0. */
  function LowFirst(n: nat, base: nat): seq<byte>
    requires 2 <= base <= 16
  {
    if n == 0 then []
    else
      DivShrinks(n, base);
      [DigitChar(n % base)] + LowFirst(n / base, base)
  }

  function Digits(n: nat, base: nat): seq<byte>
    requires 2 <= base <= 16
  {
    if n == 0 then []
    else
      DivShrinks(n, base);
      Digits(n / base, base) + [DigitChar(n % base)]
  }

  function Magnitude(n: int): nat {
    if n < 0 then -n else n
  }

  function Numeral(n: int, base: nat): seq<byte>
    requires 2 <= base <= 16
  {
    if n == 0 then [ZERO]
    else (if n < 0 then [MINUS] else []) + Digits(Magnitude(n), base)
  }

  function Reverse(s: seq<byte>): (r: seq<byte>)
    ensures |r| == |s|
  {
    if s == [] then [] else Reverse(s[1..]) + [s[0]]
  }

  lemma {:induction false} ReversedAt(s: seq<byte>, k: nat)
    requires k < |s|
    ensures Reverse(s)[k] == s[|s| - 1 - k]
  {
    if k < |s| - 1 { ReversedAt(s[1..], k); }
  }

  lemma {:induction false} ReverseSnoc(a: seq<byte>, x: byte)
    ensures Reverse(a + [x]) == [x] + Reverse(a)
  {
    if a == [] {
    } else {
      assert (a + [x])[1..] == a[1..] + [x];
      ReverseSnoc(a[1..], x);
    }
  }

  lemma {:induction false} ReverseLowFirst(n: nat, base: nat)
    requires 2 <= base <= 16
    ensures Reverse(LowFirst(n, base)) == Digits(n, base)
  {
    if n > 0 {
      DivShrinks(n, base);
      ReverseLowFirst(n / base, base);
      assert LowFirst(n, base)[1..] == LowFirst(n / base, base);
    }
  }

  function Pow8(k: nat): (p: nat)
    ensures p >= 1
  {
    if k == 0 then 1 else 8 * Pow8(k - 1)
  }

  lemma {:induction false} DigitCount(n: nat, base: nat, k: nat)
    requires 8 <= base <= 16 && n < Pow8(k)
    ensures |LowFirst(n, base)| <= k
  {
    if n > 0 {
      DivShrinks(n, base);
      ProductMonotone(n / base, 8, base);
      DigitCount(n / base, base, k - 1);
    }
  }

  /** A number of 32 bits has at most 11 digits from octal on. */
  lemma WordDigits(n: nat, base: nat)
    requires 8 <= base <= 16 && n < WORD
    ensures |LowFirst(n, base)| <= 11
  {
    assert Pow8(2) == 64;
    assert Pow8(4) == 4096;
    assert Pow8(6) == 262144;
    assert Pow8(8) == 16777216;
    assert Pow8(10) == 1073741824;
    DigitCount(n, base, 11);
  }

  lemma LowFirstStep(n: nat, base: nat)
    requires n > 0 && 2 <= base <= 16
    ensures 0 <= n / base < n && 0 <= n % base < 16
    ensures LowFirst(n, base) == [DigitChar(n % base)] + LowFirst(n / base, base)
  {
    DivShrinks(n, base);
  }

  lemma {:induction false} DigitsNotNul(n: nat, base: nat)
    requires 2 <= base <= 16
    ensures 0 !in Digits(n, base)
  {
    if n > 0 {
      DivShrinks(n, base);
      DigitsNotNul(n / base, base);
    }
  }

  /** The value of a digit, and of a numeral without sign in a base. */
  function DigitValue(c: byte): int {
    if IsDigit(c) then c - ZERO else c - LOWER_A + 10
  }

  function PositionalValue(t: seq<byte>, base: nat): int {
    if t == [] then 0 else base * PositionalValue(t[..|t| - 1], base) + DigitValue(t[|t| - 1])
  }

  lemma DigitsStep(n: nat, base: nat, q: nat, d: nat)
    requires n > 0 && 2 <= base <= 16 && q == n / base && d == n % base
    ensures d < base && q < n && n == base * q + d && Digits(n, base) == Digits(q, base) + [DigitChar(d)]
  {
    DivShrinks(n, base);
  }

  lemma DigitDenotes(d: nat)
    requires d < 16
    ensures DigitValue(DigitChar(d)) == d && (DigitChar(d) == ZERO <==> d == 0)
  {
  }

  lemma PositionalSnoc(t: seq<byte>, c: byte, base: nat)
    ensures PositionalValue(t + [c], base) == base * PositionalValue(t, base) + DigitValue(c)
  {
    assert (t + [c])[..|t|] == t;
  }

  /** The digits denote the number. */
  lemma {:induction false} DigitsDenote(n: nat, base: nat)
    requires 2 <= base <= 16
    ensures PositionalValue(Digits(n, base), base) == n
  {
    if n > 0 {
      hide Digits, PositionalValue, DigitChar, DigitValue;
      var q, d := n / base, n % base;
      DigitsStep(n, base, q, d);
      DigitsDenote(q, base);
      DigitDenotes(d);
      PositionalSnoc(Digits(q, base), DigitChar(d), base);
    }
  }

  /** The first digit is not 0. */
  lemma {:induction false} NoLeadingZero(n: nat, base: nat)
    requires 2 <= base <= 16 && n > 0
    ensures Digits(n, base) != [] && Digits(n, base)[0] != ZERO
  {
    hide DigitChar;
    var q, d := n / base, n % base;
    DigitsStep(n, base, q, d);
    DigitDenotes(d);
    if q == 0 {
      ProductZero(base, q);
      assert Digits(q, base) == [];
    } else {
      NoLeadingZero(q, base);
    }
  }

  lemma ProductZero(a: nat, b: nat)
    requires b == 0
    ensures a * b == 0
  {
  }

  /** The digit loop of both printers. */
  method FillDigits(buf: array<byte>, n: nat, base: nat) returns (p: nat)
    requires 8 <= base <= 16 && n < WORD && buf.Length >= 11
    modifies buf
    ensures p <= 11 && buf[..p] == LowFirst(n, base)
  {
    hide LowFirst;
    WordDigits(n, base);
    p := 0;
    var rest: nat := n;
    assert buf[..p] == [];
    while rest != 0
      invariant 0 <= p <= 11
      invariant LowFirst(n, base) == buf[..p] + LowFirst(rest, base)
      decreases rest
    {
      LowFirstStep(rest, base);
      ghost var before := buf[..p];
      buf[p] := DigitChar(rest % base);
      p := p + 1;
      assert buf[..p] == before + [DigitChar(rest % base)];
      rest := rest / base;
    }
    NoDigits(base);
  }

  lemma NoDigits(base: nat)
    requires 2 <= base <= 16
    ensures LowFirst(0, base) == []
  {
  }

  /** The swap loop of both printers. */
  method ReverseInPlace(buf: array<byte>, len: nat)
    requires len <= buf.Length
    modifies buf
    ensures buf[..len] == Reverse(old(buf[..len]))
  {
    ghost var was := buf[..len];
    var i := 0;
    while i < len / 2
      invariant 0 <= i <= len / 2
      invariant forall k | 0 <= k < i :: buf[k] == was[len - 1 - k] && buf[len - 1 - k] == was[k]
      invariant forall k | i <= k < len - i :: buf[k] == was[k]
    {
      var tmp := buf[i];
      buf[i] := buf[len - 1 - i];
      buf[len - 1 - i] := tmp;
      i := i + 1;
    }
    forall k | 0 <= k < len ensures buf[..len][k] == Reverse(was)[k] {
      ReversedAt(was, k);
    }
  }

  /** Reversing what the digit loop leaves, with the sign behind it or a zero in place of nothing, gives
      the numeral. */
  lemma ReversedNumeral(n: int, base: nat)
    requires 2 <= base <= 16
    ensures LowFirst(Magnitude(n), base) == [] <==> n == 0
    ensures Numeral(n, base) == Reverse(if n == 0 then [ZERO]
                                        else LowFirst(Magnitude(n), base) + if n < 0 then [MINUS] else [])
    ensures 0 !in Numeral(n, base)
  {
    var low := LowFirst(Magnitude(n), base);
    ReverseLowFirst(Magnitude(n), base);
    DigitsNotNul(Magnitude(n), base);
    if n == 0 {
      ReverseSnoc([], ZERO);
    } else if n < 0 {
      ReverseSnoc(low, MINUS);
    } else {
      assert low + [] == low;
    }
  }

  /** print_int, for bases from octal on and every long but the minimum. */
  method PrintInt(ps: PStream, n: int, base: nat, props: StrProps)
    requires ps.Valid() && 8 <= base <= 16 && Magnitude(n) < LONG_LIMIT
    modifies ps, ps.buffer
    ensures ps.Valid() && ps.text == old(ps.text) + Padded(Numeral(n, base), props)
  {
    hide LowFirst, Digits, Reverse, Padded, Numeral;
    ReversedNumeral(n, base);
    var buf := new byte[14];
    var rest, s := n, 0;
    if n < 0 {
      rest := -n;
      s := 1;
    }
    var p := FillDigits(buf, rest, base);
    if s != 0 {
      buf[p] := MINUS;
      p := p + 1;
      assert buf[..p] == LowFirst(rest, base) + [MINUS];
    }
    if p == 0 {
      buf[p] := ZERO;
      p := p + 1;
      assert buf[..p] == [ZERO];
    }
    assert buf[..p] == if n == 0 then [ZERO] else LowFirst(Magnitude(n), base) + if n < 0 then [MINUS] else [];
    FinishNumber(ps, buf, p, props, Numeral(n, base));
  }

  method PrintUnsigned(ps: PStream, n: nat, base: nat, props: StrProps)
    requires ps.Valid() && 8 <= base <= 16 && n < WORD
    modifies ps, ps.buffer
    ensures ps.Valid() && ps.text == old(ps.text) + Padded(Numeral(n, base), props)
  {
    hide LowFirst, Digits, Reverse, Padded, Numeral;
    ReversedNumeral(n, base);
    var buf := new byte[13];
    var p := FillDigits(buf, n, base);
    if p == 0 {
      buf[p] := ZERO;
      p := p + 1;
      assert buf[..p] == [ZERO];
    }
    assert buf[..p] == if n == 0 then [ZERO] else LowFirst(Magnitude(n), base) + if n < 0 then [MINUS] else [];
    FinishNumber(ps, buf, p, props, Numeral(n, base));
  }

  /** The common end of both printers: reverse, terminate and print. */
  method FinishNumber(ps: PStream, buf: array<byte>, p: nat, props: StrProps, ghost t: seq<byte>)
    requires ps.Valid() && buf != ps.buffer && p < buf.Length
    requires Reverse(buf[..p]) == t && 0 !in t
    modifies ps, ps.buffer, buf
    ensures ps.Valid() && ps.text == old(ps.text) + Padded(t, props)
  {
    ReverseInPlace(buf, p);
    buf[p] := 0;
    assert buf[..][..p] == t;
    CStringIs(buf[..], p);
    PrintStr(ps, buf[..], props);
  }

  // ---------- the number parser ----------

  predicate IsDigit(c: byte) {
    ZERO <= c <= NINE
  }

  /** Digits are appended to acc until something else comes. */
  function Number(t: seq<byte>, acc: nat): (v: nat)
    ensures v >= acc
  {
    if t == [] || !IsDigit(t[0]) then acc else Number(t[1..], acc * 10 + (t[0] - ZERO))
  }

  function ParseLong(t: seq<byte>): int {
    if t == [] then 0
    else if t[0] == SPACE || t[0] == TAB then ParseLong(t[1..])
    else if t[0] == MINUS then
      var v: int := Number(t[1..], 0);
      -v
    else if t[0] == PLUS then Number(t[1..], 0)
    else Number(t, 0)
  }

  predicate Terminated(s: seq<byte>, i: nat) {
    i <= |s| && 0 in s[i..]
  }

  lemma TerminatedNext(s: seq<byte>, i: nat)
    requires Terminated(s, i)
    ensures i < |s| && s[i..][0] == s[i] && s[i..][1..] == s[i + 1..]
    ensures s[i] != 0 ==> Terminated(s, i + 1)
  {
    assert s[i..] == [s[i]] + s[i + 1..];
  }

  lemma NumberStep(s: seq<byte>, i: nat, acc: nat)
    requires Terminated(s, i)
    ensures i < |s|
    ensures Number(s[i..], acc) == if IsDigit(s[i]) then Number(s[i + 1..], acc * 10 + (s[i] - ZERO)) else acc
    ensures IsDigit(s[i]) ==> Terminated(s, i + 1) && acc * 10 + (s[i] - ZERO) <= Number(s[i..], acc)
  {
    TerminatedNext(s, i);
  }

  lemma ParseStep(s: seq<byte>, i: nat)
    requires Terminated(s, i)
    ensures i < |s| && (s[i] != 0 ==> Terminated(s, i + 1))
    ensures s[i] == SPACE || s[i] == TAB ==> ParseLong(s[i..]) == ParseLong(s[i + 1..])
    ensures s[i] == PLUS ==> ParseLong(s[i..]) == Number(s[i + 1..], 0)
    ensures s[i] == MINUS ==> Magnitude(ParseLong(s[i..])) == Number(s[i + 1..], 0) && ParseLong(s[i..]) <= 0
    ensures s[i] !in [SPACE, TAB, PLUS, MINUS] ==> ParseLong(s[i..]) == Number(s[i..], 0)
  {
    TerminatedNext(s, i);
  }

  /** atol on the string that starts at from. It does not overflow when the number is a long. */
  method Atol(s: seq<byte>, from: nat) returns (acc: int)
    requires Terminated(s, from) && Magnitude(ParseLong(s[from..])) < LONG_LIMIT
    ensures acc == ParseLong(s[from..])
  {
    hide ParseLong, Number, Terminated;
    var i := from;
    ParseStep(s, i);
    while s[i] == SPACE || s[i] == TAB
      invariant Terminated(s, i) && i < |s| && ParseLong(s[i..]) == ParseLong(s[from..])
      decreases |s| - i
    {
      ParseStep(s, i);
      i := i + 1;
      ParseStep(s, i);
    }
    ParseStep(s, i);
    var neg := s[i] == MINUS;
    if s[i] == MINUS || s[i] == PLUS {
      i := i + 1;
    }
    acc := ScanDigits(s, i);
    if neg {
      acc := -acc;
    }
  }

  /** The digit loop of atol. */
  method ScanDigits(s: seq<byte>, from: nat) returns (acc: int)
    requires Terminated(s, from) && Number(s[from..], 0) < LONG_LIMIT
    ensures acc == Number(s[from..], 0)
  {
    hide Number, Terminated;
    acc := 0;
    var i := from;
    NumberStep(s, i, acc);
    while s[i] != 0
      invariant Terminated(s, i) && i < |s| && 0 <= acc < LONG_LIMIT && Number(s[i..], acc) == Number(s[from..], 0)
      decreases |s| - i
    {
      NumberStep(s, i, acc);
      if s[i] < ZERO || s[i] > NINE {
        break;
      }
      var c := s[i] - ZERO;
      acc := acc * 10 + c;
      i := i + 1;
      NumberStep(s, i, acc);
    }
    NumberStep(s, i, acc);
  }

  predicate AllDigits(t: seq<byte>) {
    forall c | c in t :: IsDigit(c)
  }

  lemma {:induction false} NumberSplit(a: seq<byte>, b: seq<byte>, acc: nat)
    requires AllDigits(a)
    ensures Number(a + b, acc) == Number(b, Number(a, acc))
  {
    if a == [] {
      assert a + b == b;
    } else {
      assert a[0] in a && (a + b)[1..] == a[1..] + b;
      NumberSplit(a[1..], b, acc * 10 + (a[0] - ZERO));
    }
  }

  lemma {:induction false} NumberOfDigits(n: nat)
    ensures AllDigits(Digits(n, 10)) && Number(Digits(n, 10), 0) == n
    ensures n > 0 ==> Digits(n, 10) != [] && Digits(n, 10)[0] != ZERO
  {
    if n > 0 {
      DivShrinks(n, 10);
      NumberOfDigits(n / 10);
      NumberSplit(Digits(n / 10, 10), [DigitChar(n % 10)], 0);
      LastDigit(n / 10, n % 10);
    }
  }

  lemma LastDigit(q: nat, d: nat)
    requires d < 10
    ensures Number([DigitChar(d)], q) == q * 10 + d && IsDigit(DigitChar(d)) && (DigitChar(d) == ZERO <==> d == 0)
  {
    assert Number([DigitChar(d)][1..], q * 10 + d) == q * 10 + d;
  }

  lemma {:induction false} SkipBlanks(k: int, t: seq<byte>)
    ensures ParseLong(Repeat(SPACE, k) + t) == ParseLong(t)
  {
    if k <= 0 {
      assert Repeat(SPACE, k) + t == t;
    } else {
      SkipBlanks(k - 1, [SPACE] + t);
      assert Repeat(SPACE, k) + t == Repeat(SPACE, k - 1) + ([SPACE] + t);
      assert ([SPACE] + t)[1..] == t;
    }
  }

  /** Reading stops where the digits end. */
  lemma NumberStops(t: seq<byte>, rest: seq<byte>)
    requires AllDigits(t) && (rest == [] || !IsDigit(rest[0]))
    ensures Number(t + rest, 0) == Number(t, 0)
  {
    NumberSplit(t, rest, 0);
  }

  lemma ParseNumeral(n: int, rest: seq<byte>)
    requires rest == [] || !IsDigit(rest[0])
    ensures ParseLong(Numeral(n, 10) + rest) == n
  {
    hide Digits, Number, ParseLong, AllDigits;
    var ds := Digits(Magnitude(n), 10);
    NumberOfDigits(Magnitude(n));
    if n == 0 {
      LastDigit(0, 0);
      OneDigit(ZERO);
      NumberStops([ZERO], rest);
      ParsesPlain([ZERO], rest);
    } else {
      NumberStops(ds, rest);
      if n < 0 {
        assert Numeral(n, 10) + rest == [MINUS] + (ds + rest);
        ParsesMinus(ds + rest);
      } else {
        assert Numeral(n, 10) == ds;
        ParsesPlain(ds, rest);
      }
    }
  }

  lemma OneDigit(c: byte)
    requires IsDigit(c)
    ensures AllDigits([c])
  {
  }

  lemma ParsesPlain(t: seq<byte>, rest: seq<byte>)
    requires AllDigits(t) && t != []
    ensures ParseLong(t + rest) == Number(t + rest, 0)
  {
    hide Number;
    assert t[0] in t && (t + rest)[0] == t[0];
  }

  lemma ParsesMinus(t: seq<byte>)
    ensures ParseLong([MINUS] + t) == -(Number(t, 0) as int)
  {
    hide Number;
    assert ([MINUS] + t)[1..] == t;
  }

  /** Parsing undoes printing, at every width padded with blanks. */
  lemma ParsePrinted(n: int, npad: int)
    ensures ParseLong(Padded(Numeral(n, 10), StrProps(SPACE, npad)) + [0]) == n
  {
    hide Numeral, Repeat;
    var t := Numeral(n, 10);
    if npad > 0 {
      assert Padded(t, StrProps(SPACE, npad)) + [0] == Repeat(SPACE, npad - |t|) + (t + [0]);
      SkipBlanks(npad - |t|, t + [0]);
      ParseNumeral(n, [0]);
    } else {
      var blanks := Repeat(SPACE, -npad - |t|);
      assert Padded(t, StrProps(SPACE, npad)) + [0] == t + (blanks + [0]);
      RepeatIs(SPACE, -npad - |t|);
      assert blanks != [] ==> blanks[0] in blanks;
      ParseNumeral(n, blanks + [0]);
    }
  }

  /** Signs and blanks of either kind in front of a number. */
  lemma {:induction false} ParseSigned(blanks: seq<byte>, plus: bool, n: int, rest: seq<byte>)
    requires forall c | c in blanks :: c == ' ' as int || c == '\t' as int
    requires (rest == [] || !IsDigit(rest[0])) && (plus ==> n >= 0)
    ensures ParseLong(blanks + (if plus then ['+' as int] else []) + Numeral(n, 10) + rest) == n
  {
    hide Numeral, Number;
    var sign := if plus then [PLUS] else [];
    if blanks == [] {
      if plus {
        assert blanks + sign + Numeral(n, 10) + rest == [PLUS] + (Numeral(n, 10) + rest);
        assert ([PLUS] + (Numeral(n, 10) + rest))[1..] == Numeral(n, 10) + rest;
        NumeralValue(n, rest);
      } else {
        assert blanks + sign + Numeral(n, 10) + rest == Numeral(n, 10) + rest;
        ParseNumeral(n, rest);
      }
    } else {
      assert blanks[0] in blanks;
      forall c | c in blanks[1..] ensures c in blanks {
      }
      ParseSigned(blanks[1..], plus, n, rest);
      var t := blanks + sign + Numeral(n, 10) + rest;
      assert t[1..] == blanks[1..] + sign + Numeral(n, 10) + rest && t[0] == blanks[0];
    }
  }

  lemma NumeralValue(n: int, rest: seq<byte>)
    requires n >= 0 && (rest == [] || !IsDigit(rest[0]))
    ensures Number(Numeral(n, 10) + rest, 0) == n
  {
    hide Digits, Number, AllDigits;
    NumberOfDigits(n);
    if n == 0 {
      LastDigit(0, 0);
      OneDigit(ZERO);
      NumberStops([ZERO], rest);
    } else {
      assert Numeral(n, 10) == Digits(n, 10);
      NumberStops(Digits(n, 10), rest);
    }
  }

  // ---------- numbers in other bases ----------

  /** A text without the blanks at its ends. */
  function Trimmed(s: seq<byte>): seq<byte> {
    if s == [] then s
    else if s[0] == ' ' as int then Trimmed(s[1..])
    else if s[|s| - 1] == ' ' as int then Trimmed(s[..|s| - 1])
    else s
  }

  predicate Solid(t: seq<byte>) {
    t != [] && t[0] != SPACE && t[|t| - 1] != SPACE
  }

  lemma {:induction false} TrimFront(k: int, t: seq<byte>)
    ensures Trimmed(Repeat(SPACE, k) + t) == Trimmed(t)
  {
    if k <= 0 {
      assert Repeat(SPACE, k) + t == t;
    } else {
      TrimFront(k - 1, [SPACE] + t);
      assert Repeat(SPACE, k) + t == Repeat(SPACE, k - 1) + ([SPACE] + t);
      assert ([SPACE] + t)[1..] == t;
    }
  }

  lemma {:induction false} TrimBack(k: int, t: seq<byte>)
    requires Solid(t)
    ensures Trimmed(t + Repeat(SPACE, k)) == t
  {
    if k <= 0 {
      assert t + Repeat(SPACE, k) == t;
    } else {
      var s := t + Repeat(SPACE, k);
      assert s[..|s| - 1] == t + Repeat(SPACE, k - 1) && s[|s| - 1] == SPACE && s[0] == t[0];
      TrimBack(k - 1, t);
    }
  }

  lemma TrimPadded(t: seq<byte>, npad: int)
    requires Solid(t)
    ensures Trimmed(Padded(t, StrProps(SPACE, npad))) == t
  {
    hide Repeat, Trimmed;
    if npad > 0 {
      TrimFront(npad - |t|, t);
      TrimSolid(t);
    } else {
      TrimBack(-npad - |t|, t);
    }
  }

  lemma TrimSolid(t: seq<byte>)
    requires Solid(t)
    ensures Trimmed(t) == t
  {
  }

  lemma {:induction false} DigitsSolid(n: nat, base: nat)
    requires 2 <= base <= 16 && n > 0
    ensures Solid(Digits(n, base))
  {
    hide DigitChar;
    var q, d := n / base, n % base;
    DigitsStep(n, base, q, d);
    NoBlankDigit(d);
    if q == 0 {
      ProductZero(base, q);
      assert Digits(q, base) == [];
    } else {
      DigitsSolid(q, base);
    }
  }

  lemma NoBlankDigit(d: nat)
    requires d < 16
    ensures DigitChar(d) != SPACE
  {
  }

  /** What an unsigned number is printed as, without its blanks, denotes it in its base. */
  lemma PrintedDenotes(n: nat, base: nat, npad: int)
    requires 2 <= base <= 16
    ensures PositionalValue(Trimmed(Padded(Numeral(n, base), StrProps(SPACE, npad))), base) == n
  {
    hide Digits, Trimmed, Padded, PositionalValue;
    if n == 0 {
      ZeroDenotes(base);
      TrimPadded([ZERO], npad);
    } else {
      DigitsSolid(n, base);
      assert Numeral(n, base) == Digits(n, base);
      TrimPadded(Digits(n, base), npad);
      DigitsDenote(n, base);
    }
  }

  lemma ZeroDenotes(base: nat)
    ensures PositionalValue([ZERO], base) == 0
  {
    assert [ZERO][..0] == [];
    assert PositionalValue([], base) == 0;
  }

  lemma {:induction false} RepeatIs(c: byte, n: int)
    ensures forall x | x in Repeat(c, n) :: x == c
  {
    if n > 0 { RepeatIs(c, n - 1); }
  }
}
