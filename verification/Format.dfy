/** vsnprintf of printf.c. Format strings are given by what they consist of, so that the interpreter is
    proved to invert the way they are written. */
module Format {
  import opened Bytes
  import opened FwCfg
  import opened Printf

  // ---------- what a format string consists of ----------

  /** Between % and its letter: a width, as it is written, or an l. */
  datatype Flag = Width(minus: bool, digits: seq<byte>) | Long {
    /** A width does not start with 0, and must fit a long. */
    ghost predicate Ok() {
      Width? ==> AllDigits(digits) && Number(digits, 0) < LONG_LIMIT
                 && (minus || (digits != [] && digits[0] != ZERO))
    }

    function Shown(): seq<byte> {
      match this
      case Width(minus, digits) => (if minus then [MINUS] else []) + digits
      case Long => [LOWER_L]
    }

    function Npad(npad: int): int {
      match this
      case Width(minus, digits) => if minus then 0 - Number(digits, 0) as int else Number(digits, 0)
      case Long => npad
    }
  }

  /** What a directive asks for, with its argument if it takes one. Zero is the 0 flag, which swallows
      one more character and prints itself; Nothing is the end of the string. */
  datatype What =
    | Decimal(n: int)
    | Hex(n: int)
    | Str(t: seq<byte>)
    | Char(code: int)
    | Pointer(n: int)
    | Percent
    | Zero(skipped: byte)
    | Other(c: byte)
    | Nothing
  {
    predicate Ok() {
      match this
      case Decimal(n) => Magnitude(n) < LONG_LIMIT
      case Hex(n) => 0 <= n < WORD
      case Pointer(n) => 0 <= n < WORD
      case Str(t) => 0 !in t
      case Zero(skipped) => skipped != 0
      case Other(c) => c !in [0, PERCENT, LOWER_C, LOWER_L, LOWER_D, LOWER_X, LOWER_P, LOWER_S, MINUS] && !IsDigit(c)
      case _ => true
    }

    function Shown(): seq<byte> {
      match this
      case Decimal(_) => [LOWER_D]
      case Hex(_) => [LOWER_X]
      case Str(_) => [LOWER_S]
      case Char(_) => [LOWER_C]
      case Pointer(_) => [LOWER_P]
      case Percent => [PERCENT]
      case Zero(skipped) => [ZERO, skipped]
      case Other(c) => [c]
      case Nothing => []
    }

    function Args(): seq<Arg> {
      match this
      case Decimal(n) => [ANumber(n)]
      case Hex(n) => [ANumber(n)]
      case Pointer(n) => [ANumber(n)]
      case Char(code) => [ANumber(code)]
      case Str(t) => [AString(t + [0])]
      case _ => []
    }

    /** What is printed, at a width. */
    function Text(npad: int): seq<byte> {
      var props := StrProps(SPACE, npad);
      match this
      case Decimal(n) => Padded(Numeral(n, 10), props)
      case Hex(n) => Padded(Numeral(n, 16), props)
      case Str(t) => Padded(t, props)
      case Char(code) => [code % 256]
      case Pointer(n) => Padded(OX, props) + Padded(Numeral(n, 16), props)
      case Percent => [PERCENT]
      case Zero(_) => [ZERO]
      case Other(c) => [c]
      case Nothing => []
    }
  }

  /** "0x" */
  const OX: seq<byte> := [ZERO, LOWER_X]

  datatype Arg = ANumber(n: int) | AString(s: seq<byte>)

  datatype Piece = Literal(c: byte) | Directive(flags: seq<Flag>, what: What) {
    ghost predicate Ok() {
      match this
      case Literal(c) => c != 0 && c != PERCENT
      case Directive(flags, what) =>
        FlagsOk(flags, what) && what.Ok() && (what.Decimal? || what.Hex? ==> Longs(flags) <= 1)
    }

    function Shown(): seq<byte> {
      match this
      case Literal(c) => [c]
      case Directive(flags, what) => [PERCENT] + ShownFlags(flags) + what.Shown()
    }

    function Args(): seq<Arg> {
      if Literal? then [] else what.Args()
    }

    function Text(): seq<byte> {
      match this
      case Literal(c) => [c]
      case Directive(flags, what) => what.Text(Npad(flags, 0))
    }
  }

  function ShownFlags(flags: seq<Flag>): seq<byte> {
    if flags == [] then [] else flags[0].Shown() + ShownFlags(flags[1..])
  }

  /** The last width counts. */
  function Npad(flags: seq<Flag>, npad: int): int {
    if flags == [] then npad else Npad(flags[1..], flags[0].Npad(npad))
  }

  function Longs(flags: seq<Flag>): nat {
    if flags == [] then 0 else (if flags[0].Long? then 1 else 0) + Longs(flags[1..])
  }

  /** What follows a width does not continue it. */
  ghost predicate FlagsOk(flags: seq<Flag>, what: What) {
    flags != [] ==>
      && flags[0].Ok() && FlagsOk(flags[1..], what)
      && (flags[0].Width? ==> if |flags| > 1 then flags[1].Long? || flags[1].minus else !what.Zero?)
  }

  /** A format string and its arguments; only its last directive may lack a letter. */
  ghost predicate AllOk(ps: seq<Piece>) {
    ps != [] ==> ps[0].Ok() && AllOk(ps[1..]) && (ps[0].Directive? && ps[0].what.Nothing? ==> |ps| == 1)
  }

  function Shown(ps: seq<Piece>): seq<byte> {
    if ps == [] then [] else ps[0].Shown() + Shown(ps[1..])
  }

  function Args(ps: seq<Piece>): seq<Arg> {
    if ps == [] then [] else ps[0].Args() + Args(ps[1..])
  }

  /** The whole output, without any bound. */
  function Text(ps: seq<Piece>): seq<byte> {
    if ps == [] then [] else ps[0].Text() + Text(ps[1..])
  }

  // ---------- fmtnum ----------

  /** The number that is written in front of rest. */
  method FmtNum(fmt: seq<byte>, from: nat, ghost w: Flag, ghost rest: seq<byte>) returns (num: int, next: nat)
    requires w.Width? && w.Ok() && from <= |fmt| && fmt[from..] == w.Shown() + rest
    requires 0 in rest && !IsDigit(rest[0])
    ensures num == w.Npad(0) && next <= |fmt| && fmt[next..] == rest
  {
    hide Number, ParseLong, AllDigits, Flag.Ok, Flag.Shown, Flag.Npad, Terminated;
    WidthParses(w, rest);
    WidthEnds(fmt, from, w, rest);
    WidthTerminated(fmt, from, w.Shown(), rest);
    var f, len := from, 0;
    if fmt[f] == MINUS {
      f, len := f + 1, len + 1;
    }
    while fmt[f] >= ZERO && fmt[f] <= NINE
      invariant from <= f < |fmt| && len == f - from && f <= from + |w.Shown()|
      decreases |fmt| - f
    {
      f, len := f + 1, len + 1;
    }
    num := Atol(fmt, from);
    next := from + len;
  }

  lemma WidthTerminated(fmt: seq<byte>, from: nat, s: seq<byte>, rest: seq<byte>)
    requires from <= |fmt| && fmt[from..] == s + rest && 0 in rest
    ensures Terminated(fmt, from)
  {
  }

  /** Where the digits of a width are and what ends them. */
  lemma WidthEnds(fmt: seq<byte>, from: nat, w: Flag, rest: seq<byte>)
    requires w.Width? && w.Ok() && from <= |fmt| && fmt[from..] == w.Shown() + rest
    requires 0 in rest && !IsDigit(rest[0])
    ensures var end := from + |w.Shown()|;
            && end < |fmt| && fmt[end] == rest[0] && fmt[end..] == rest
            && (fmt[from] == MINUS <==> w.minus) && (w.minus ==> |w.Shown()| >= 1)
            && forall k | from + (if w.minus then 1 else 0) <= k < end :: IsDigit(fmt[k])
  {
    hide Flag.Ok, Flag.Shown;
    var s, start, n := fmt[from..], if w.minus then 1 else 0, |w.Shown()|;
    WidthCharacters(s, w, rest);
    MinusShown(w);
    forall k | from + start <= k < from + n ensures IsDigit(fmt[k]) {
      assert fmt[k] == s[k - from];
    }
    assert fmt[from] == s[0] && fmt[from + n] == s[n];
    assert fmt[from + n..] == s[n..];
  }

  lemma MinusShown(w: Flag)
    ensures w.Width? && w.minus ==> |w.Shown()| >= 1
  {
  }

  lemma WidthCharacters(s: seq<byte>, w: Flag, rest: seq<byte>)
    requires w.Width? && w.Ok() && s == w.Shown() + rest && rest != [] && !IsDigit(rest[0])
    ensures var n := |w.Shown()|;
            && s[n] == rest[0] && s[n..] == rest && (s[0] == MINUS <==> w.minus)
            && forall k | (if w.minus then 1 else 0) <= k < n :: IsDigit(s[k])
  {
    hide Number;
    var start, n := if w.minus then 1 else 0, |w.Shown()|;
    forall k | start <= k < n ensures IsDigit(s[k]) {
      assert s[k] == w.digits[k - start] && w.digits[k - start] in w.digits;
    }
    if !w.minus {
      assert s[0] == w.digits[0] && w.digits[0] in w.digits;
    }
  }

  lemma WidthParses(w: Flag, rest: seq<byte>)
    requires w.Width? && w.Ok() && rest != [] && !IsDigit(rest[0])
    ensures ParseLong(w.Shown() + rest) == w.Npad(0) && Magnitude(w.Npad(0)) < LONG_LIMIT
  {
    hide Number, ParseLong, AllDigits;
    NumberStops(w.digits, rest);
    if w.minus {
      assert w.Shown() + rest == [MINUS] + (w.digits + rest);
      ParsesMinus(w.digits + rest);
    } else {
      assert w.Shown() == w.digits;
      ParsesPlain(w.digits, rest);
    }
  }

  // ---------- vsnprintf ----------

  predicate IsFlag(c: byte) {
    (ZERO < c <= NINE) || c == MINUS || c == LOWER_L
  }

  /** The character of a directive that is not a flag. */
  function Letter(what: What): byte {
    if what.Nothing? then 0 else what.Shown()[0]
  }

  lemma LetterTells(what: What)
    requires what.Ok()
    ensures !IsFlag(Letter(what))
    ensures var c := Letter(what);
            && (c == PERCENT <==> what.Percent?) && (c == LOWER_C <==> what.Char?) && (c == 0 <==> what.Nothing?)
            && (c == ZERO <==> what.Zero?) && (c == LOWER_D <==> what.Decimal?) && (c == LOWER_X <==> what.Hex?)
            && (c == LOWER_P <==> what.Pointer?) && (c == LOWER_S <==> what.Str?)
  {
  }

  lemma LetterFirst(what: What, rest: seq<byte>)
    requires what.Nothing? ==> rest != [] && rest[0] == 0
    ensures what.Shown() + rest != [] && (what.Shown() + rest)[0] == Letter(what)
  {
  }

  lemma WidthFirst(w: Flag, after: seq<byte>)
    requires w.Width? && w.Ok()
    ensures var s := w.Shown() + after; s != [] && s[0] != LOWER_L && IsFlag(s[0])
  {
    hide Number;
    if !w.minus {
      assert w.digits[0] in w.digits;
    }
  }

  /** What the next character of a directive says. */
  lemma NextCharacter(s: seq<byte>, flags: seq<Flag>, what: What, rest: seq<byte>)
    requires s == ShownFlags(flags) + what.Shown() + rest
    requires FlagsOk(flags, what) && what.Ok() && (what.Nothing? ==> rest != [] && rest[0] == 0)
    ensures s != []
    ensures flags == [] ==> s[0] == Letter(what)
    ensures flags != [] && flags[0].Long? ==> s[0] == LOWER_L && s[1..] == ShownFlags(flags[1..]) + what.Shown() + rest
    ensures flags != [] && flags[0].Width? ==> s[0] != LOWER_L && IsFlag(s[0])
  {
    hide What.Ok, What.Shown, Flag.Ok, Flag.Shown, Letter, IsFlag, ShownFlags;
    if flags == [] {
      NoFlags(what.Shown() + rest);
      assert s == ShownFlags([]) + (what.Shown() + rest);
      LetterFirst(what, rest);
    } else {
      var after := ShownFlags(flags[1..]) + what.Shown() + rest;
      FirstFlag(flags, what.Shown(), rest);
      if flags[0].Width? {
        WidthFirst(flags[0], after);
      } else {
        LongFirst(flags[0], after);
      }
    }
  }

  lemma NoFlags(s: seq<byte>)
    ensures ShownFlags([]) + s == s
  {
  }

  lemma FirstFlag(flags: seq<Flag>, letter: seq<byte>, rest: seq<byte>)
    requires flags != []
    ensures ShownFlags(flags) + letter + rest == flags[0].Shown() + (ShownFlags(flags[1..]) + letter + rest)
  {
    hide Flag.Shown;
  }

  lemma LongFirst(f: Flag, after: seq<byte>)
    requires f.Long?
    ensures (f.Shown() + after)[0] == LOWER_L && (f.Shown() + after)[1..] == after
  {
  }

  /** What comes after a width. */
  lemma AfterWidth(s: seq<byte>, flags: seq<Flag>, what: What, rest: seq<byte>)
    requires s == ShownFlags(flags) + what.Shown() + rest && s != []
    requires what.Ok() && (what.Nothing? ==> rest != [] && rest[0] == 0)
    requires if flags != [] then flags[0].Long? || flags[0].minus else !what.Zero?
    ensures !IsDigit(s[0])
  {
    hide What.Ok, What.Shown, Flag.Ok, Letter;
    if flags == [] {
      NoFlags(what.Shown() + rest);
      assert s == ShownFlags([]) + (what.Shown() + rest);
      LetterFirst(what, rest);
      LetterTells(what);
    } else {
      FirstFlag(flags, what.Shown(), rest);
      assert s[0] == flags[0].Shown()[0];
    }
  }

  /** After a width comes no digit. */
  lemma WidthIsOver(flags: seq<Flag>, what: What, rest: seq<byte>)
    requires FlagsOk(flags, what) && what.Ok() && flags != [] && flags[0].Width?
    requires 0 in rest && (what.Nothing? ==> rest[0] == 0)
    ensures var after := ShownFlags(flags[1..]) + what.Shown() + rest;
            && 0 in after && !IsDigit(after[0])
            && ShownFlags(flags) + what.Shown() + rest == flags[0].Shown() + after
  {
    hide What.Ok, What.Shown, Flag.Ok, Flag.Shown, Letter, IsFlag, ShownFlags;
    var after := ShownFlags(flags[1..]) + what.Shown() + rest;
    assert after[|after| - |rest|..] == rest;
    FirstFlag(flags, what.Shown(), rest);
    AfterWidth(after, flags[1..], what, rest);
  }

  /** The interpreter stands before these flags of a directive. */
  ghost predicate Reading(fmt: seq<byte>, at: nat, flags: seq<Flag>, what: What, rest: seq<byte>) {
    && at <= |fmt| && fmt[at..] == ShownFlags(flags) + what.Shown() + rest
    && FlagsOk(flags, what) && what.Ok() && 0 in rest && (what.Nothing? ==> rest[0] == 0)
  }

  lemma ReadingStep(fmt: seq<byte>, at: nat, flags: seq<Flag>, what: What, rest: seq<byte>)
    requires Reading(fmt, at, flags, what, rest)
    ensures at < |fmt| && (IsFlag(fmt[at]) <==> flags != [])
    ensures flags == [] ==> fmt[at] == Letter(what) && fmt[at..] == what.Shown() + rest
    ensures flags != [] ==> (fmt[at] == LOWER_L <==> flags[0].Long?)
    ensures flags != [] && flags[0].Long? ==> Reading(fmt, at + 1, flags[1..], what, rest)
  {
    hide What.Ok, What.Shown, Flag.Ok, Flag.Shown, Letter, ShownFlags;
    var s := fmt[at..];
    LetterTells(what);
    NextCharacter(s, flags, what, rest);
    if flags == [] {
      NoFlags(what.Shown() + rest);
      assert s == ShownFlags([]) + (what.Shown() + rest);
    }
    assert s[0] == fmt[at] && s[1..] == fmt[at + 1..];
  }

  /** A width in front is what fmtnum expects, and what it leaves is read on. */
  lemma ReadingWidth(fmt: seq<byte>, at: nat, flags: seq<Flag>, what: What, rest: seq<byte>)
    requires Reading(fmt, at, flags, what, rest) && flags != [] && flags[0].Width?
    ensures var after := ShownFlags(flags[1..]) + what.Shown() + rest;
            && flags[0].Ok() && fmt[at..] == flags[0].Shown() + after && 0 in after && !IsDigit(after[0])
            && forall next: nat | next <= |fmt| && fmt[next..] == after :: Reading(fmt, next, flags[1..], what, rest)
  {
    hide What.Ok, What.Shown, Flag.Ok, Flag.Shown;
    WidthIsOver(flags, what, rest);
  }

  /** The part of the loop that goes back to morefmt: the flags up to the letter. */
  method ReadFlags(fmt: seq<byte>, from: nat, ghost flags: seq<Flag>, ghost what: What, ghost rest: seq<byte>)
    returns (f: byte, next: nat, npad: int, nlong: nat)
    requires Reading(fmt, from, flags, what, rest)
    ensures f == Letter(what) && 0 < next <= |fmt| && fmt[next - 1] == f && fmt[next - 1..] == what.Shown() + rest
    ensures npad == Npad(flags, 0) && nlong == Longs(flags)
  {
    hide Reading, IsFlag, Flag.Ok, Flag.Shown, What.Shown, Letter, ShownFlags;
    next, npad, nlong := from, 0, 0;
    ghost var fs := flags;
    ReadingStep(fmt, next, fs, what, rest);
    f := fmt[next];
    next := next + 1;
    while IsFlag(f)
      invariant 0 < next <= |fmt| && f == fmt[next - 1] && Reading(fmt, next - 1, fs, what, rest)
      invariant Npad(fs, npad) == Npad(flags, 0) && nlong + Longs(fs) == Longs(flags)
      decreases |fs|
    {
      ReadingStep(fmt, next - 1, fs, what, rest);
      if f == LOWER_L {
        nlong := nlong + 1;
      } else {
        ReadingWidth(fmt, next - 1, fs, what, rest);
        next := next - 1;
        npad, next := FmtNum(fmt, next, fs[0], ShownFlags(fs[1..]) + what.Shown() + rest);
      }
      fs := fs[1..];
      ReadingStep(fmt, next, fs, what, rest);
      f := fmt[next];
      next := next + 1;
    }
    ReadingStep(fmt, next - 1, fs, what, rest);
  }

  /** What follows a letter. */
  lemma AfterLetter(fmt: seq<byte>, at: nat, what: What, rest: seq<byte>)
    requires 0 < at <= |fmt| && fmt[at - 1..] == what.Shown() + rest && (what.Nothing? ==> rest != [] && rest[0] == 0)
    ensures if what.Zero? then at + 1 <= |fmt| && fmt[at + 1..] == rest
            else if what.Nothing? then fmt[at - 1..] == rest
            else fmt[at..] == rest
  {
    var s := fmt[at - 1..];
    assert s[1..] == fmt[at..];
    if what.Zero? {
      assert s[2..] == fmt[at + 1..];
    }
  }

  predicate TakesNumber(what: What) {
    what.Decimal? || what.Hex? || what.Char? || what.Pointer?
  }

  lemma ArgumentFor(va: seq<Arg>, arg: nat, what: What)
    requires arg + |what.Args()| <= |va| && va[arg..arg + |what.Args()|] == what.Args()
    ensures TakesNumber(what) ==> arg < |va| && va[arg].ANumber? && what.Args() == [va[arg]]
    ensures what.Str? ==> arg < |va| && va[arg] == AString(what.t + [0]) && what.Args() == [va[arg]]
    ensures !TakesNumber(what) && !what.Str? ==> |what.Args()| == 0
  {
    if TakesNumber(what) || what.Str? {
      assert va[arg..arg + 1][0] == va[arg];
    }
  }

  /** The letter of a directive. */
  method Convert(p: PStream, f: byte, fmt: seq<byte>, at: nat, va: seq<Arg>, arg: nat, npad: int, nlong: nat,
                 ghost what: What, ghost rest: seq<byte>) returns (next: nat, used: nat)
    requires p.Valid() && what.Ok() && f == Letter(what) && (what.Decimal? || what.Hex? ==> nlong <= 1)
    requires 0 < at <= |fmt| && fmt[at - 1..] == what.Shown() + rest && (what.Nothing? ==> rest != [] && rest[0] == 0)
    requires arg + |what.Args()| <= |va| && va[arg..arg + |what.Args()|] == what.Args()
    modifies p, p.buffer
    ensures p.Valid() && p.text == old(p.text) + what.Text(npad)
    ensures next <= |fmt| && fmt[next..] == rest && used == arg + |what.Args()|
  {
    hide Padded, Numeral, PStream.Valid, What.Shown, Letter;
    LetterTells(what);
    AfterLetter(fmt, at, what, rest);
    ArgumentFor(va, arg, what);
    next, used := at, arg;
    if f == PERCENT {
      p.AddChar(PERCENT);
      return;
    }
    if f == LOWER_C {
      p.AddChar(va[arg].n % 256);
      used := used + 1;
      return;
    }
    if f == 0 {
      next := next - 1;
      return;
    }
    var props := StrProps(SPACE, npad);
    if f == ZERO {
      props := props.(pad := ZERO);
      next := next + 1;
    }
    if f == LOWER_D || f == LOWER_X || f == LOWER_P || f == LOWER_S {
      PrintArgument(p, f, va[arg], props, nlong, what);
      used := used + 1;
      return;
    }
    p.AddChar(f);
    OtherLetter(what);
  }

  lemma OtherLetter(what: What)
    requires what.Zero? || what.Other?
    ensures forall npad: int :: what.Text(npad) == [Letter(what)]
  {
  }

  /** %d, %x, %p and %s. */
  method PrintArgument(p: PStream, f: byte, a: Arg, props: StrProps, nlong: nat, ghost what: What)
    requires p.Valid() && props.pad == SPACE && what.Ok() && what.Args() == [a] && f == Letter(what)
    requires what.Decimal? || what.Hex? || what.Pointer? || what.Str?
    requires what.Decimal? || what.Hex? ==> nlong <= 1
    modifies p, p.buffer
    ensures p.Valid() && p.text == old(p.text) + what.Text(props.npad)
  {
    hide Padded, Numeral, PStream.Valid;
    if f == LOWER_D {
      if nlong == 0 {
        PrintInt(p, a.n, 10, props);
      } else if nlong == 1 {
        PrintInt(p, a.n, 10, props);
      } else {
        assert false;
      }
    } else if f == LOWER_X {
      if nlong == 0 {
        PrintUnsigned(p, a.n, 16, props);
      } else if nlong == 1 {
        PrintUnsigned(p, a.n, 16, props);
      } else {
        assert false;
      }
    } else if f == LOWER_P {
      TerminatedIs(OX);
      PrintStr(p, OX + [0], props);
      PrintUnsigned(p, a.n, 16, props);
    } else {
      TerminatedIs(what.t);
      PrintStr(p, a.s, props);
    }
  }

  /** Everything from one % to the next piece. */
  method FormatOne(p: PStream, fmt: seq<byte>, from: nat, va: seq<Arg>, arg: nat, ghost d: Piece, ghost rest: seq<byte>)
    returns (next: nat, used: nat)
    requires p.Valid() && d.Directive? && d.Ok() && Reading(fmt, from, d.flags, d.what, rest)
    requires arg + |d.Args()| <= |va| && va[arg..arg + |d.Args()|] == d.Args()
    modifies p, p.buffer
    ensures p.Valid() && p.text == old(p.text) + d.Text()
    ensures next <= |fmt| && fmt[next..] == rest && used == arg + |d.Args()|
  {
    hide PStream.Valid, What.Shown, What.Text, What.Args, Letter, FlagsOk, ShownFlags;
    var f, at, npad, nlong := ReadFlags(fmt, from, d.flags, d.what, rest);
    next, used := Convert(p, f, fmt, at, va, arg, npad, nlong, d.what, rest);
  }

  /** The interpreter stands before these pieces. */
  ghost predicate Before(fmt: seq<byte>, at: nat, va: seq<Arg>, arg: nat, ps: seq<Piece>) {
    at <= |fmt| && fmt[at..] == Shown(ps) + [0] && arg <= |va| && va[arg..] == Args(ps) && AllOk(ps)
  }

  lemma AtEnd(fmt: seq<byte>, at: nat, va: seq<Arg>, arg: nat, ps: seq<Piece>)
    requires Before(fmt, at, va, arg, ps)
    ensures at < |fmt| && (fmt[at] == 0 <==> ps == [])
    ensures ps != [] ==> (fmt[at] == PERCENT <==> ps[0].Directive?)
  {
    hide What.Shown, What.Ok, FlagsOk, ShownFlags;
    assert fmt[at] == fmt[at..][0];
    if ps != [] {
      var s := ps[0].Shown();
      assert s != [] && fmt[at] == s[0];
    }
  }

  lemma AtLiteral(fmt: seq<byte>, at: nat, va: seq<Arg>, arg: nat, ps: seq<Piece>)
    requires Before(fmt, at, va, arg, ps) && ps != [] && ps[0].Literal?
    ensures at < |fmt| && fmt[at] == ps[0].c && Before(fmt, at + 1, va, arg, ps[1..])
  {
    var after := Shown(ps[1..]) + [0];
    assert fmt[at..] == [ps[0].c] + after;
    assert fmt[at..][1..] == fmt[at + 1..];
    assert fmt[at..][0] == fmt[at];
    assert Args(ps) == [] + Args(ps[1..]);
  }

  /** Splitting off the front of what is left. */
  lemma TakeFront<T>(s: seq<T>, i: nat, a: seq<T>, b: seq<T>)
    requires i <= |s| && s[i..] == a + b
    ensures i + |a| <= |s| && s[i..i + |a|] == a && s[i + |a|..] == b
  {
    assert s[i..][..|a|] == s[i..i + |a|];
    assert s[i..][|a|..] == s[i + |a|..];
  }

  lemma AtDirective(fmt: seq<byte>, at: nat, va: seq<Arg>, arg: nat, ps: seq<Piece>)
    requires Before(fmt, at, va, arg, ps) && ps != [] && ps[0].Directive?
    ensures var d, rest := ps[0], Shown(ps[1..]) + [0];
            && d.Ok() && Reading(fmt, at + 1, d.flags, d.what, rest)
            && arg + |d.Args()| <= |va| && va[arg..arg + |d.Args()|] == d.Args()
            && forall next: nat | next <= |fmt| && fmt[next..] == rest ::
                 Before(fmt, next, va, arg + |d.Args()|, ps[1..])
  {
    hide Piece.Ok, Piece.Shown, Piece.Args, Reading;
    var d, rest := ps[0], Shown(ps[1..]) + [0];
    TakeFront(va, arg, d.Args(), Args(ps[1..]));
    assert fmt[at..] == d.Shown() + rest;
    StartsReading(fmt, at, d, rest);
  }

  lemma StartsReading(fmt: seq<byte>, at: nat, d: Piece, rest: seq<byte>)
    requires at <= |fmt| && d.Directive? && d.Ok() && fmt[at..] == d.Shown() + rest && 0 in rest
    requires d.what.Nothing? ==> rest == [0]
    ensures Reading(fmt, at + 1, d.flags, d.what, rest)
  {
    hide What.Shown, What.Ok, FlagsOk, ShownFlags;
    TakeFront(fmt, at, [PERCENT], ShownFlags(d.flags) + d.what.Shown() + rest);
  }

  /** One round of the loop: one piece of the format string. */
  method FormatPiece(s: PStream, fmt: seq<byte>, from: nat, va: seq<Arg>, used: nat, ghost ps: seq<Piece>)
    returns (at: nat, arg: nat)
    requires s.Valid() && Before(fmt, from, va, used, ps) && ps != []
    modifies s, s.buffer
    ensures s.Valid() && s.text == old(s.text) + ps[0].Text() && Before(fmt, at, va, arg, ps[1..])
  {
    hide PStream.Valid, Before, Shown, Args, Piece.Args, Piece.Text, Piece.Ok, Reading;
    AtEnd(fmt, from, va, used, ps);
    at, arg := from + 1, used;
    var f := fmt[from];
    if f != PERCENT {
      AtLiteral(fmt, from, va, used, ps);
      LiteralText(ps[0]);
      s.AddChar(f);
    } else {
      AtDirective(fmt, from, va, used, ps);
      at, arg := FormatOne(s, fmt, at, va, arg, ps[0], Shown(ps[1..]) + [0]);
    }
  }

  /** vsnprintf into a buffer of size at least 1: the first size - 1 characters of the output and a NUL,
      and nothing beyond. The value is one more than the length of the whole output. */
  method Vsnprintf(buf: array<byte>, size: nat, fmt: seq<byte>, va: seq<Arg>, ghost ps: seq<Piece>) returns (added: int)
    requires 1 <= size <= buf.Length && AllOk(ps) && fmt == Shown(ps) + [0] && va == Args(ps)
    modifies buf
    ensures var t := Text(ps); var k := Min(size - 1, |t|);
            added == |t| + 1 && buf[..] == t[..k] + [0] + old(buf[..])[k + 1..]
  {
    hide AllOk, Shown, Args, Before, Piece.Text, Piece.Ok, PStream.Valid, Text;
    var s := new PStream(buf, size);
    var at: nat, arg: nat := 0, 0;
    ghost var rest := ps;
    assert s.text + Text(ps) == Text(ps);
    BeforeAll(ps);
    AtEnd(fmt, at, va, arg, rest);
    while fmt[at] != 0
      invariant s.Valid()
      invariant Before(fmt, at, va, arg, rest) && at < |fmt| && (fmt[at] == 0 <==> rest == [])
      invariant s.text + Text(rest) == Text(ps)
      decreases |rest|
    {
      TextStep(s.text, rest);
      at, arg := FormatPiece(s, fmt, at, va, arg, rest);
      rest := rest[1..];
      AtEnd(fmt, at, va, arg, rest);
    }
    TextOver(s.text, rest);
    added := Finish(s);
  }

  /** The end of vsnprintf. */
  method Finish(s: PStream) returns (added: int)
    requires s.Valid()
    modifies s, s.buffer
    ensures var k := Min(s.room, |s.text|);
            added == |s.text| + 1 && s.buffer[..] == s.text[..k] + [0] + s.initial[k + 1..]
    ensures s.text == old(s.text)
  {
    s.buffer[s.at] := 0;
    s.added := s.added + 1;
    return s.added;
  }

  lemma TextStep(t: seq<byte>, ps: seq<Piece>)
    requires ps != []
    ensures t + Text(ps) == t + ps[0].Text() + Text(ps[1..])
  {
  }

  lemma TextOver(t: seq<byte>, ps: seq<Piece>)
    requires ps == []
    ensures t + Text(ps) == t
  {
  }

  lemma BeforeAll(ps: seq<Piece>)
    requires AllOk(ps)
    ensures Before(Shown(ps) + [0], 0, Args(ps), 0, ps)
  {
  }

  lemma LiteralText(p: Piece)
    requires p.Literal?
    ensures p.Text() == [p.c]
  {
  }

  /** A numeral other than 0 is a width, and means itself. */
  lemma NumeralIsWidth(w: int)
    requires w != 0 && Magnitude(w) < LONG_LIMIT
    ensures var f := Width(w < 0, Digits(Magnitude(w), 10)); f.Ok() && f.Shown() == Numeral(w, 10) && f.Npad(0) == w
  {
    hide Digits, Number;
    NumberOfDigits(Magnitude(w));
  }

  /** What "%d", "%wd" and "%ld" print, atol reads back. */
  lemma FormatThenParse(n: int, flags: seq<Flag>)
    ensures ParseLong(Text([Directive(flags, Decimal(n))]) + [0]) == n
  {
    hide Padded, Numeral, ParseLong;
    var d := Directive(flags, Decimal(n));
    assert Text([d]) == d.Text();
    ParsePrinted(n, Npad(flags, 0));
  }

  /** What "%x" prints reads back in base 16, at every width. */
  lemma FormatHexReads(n: nat, flags: seq<Flag>)
    ensures PositionalValue(Trimmed(Text([Directive(flags, Hex(n))])), 16) == n
  {
    hide Padded, Numeral, Trimmed, PositionalValue;
    var d := Directive(flags, Hex(n));
    assert Text([d]) == d.Text();
    PrintedDenotes(n, 16, Npad(flags, 0));
  }

  /** The letters by which directives are written, and what they print. */
  lemma Letters(n: int, t: seq<byte>, npad: int)
    ensures Decimal(n).Shown() == Ascii("d") && Hex(n).Shown() == Ascii("x") && Str(t).Shown() == Ascii("s")
    ensures Char(n).Shown() == Ascii("c") && Pointer(n).Shown() == Ascii("p") && Percent.Shown() == Ascii("%")
    ensures Flag.Long.Shown() == Ascii("l") && Percent.Text(npad) == Ascii("%")
    ensures Pointer(n).Text(npad) == Padded(Ascii("0x"), StrProps(' ' as int, npad)) + Hex(n).Text(npad)
    ensures Str(t).Text(npad) == Padded(t, StrProps(' ' as int, npad)) && Char(n).Text(npad) == [n % 256]
  {
    hide Padded, Numeral;
    assert Ascii("0x") == OX;
  }

  // ---------- every format string consists of something ----------

  function DigitRun(s: seq<byte>): (n: nat)
    ensures n <= |s| && (n < |s| ==> !IsDigit(s[n]))
  {
    if s == [] || !IsDigit(s[0]) then 0 else 1 + DigitRun(s[1..])
  }

  /** How many characters fmtnum takes. */
  function WidthRun(s: seq<byte>): (n: nat)
    ensures n <= |s| && (n < |s| ==> !IsDigit(s[n]))
  {
    if s != [] && s[0] == MINUS then 1 + DigitRun(s[1..]) else DigitRun(s)
  }

  predicate StartsWidth(c: byte) {
    ZERO < c <= NINE || c == MINUS
  }

  function WidthOf(s: seq<byte>): Flag
    requires s != [] && StartsWidth(s[0])
  {
    if s[0] == MINUS then Width(true, s[1..WidthRun(s)]) else Width(false, s[..WidthRun(s)])
  }

  /** Arguments of the kinds that the letters ask for. */
  predicate Suits(c: byte, va: seq<Arg>) {
    if c == LOWER_D then va != [] && va[0].ANumber? && Magnitude(va[0].n) < LONG_LIMIT
    else if c == LOWER_X || c == LOWER_P then va != [] && va[0].ANumber? && 0 <= va[0].n < WORD
    else if c == LOWER_C then va != [] && va[0].ANumber?
    else if c == LOWER_S then
      va != [] && va[0].AString? && var s := va[0].s; s != [] && s[|s| - 1] == 0 && 0 !in s[..|s| - 1]
    else true
  }

  predicate TakesArgument(c: byte) {
    c in [LOWER_D, LOWER_X, LOWER_P, LOWER_C, LOWER_S]
  }

  /** What a caller has to see to: the arguments match the letters, no width is beyond a long, no d or x
      has two l in front of it, and no 0 flag ends the string. */
  predicate Proper(f: seq<byte>, va: seq<Arg>)
    decreases |f|
  {
    if f == [] then va == []
    else if f[0] != PERCENT then Proper(f[1..], va)
    else ProperDirective(f[1..], 0, va)
  }

  predicate ProperDirective(s: seq<byte>, longs: nat, va: seq<Arg>)
    decreases |s|
  {
    if s == [] then va == []
    else if s[0] == LOWER_L then ProperDirective(s[1..], longs + 1, va)
    else if StartsWidth(s[0]) then
      Number(WidthOf(s).digits, 0) < LONG_LIMIT && WidthRun(s) > 0 && ProperDirective(s[WidthRun(s)..], longs, va)
    else if s[0] == ZERO then |s| > 1 && Proper(s[2..], va)
    else
      && Suits(s[0], va) && (s[0] == LOWER_D || s[0] == LOWER_X ==> longs <= 1)
      && Proper(s[1..], if TakesArgument(s[0]) then va[1..] else va)
  }

  lemma {:induction false} DigitRunDigits(s: seq<byte>)
    ensures AllDigits(s[..DigitRun(s)])
  {
    if s != [] && IsDigit(s[0]) {
      DigitRunDigits(s[1..]);
      assert s[..DigitRun(s)] == [s[0]] + s[1..][..DigitRun(s[1..])];
    }
  }

  lemma WidthOfOk(s: seq<byte>)
    requires s != [] && StartsWidth(s[0]) && Number(WidthOf(s).digits, 0) < LONG_LIMIT
    ensures WidthOf(s).Ok() && WidthRun(s) > 0 && s == WidthOf(s).Shown() + s[WidthRun(s)..]
  {
    hide Number;
    if s[0] == MINUS {
      DigitRunDigits(s[1..]);
      assert s[1..WidthRun(s)] == s[1..][..DigitRun(s[1..])];
      assert s == [MINUS] + s[1..WidthRun(s)] + s[WidthRun(s)..];
    } else {
      DigitRunDigits(s);
      assert s == s[..WidthRun(s)] + s[WidthRun(s)..];
    }
  }

  /** The directive of a letter that is not a flag and not 0. */
  function Named(c: byte, va: seq<Arg>): What
    requires Suits(c, va)
  {
    if c == LOWER_D then Decimal(va[0].n)
    else if c == LOWER_X then Hex(va[0].n)
    else if c == LOWER_P then Pointer(va[0].n)
    else if c == LOWER_C then Char(va[0].n)
    else if c == LOWER_S then Str(va[0].s[..|va[0].s| - 1])
    else if c == PERCENT then Percent
    else Other(c)
  }

  lemma NamedOk(c: byte, va: seq<Arg>)
    requires c != 0 && c != LOWER_L && c != ZERO && !StartsWidth(c) && Suits(c, va)
    ensures var w := Named(c, va);
            && w.Ok() && w.Shown() == [c] && !w.Nothing? && !w.Zero?
            && (TakesArgument(c) ==> va != []) && (w.Decimal? || w.Hex? <==> c == LOWER_D || c == LOWER_X)
            && va == w.Args() + if TakesArgument(c) then va[1..] else va
  {
    var w := Named(c, va);
    if c == LOWER_S {
      assert va[0].s == w.t + [0];
    }
    assert TakesArgument(c) ==> w.Args() == [va[0]];
  }

  /** One directive off the front: its flags, its letter, and what is left of string and arguments. */
  lemma {:induction false} TakeDirective(s: seq<byte>, longs: nat, va: seq<Arg>)
    returns (flags: seq<Flag>, what: What, rest: seq<byte>, left: seq<Arg>)
    requires 0 !in s && ProperDirective(s, longs, va)
    ensures s == ShownFlags(flags) + what.Shown() + rest && va == what.Args() + left
    ensures FlagsOk(flags, what) && what.Ok() && (what.Nothing? ==> rest == [])
    ensures what.Decimal? || what.Hex? ==> longs + Longs(flags) <= 1
    ensures Proper(rest, left)
    ensures flags != [] && flags[0].Width? && !flags[0].minus ==> s != [] && IsDigit(s[0])
    ensures flags == [] && what.Zero? ==> s != [] && s[0] == ZERO
    decreases |s|
  {
    hide What.Ok, What.Shown, What.Args, Number, Suits, Flag.Ok, Flag.Shown;
    if s == [] {
      flags, what, rest, left := [], Nothing, [], [];
      NothingOk();
    } else if s[0] == LOWER_L {
      assert s[0] in s;
      var fs;
      fs, what, rest, left := TakeDirective(s[1..], longs + 1, va);
      flags := [Flag.Long] + fs;
      LongOk();
      FlagsCons(Flag.Long, fs, what, rest);
      assert s == [LOWER_L] + s[1..];
    } else if StartsWidth(s[0]) {
      var n := WidthRun(s);
      WidthOfOk(s);
      var fs;
      fs, what, rest, left := TakeDirective(s[n..], longs, va);
      flags := [WidthOf(s)] + fs;
      FlagsCons(WidthOf(s), fs, what, rest);
      WidthStart(s);
      assert s[n..] != [] ==> s[n..][0] == s[n] && !IsDigit(s[n]);
    } else if s[0] == ZERO {
      assert s[1] in s;
      flags, what, rest, left := [], Zero(s[1]), s[2..], va;
      ZeroOk(s[1]);
      assert s == [] + [ZERO, s[1]] + s[2..];
    } else {
      assert s[0] in s;
      NamedOk(s[0], va);
      flags, what, rest, left := [], Named(s[0], va), s[1..], if TakesArgument(s[0]) then va[1..] else va;
      assert s == [] + [s[0]] + s[1..];
    }
  }

  lemma NothingOk()
    ensures Nothing.Ok() && Nothing.Shown() == [] && Nothing.Args() == []
  {
  }

  lemma ZeroOk(c: byte)
    requires c != 0
    ensures Zero(c).Ok() && Zero(c).Shown() == [ZERO, c] && Zero(c).Args() == []
  {
  }

  lemma LongOk()
    ensures Flag.Long.Ok() && Flag.Long.Shown() == [LOWER_L]
  {
  }

  lemma WidthStart(s: seq<byte>)
    requires s != [] && StartsWidth(s[0])
    ensures WidthOf(s).Width? && (!WidthOf(s).minus ==> IsDigit(s[0]))
  {
  }

  lemma FlagsCons(f: Flag, fs: seq<Flag>, what: What, rest: seq<byte>)
    ensures ShownFlags([f] + fs) + what.Shown() + rest == f.Shown() + (ShownFlags(fs) + what.Shown() + rest)
    ensures Longs([f] + fs) == (if f.Long? then 1 else 0) + Longs(fs)
    ensures f.Ok() && FlagsOk(fs, what)
            && (f.Width? ==> if fs != [] then fs[0].Long? || fs[0].minus else !what.Zero?) ==>
              FlagsOk([f] + fs, what)
  {
    hide Flag.Ok, Flag.Shown, What.Shown;
    assert ([f] + fs)[1..] == fs;
  }

  /** Every format string whose arguments are proper consists of pieces, so what is said of pieces is
      said of all of them. */
  lemma {:induction false} EveryFormat(f: seq<byte>, va: seq<Arg>) returns (ps: seq<Piece>)
    requires 0 !in f && Proper(f, va)
    ensures AllOk(ps) && Shown(ps) == f && Args(ps) == va
    decreases |f|
  {
    hide AllOk, Shown, Args, ProperDirective, FlagsOk, ShownFlags, Longs, What.Ok, What.Shown, What.Args;
    if f == [] {
      ps := [];
      NoPieces();
    } else if f[0] != PERCENT {
      assert f[0] in f;
      var qs := EveryFormat(f[1..], va);
      ps := [Literal(f[0])] + qs;
      PiecesCons(Literal(f[0]), qs);
      assert f == [f[0]] + f[1..] && va == [] + va;
    } else {
      var flags, what, rest, left := TakeDirective(f[1..], 0, va);
      RestHasNoNul(f, flags, what, rest);
      var qs := EveryFormat(rest, left);
      ps := [Directive(flags, what)] + qs;
      PiecesCons(Directive(flags, what), qs);
      assert f == [PERCENT] + f[1..];
      assert f == [PERCENT] + ShownFlags(flags) + what.Shown() + rest;
      ShownNothing(qs);
    }
  }

  lemma NoPieces()
    ensures AllOk([]) && Shown([]) == [] && Args([]) == []
  {
  }

  lemma PiecesCons(p: Piece, ps: seq<Piece>)
    ensures Shown([p] + ps) == p.Shown() + Shown(ps) && Args([p] + ps) == p.Args() + Args(ps)
    ensures p.Ok() && AllOk(ps) && (p.Directive? && p.what.Nothing? ==> ps == []) ==> AllOk([p] + ps)
  {
    hide Piece.Ok, Piece.Shown, Piece.Args;
    assert ([p] + ps)[1..] == ps;
  }

  lemma RestHasNoNul(f: seq<byte>, flags: seq<Flag>, what: What, rest: seq<byte>)
    requires f != [] && 0 !in f && f[1..] == ShownFlags(flags) + what.Shown() + rest
    ensures 0 !in rest && |rest| < |f|
  {
    hide What.Shown, ShownFlags;
    var n := |ShownFlags(flags) + what.Shown()|;
    forall k | 0 <= k < |rest| ensures rest[k] != 0 {
      assert f[1 + n + k] == f[1..][n + k] == rest[k];
      assert f[1 + n + k] in f;
    }
  }

  /** Only no pieces show nothing. */
  lemma ShownNothing(ps: seq<Piece>)
    ensures ps != [] ==> Shown(ps) != []
  {
    if ps != [] {
      assert |ps[0].Shown()| > 0;
    }
  }

  /** snprintf: no caller needs to know the pieces, only that the arguments are proper. */
  method Snprintf(buf: array<byte>, size: nat, fmt: seq<byte>, va: seq<Arg>)
    returns (added: int, ghost ps: seq<Piece>)
    requires 1 <= size <= buf.Length && fmt != []
    requires var n := |fmt| - 1; fmt[n] == 0 && 0 !in fmt[..n] && Proper(fmt[..n], va)
    modifies buf
    ensures AllOk(ps) && fmt == Shown(ps) + [0] && va == Args(ps)
    ensures var t := Text(ps); var k := Min(size - 1, |t|);
            added == |t| + 1 && buf[..] == t[..k] + [0] + old(buf[..])[k + 1..]
  {
    hide AllOk, Shown, Args, Text, Proper;
    ps := EveryFormat(fmt[..|fmt| - 1], va);
    added := Vsnprintf(buf, size, fmt, va, ps);
  }
}
