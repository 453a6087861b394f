/**
 What a format string means to the kernel printf (_IO_Vprintf in cpukit/dev/iovprintf.c), on a machine
 with 32-bit int and 64-bit long, pointers, size_t and ptrdiff_t. The argument list is a sequence of
 typed arguments; a plain char is identified with its value as an unsigned one.

 A call is undefined when the format ends inside a directive, when an argument is missing or has the
 wrong type, and when a width or precision overflows int.
 */
module Printf {
  import opened Bytes
  import opened Decimals
  import opened PrintfNumber

  const INT_MIN := -0x8000_0000

  type u32 = x: int | 0 <= x < 0x1_0000_0000
  type u64 = x: int | 0 <= x <= UINT64_MAX

  /** A C string, without its terminator. */
  type Str = s: seq<byte> | 0 !in s

  datatype Arg =
    | Word(w: u32)              // int, unsigned int
    | Long(x: u64)              // long, intmax_t and the unsigned types of their size
    | Pointer(p: u64)
    | Text(s: Str)
    | NullText
    | Memory(bytes: seq<byte>)

  /** The flag characters seen in a directive. On this machine t and z are the same flag as l. */
  datatype Switches = Switches(
    zeroPad: bool, left: bool, sharp: bool, plus: bool, dot: bool, l: bool, h: bool, c: bool, j: bool)

  /** Everything in a directive before its conversion character. */
  datatype Flags = Flags(width: int, dwidth: int, sw: Switches)

  const NO_FLAGS := Flags(0, 0, Switches(false, false, false, false, false, false, false, false, false))

  const SHARP := 35
  const PERCENT := 37
  const STAR := 42
  const DOT := 46

  // "(null)" and "(fmt null)\n"
  const NULL_TEXT: Str := [40, 110, 117, 108, 108, 41]
  const NULL_FORMAT: Str := [40, 102, 109, 116, 32, 110, 117, 108, 108, 41, 10]

  /** A word of `modulus` values read as two's complement. */
  function SignedOf(x: int, modulus: int): int {
    if 2 * x >= modulus then x - modulus else x
  }

  // ------------------------------------------------------------- flags, width, precision, length

  /** What a flag or length character changes. */
  datatype FlagStep = Next(sw: Switches) | NotAFlag

  function FlagChar(ch: byte, sw: Switches): FlagStep {
    if ch == DOT then Next(sw.(dot := true))
    else if ch == SHARP then Next(sw.(sharp := true))
    else if ch == PLUS then Next(sw.(plus := true))
    else if ch == MINUS then Next(sw.(left := true))
    else if ch == ZERO && !sw.dot then Next(sw.(zeroPad := true))
    else if ch == 104 /* h */ then Next(if sw.h then sw.(h := false, c := true) else sw.(h := true))
    else if ch == 106 /* j */ then Next(sw.(j := true))
    else if ch == 108 /* l */ then Next(if sw.l then sw.(j := true) else sw.(l := true))
    else if ch == 116 /* t */ || ch == 122 /* z */ then Next(sw.(l := true))
    else NotAFlag
  }

  /** A width or precision; a negative width from an argument turns the adjustment round. */
  function SetNumber(f: Flags, n: int): Flags {
    if f.sw.dot then f.(dwidth := n)
    else if n < 0 then f.(sw := f.sw.(left := !f.sw.left), width := -n)
    else f.(width := n)
  }

  /** What precedes the conversion character, which is the first of `fmt` then. */
  datatype Scanned = Scanned(f: Flags, fmt: seq<byte>, args: seq<Arg>) | Malformed

  function StarValue(a: Arg): int
    requires a.Word?
  {
    SignedOf(a.w, 0x1_0000_0000)
  }

  predicate StarDefined(f: Flags, args: seq<Arg>) {
    args != [] && args[0].Word? && (f.sw.dot || StarValue(args[0]) != INT_MIN)
  }

  /** The number at the head of the format fits, with the intermediate result of `n * 10 + ch - '0'`. */
  predicate NumberDefined(fmt: seq<byte>) {
    Value(fmt[..Digits(fmt)]) + 48 <= INT_MAX
  }

  /** One turn of the switch: how many characters and which arguments it takes; none at a conversion. */
  datatype Turn = Turn(k: nat, args: seq<Arg>, f: Flags) | AtConversion | NoTurn

  function TurnAt(fmt: seq<byte>, args: seq<Arg>, f: Flags): (t: Turn)
    requires fmt != []
    ensures t.Turn? ==> 1 <= t.k <= |fmt|
  {
    var step := FlagChar(fmt[0], f.sw);
    if step.Next? then Turn(1, args, f.(sw := step.sw))
    else if fmt[0] == STAR then
      if StarDefined(f, args) then Turn(1, args[1..], SetNumber(f, StarValue(args[0]))) else NoTurn
    else if IsDigit(fmt[0]) then
      if NumberDefined(fmt) then Turn(Digits(fmt), args, SetNumber(f, Value(fmt[..Digits(fmt)]))) else NoTurn
    else AtConversion
  }

  function Scan(fmt: seq<byte>, args: seq<Arg>, f: Flags): (r: Scanned)
    ensures r.Scanned? ==> fmt != [] && r.fmt != [] && |r.fmt| <= |fmt|
    decreases |fmt|
  {
    if fmt == [] then Malformed
    else
      match TurnAt(fmt, args, f)
      case Turn(k, args', f') => Scan(fmt[k..], args', f')
      case AtConversion => Scanned(f, fmt, args)
      case NoTurn => Malformed
  }

  // ------------------------------------------------------------- conversions

  /** What a conversion prints and which arguments it leaves. */
  datatype Converted = Output(text: seq<int>, args: seq<Arg>) | Unknown | Mismatch

  function PadChar(f: Flags): int {
    if f.sw.zeroPad then ZERO else SPACE
  }

  function Precise(f: Flags, s: Str): seq<byte> {
    if !f.sw.dot then s else if f.dwidth <= 0 then [] else if f.dwidth < |s| then s[..f.dwidth] else s
  }

  /** Bytes in hexadecimal with a text between them. */
  function Dump(bytes: seq<byte>, between: seq<int>): seq<int> {
    if bytes == [] then []
    else
      [Hex(bytes[0] / 16, false), Hex(bytes[0] % 16, false)]
      + (if |bytes| > 1 then between else []) + Dump(bytes[1..], between)
  }

  function DumpLength(f: Flags): int {
    if f.width == 0 then 16 else f.width
  }

  function LayoutOf(f: Flags): Layout {
    Layout(f.width, f.dwidth, f.sw.left, f.sw.zeroPad, f.sw.sharp)
  }

  predicate NumberFits(l: Layout, tmp: nat, n: nat) {
    var wanted := DigitsWanted(l, tmp);
    tmp + Max(wanted, n) <= INT_MAX && wanted - n > INT_MIN
  }

  /** A signed or unsigned value as its directive prints it. */
  function Number(f: Flags, sign: seq<int>, num: nat, base: nat, upper: bool, args: seq<Arg>): Converted
    requires 2 <= base <= 16
  {
    var l := LayoutOf(f);
    if NumberFits(l, |sign| + |Prefix(l.sharp, num, base)|, |Numeral(num, base, upper)|)
    then Output(Rendered(l, sign, num, base, upper), args)
    else Mismatch
  }

  predicate IntegerGiven(f: Flags, args: seq<Arg>) {
    args != [] && if f.sw.j || f.sw.l then args[0].Long? else args[0].Word?
  }

  /** How many values the length flags leave: those of char, short, int or long. */
  function Modulus(f: Flags): nat {
    if f.sw.j || f.sw.l then 0x1_0000_0000_0000_0000
    else if f.sw.h then 0x1_0000
    else if f.sw.c then 0x100
    else 0x1_0000_0000
  }

  function Bits(a: Arg): u64
    requires a.Long? || a.Word?
  {
    if a.Long? then a.x else a.w
  }

  /** The argument at the size the length flags give. */
  function Unsigned(f: Flags, a: Arg): (v: nat)
    requires a.Long? || a.Word?
    ensures v <= UINT64_MAX
  {
    Bits(a) % Modulus(f)
  }

  /** The same bits as two's complement. */
  function Signed(f: Flags, a: Arg): (v: int)
    requires a.Long? || a.Word?
    ensures -0x8000_0000_0000_0000 <= v <= 0x7FFF_FFFF_FFFF_FFFF
  {
    SignedOf(Unsigned(f, a), Modulus(f))
  }

  function SignOf(f: Flags, v: int): seq<int> {
    if v < 0 then [MINUS] else if f.sw.plus then [PLUS] else []
  }

  function Abs(v: int): nat {
    if v < 0 then -v else v
  }

  function SignedNumber(f: Flags, base: nat, args: seq<Arg>): Converted
    requires 2 <= base <= 16
  {
    if !IntegerGiven(f, args) then Mismatch
    else
      var v := Signed(f, args[0]);
      Number(f, SignOf(f, v), Abs(v), base, false, args[1..])
  }

  function UnsignedNumber(f: Flags, base: nat, upper: bool, args: seq<Arg>): Converted
    requires 2 <= base <= 16
  {
    if !IntegerGiven(f, args) then Mismatch
    else Number(f, SignOf(f, 0), Unsigned(f, args[0]), base, upper, args[1..])
  }

  function CharConversion(f: Flags, args: seq<Arg>): Converted {
    if args == [] || !args[0].Word? then Mismatch
    else Output(Field([SignedOf(args[0].w, 0x1_0000_0000)], f.width, f.sw.left, PadChar(f)), args[1..])
  }

  predicate TextGiven(args: seq<Arg>) {
    args != [] && (args[0].NullText? || (args[0].Text? && |args[0].s| <= INT_MAX))
  }

  function TextOf(a: Arg): Str
    requires a.NullText? || a.Text?
  {
    if a.NullText? then NULL_TEXT else a.s
  }

  function TextConversion(f: Flags, args: seq<Arg>): Converted {
    if !TextGiven(args) then Mismatch
    else Output(Field(Precise(f, TextOf(args[0])), f.width, f.sw.left, PadChar(f)), args[1..])
  }

  predicate MemoryGiven(f: Flags, args: seq<Arg>) {
    |args| >= 2 && args[0].Memory? && args[1].Text? && 0 <= DumpLength(f) <= |args[0].bytes|
  }

  function MemoryConversion(f: Flags, args: seq<Arg>): Converted {
    if !MemoryGiven(f, args) then Mismatch
    else Output(Dump(args[0].bytes[..DumpLength(f)], args[1].s), args[2..])
  }

  /** The flags of %p: an 0x prefix exactly when no width is given, and no sign. */
  function PointerFlags(f: Flags): Flags {
    f.(sw := f.sw.(sharp := f.width == 0, plus := false))
  }

  function PointerConversion(f: Flags, args: seq<Arg>): Converted {
    if args == [] || !args[0].Pointer? then Mismatch
    else Number(PointerFlags(f), [], args[0].p, 16, false, args[1..])
  }

  function Convert(ch: byte, f: Flags, args: seq<Arg>): Converted {
    if ch == PERCENT then Output([PERCENT], args)
    else if ch == 99 /* c */ then CharConversion(f, args)
    else if ch == 68 /* D */ then MemoryConversion(f, args)
    else if ch == 100 /* d */ || ch == 105 /* i */ then SignedNumber(f, 10, args)
    else if ch == 111 /* o */ then UnsignedNumber(f, 8, false, args)
    else if ch == 112 /* p */ then PointerConversion(f, args)
    else if ch == 115 /* s */ then TextConversion(f, args)
    else if ch == 117 /* u */ then UnsignedNumber(f, 10, false, args)
    else if ch == 88 /* X */ then UnsignedNumber(f, 16, true, args)
    else if ch == 120 /* x */ then UnsignedNumber(f, 16, false, args)
    else if ch == 121 /* y */ then SignedNumber(f, 16, args)
    else Unknown
  }

  // ------------------------------------------------------------- the whole format

  /** The characters put, the arguments left, and whether formatting has stopped at an unknown directive. */
  datatype Meaning = Printed(text: seq<int>, args: seq<Arg>, stopped: bool) | Undefined

  function Prepend(text: seq<int>, m: Meaning): Meaning {
    if m.Printed? then m.(text := text + m.text) else Undefined
  }

  /** Literals and rendered directives in order, and a verbatim copy from the first unknown directive on. */
  function Format(fmt: seq<byte>, args: seq<Arg>): Meaning
    decreases |fmt|
  {
    if fmt == [] then Printed([], args, false)
    else if fmt[0] != PERCENT then Prepend([fmt[0]], Format(fmt[1..], args))
    else
      var s := Scan(fmt[1..], args, NO_FLAGS);
      if s.Malformed? then Undefined
      else
        var c := Convert(s.fmt[0], s.f, s.args);
        if c.Mismatch? then Undefined
        else if c.Unknown? then Printed(fmt, s.args, true)
        else Prepend(c.text, Format(s.fmt[1..], c.args))
  }

  // ------------------------------------------------------------- formats one behind the other

  function Extended(s: Scanned, b: seq<byte>): Scanned {
    if s.Scanned? then Scanned(s.f, s.fmt + b, s.args) else Malformed
  }

  /** A turn that does not reach the end of the format is not changed by what follows. */
  lemma TurnExtends(a: seq<byte>, b: seq<byte>, args: seq<Arg>, f: Flags)
    requires a != [] && (TurnAt(a, args, f).Turn? ==> TurnAt(a, args, f).k < |a|) && !TurnAt(a, args, f).NoTurn?
    ensures TurnAt(a + b, args, f) == TurnAt(a, args, f)
  {
    hide FlagChar, StarDefined, StarValue, SetNumber, NumberDefined, Value, Digits;
    assert (a + b)[0] == a[0];
    if FlagChar(a[0], f.sw).NotAFlag? && a[0] != STAR && IsDigit(a[0]) {
      DigitsExtend(a, b);
    }
  }

  lemma {:induction false} ScanExtends(a: seq<byte>, b: seq<byte>, args: seq<Arg>, f: Flags)
    requires Scan(a, args, f).Scanned?
    ensures Scan(a + b, args, f) == Extended(Scan(a, args, f), b)
    decreases |a|
  {
    hide TurnAt;
    TurnExtends(a, b, args, f);
    var t := TurnAt(a, args, f);
    if t.Turn? {
      assert (a + b)[t.k..] == a[t.k..] + b;
      ScanExtends(a[t.k..], b, t.args, t.f);
    }
  }

  /** A number that does not reach the end of the format is not changed by what follows. */
  lemma DigitsExtend(a: seq<byte>, b: seq<byte>)
    requires Digits(a) < |a|
    ensures Digits(a + b) == Digits(a) && (a + b)[..Digits(a)] == a[..Digits(a)]
    ensures NumberDefined(a + b) == NumberDefined(a)
  {
    var k := Digits(a);
    assert a + b == a[..k] + (a[k..] + b);
    DigitsThenStop(a[..k], a[k..] + b);
  }

  /**
   What two formats one behind the other print: the second is applied to the arguments that the first
   has left, or, when the first has an unknown directive, is copied verbatim.
   */
  lemma {:induction false} Composition(a: seq<byte>, b: seq<byte>, args: seq<Arg>)
    requires Format(a, args).Printed?
    ensures var m := Format(a, args);
            Format(a + b, args) == if m.stopped then m.(text := m.text + b) else Prepend(m.text, Format(b, m.args))
    decreases |a|
  {
    if a == [] {
      assert a + b == b;
      PrependNothing(Format(b, args));
    } else if a[0] != PERCENT {
      assert (a + b)[1..] == a[1..] + b;
      Composition(a[1..], b, args);
      PrependTwice([a[0]], Format(a[1..], args), b);
    } else {
      hide Scan, Convert;
      var s := Scan(a[1..], args, NO_FLAGS);
      assert (a + b)[1..] == a[1..] + b;
      ScanExtends(a[1..], b, args, NO_FLAGS);
      var c := Convert(s.fmt[0], s.f, s.args);
      if c.Output? {
        assert (s.fmt + b)[1..] == s.fmt[1..] + b;
        Composition(s.fmt[1..], b, c.args);
        PrependTwice(c.text, Format(s.fmt[1..], c.args), b);
      }
    }
  }

  lemma PrependNothing(m: Meaning)
    ensures Prepend([], m) == m
  {
    if m.Printed? {
      assert [] + m.text == m.text;
    }
  }

  lemma PrependTwice(t: seq<int>, m: Meaning, b: seq<byte>)
    requires m.Printed?
    ensures Prepend(t, m.(text := m.text + b)) == Printed(t + m.text + b, m.args, m.stopped)
    ensures Prepend(t, Prepend(m.text, Format(b, m.args))) == Prepend(t + m.text, Format(b, m.args))
  {
    hide Format;
    assert t + (m.text + b) == t + m.text + b;
    var n := Format(b, m.args);
    if n.Printed? {
      assert t + (m.text + n.text) == t + m.text + n.text;
    }
  }

  /** A format without a percent sign prints itself and takes no argument. */
  lemma {:induction false} LiteralFormat(fmt: seq<byte>, args: seq<Arg>)
    requires PERCENT !in fmt
    ensures Format(fmt, args) == Printed(fmt, args, false)
    decreases |fmt|
  {
    if fmt != [] {
      LiteralFormat(fmt[1..], args);
      assert [fmt[0]] + fmt[1..] == fmt;
    }
  }

  // ------------------------------------------------------------- what numeric directives print

  /** A signed directive prints a text that reads back to its argument, the most negative value included. */
  lemma SignedReadsBack(f: Flags, base: nat, args: seq<Arg>)
    requires 2 <= base <= 16 && SignedNumber(f, base, args).Output?
    ensures ReadNumber(SignedNumber(f, base, args).text, base) == Signed(f, args[0])
    ensures SignedNumber(f, base, args).args == args[1..]
  {
    hide NumberFits, Rendered, ReadNumber, Signed;
    var v := Signed(f, args[0]);
    RenderedReadsBack(LayoutOf(f), SignOf(f, v), if v < 0 then -1 else 1, Abs(v), base, false);
  }

  /** So does an unsigned one. */
  lemma UnsignedReadsBack(f: Flags, base: nat, upper: bool, args: seq<Arg>)
    requires 2 <= base <= 16 && UnsignedNumber(f, base, upper, args).Output?
    ensures ReadNumber(UnsignedNumber(f, base, upper, args).text, base) == Unsigned(f, args[0])
    ensures UnsignedNumber(f, base, upper, args).args == args[1..]
  {
    hide NumberFits, Rendered, ReadNumber, Unsigned;
    RenderedReadsBack(LayoutOf(f), SignOf(f, 0), 1, Unsigned(f, args[0]), base, upper);
  }

  /** A directive that prints text fills its field exactly: the longer of the width and the text. */
  lemma TextLength(f: Flags, args: seq<Arg>)
    requires TextConversion(f, args).Output?
    ensures var s := TextOf(args[0]);
            var n := if f.sw.dot then (if f.dwidth < 0 then 0 else if f.dwidth < |s| then f.dwidth else |s|) else |s|;
            |TextConversion(f, args).text| == Max(f.width, n)
  {
  }

  // ------------------------------------------------------------- a directive for every choice of flags

  function If(b: bool, text: seq<byte>): seq<byte> {
    if b then text else []
  }

  /** Flags that a format string can spell out without taking an argument. */
  predicate Spellable(f: Flags) {
    && 0 <= f.width && f.width + 48 <= INT_MAX && 0 <= f.dwidth && f.dwidth + 48 <= INT_MAX
    && (!f.sw.dot ==> f.dwidth == 0)
  }

  function SpellSwitches(sw: Switches): seq<byte> {
    If(sw.left, [45]) + (If(sw.sharp, [35]) + (If(sw.plus, [43]) + If(sw.zeroPad, [48])))
  }

  function SpellWidths(f: Flags): seq<byte>
    requires Spellable(f)
  {
    If(f.width > 0, Decimal(f.width)) + If(f.sw.dot, [46] + Decimal(f.dwidth))
  }

  /** h for short, hh for char, and the source's reading of a third h as both. */
  function SpellHalves(sw: Switches): seq<byte> {
    If(sw.h || sw.c, [104]) + (If(sw.c, [104]) + If(sw.c && sw.h, [104]))
  }

  function SpellLength(sw: Switches): seq<byte> {
    SpellHalves(sw) + (If(sw.j, [106]) + If(sw.l, [108]))
  }

  /** "-#+0", width, precision, length: what a programmer would write. */
  function Spelling(f: Flags): seq<byte>
    requires Spellable(f)
  {
    SpellSwitches(f.sw) + (SpellWidths(f) + SpellLength(f.sw))
  }

  lemma Assoc(a: seq<byte>, b: seq<byte>, c: seq<byte>)
    ensures (a + b) + c == a + (b + c)
  {
  }

  lemma OneSwitch(on: bool, ch: byte, tail: seq<byte>, args: seq<Arg>, f: Flags, sw: Switches)
    requires if on then FlagChar(ch, f.sw) == Next(sw) else sw == f.sw
    ensures Scan(If(on, [ch]) + tail, args, f) == Scan(tail, args, f.(sw := sw))
  {
    hide FlagChar;
    if on {
      assert ([ch] + tail)[1..] == tail;
    } else {
      assert [] + tail == tail;
    }
  }

  lemma SwitchesScan(sw: Switches, tail: seq<byte>, args: seq<Arg>)
    ensures Scan(SpellSwitches(sw) + tail, args, NO_FLAGS)
         == Scan(tail, args, NO_FLAGS.(sw := NO_FLAGS.sw.(left := sw.left, sharp := sw.sharp, plus := sw.plus, zeroPad := sw.zeroPad)))
  {
    hide Scan, If;
    var s0 := NO_FLAGS.sw;
    var s1 := s0.(left := sw.left);
    var s2 := s1.(sharp := sw.sharp);
    var s3 := s2.(plus := sw.plus);
    var s4 := s3.(zeroPad := sw.zeroPad);
    var p3 := If(sw.zeroPad, [48]);
    var p2 := If(sw.plus, [43]) + p3;
    var p1 := If(sw.sharp, [35]) + p2;
    Assoc(If(sw.left, [45]), p1, tail);
    Assoc(If(sw.sharp, [35]), p2, tail);
    Assoc(If(sw.plus, [43]), p3, tail);
    OneSwitch(sw.left, 45, p1 + tail, args, NO_FLAGS, s1);
    OneSwitch(sw.sharp, 35, p2 + tail, args, NO_FLAGS.(sw := s1), s2);
    OneSwitch(sw.plus, 43, p3 + tail, args, NO_FLAGS.(sw := s2), s3);
    OneSwitch(sw.zeroPad, 48, tail, args, NO_FLAGS.(sw := s3), s4);
  }

  lemma {:induction false} NoLeadingZero(n: nat)
    requires n > 0
    ensures Decimal(n)[0] != ZERO
  {
    if n >= 10 {
      NoLeadingZero(n / 10);
    }
  }

  lemma DigitIsNoFlag(ch: byte, sw: Switches)
    requires IsDigit(ch) && (ch != ZERO || sw.dot)
    ensures FlagChar(ch, sw) == NotAFlag && ch != STAR
  {
  }

  lemma NumberScans(n: nat, tail: seq<byte>, args: seq<Arg>, f: Flags)
    requires n + 48 <= INT_MAX && tail != [] && !IsDigit(tail[0]) && (n > 0 || f.sw.dot)
    ensures Scan(Decimal(n) + tail, args, f) == Scan(tail, args, SetNumber(f, n))
  {
    var d := Decimal(n);
    if n > 0 {
      NoLeadingZero(n);
    }
    DigitIsNoFlag(d[0], f.sw);
    DigitsThenStop(d, tail);
    DecimalValue(n);
    hide FlagChar, SetNumber, Value, Digits, Decimal;
    assert (d + tail)[0] == d[0] && (d + tail)[..|d|] == d && (d + tail)[|d|..] == tail;
  }

  lemma PointFlag(sw: Switches)
    ensures FlagChar(46, sw) == Next(sw.(dot := true))
  {
  }

  lemma WidthsScan(f: Flags, tail: seq<byte>, args: seq<Arg>, g: Flags)
    requires Spellable(f) && tail != [] && !IsDigit(tail[0])
    requires g.width == 0 && g.dwidth == 0 && !g.sw.dot
    ensures Scan(SpellWidths(f) + tail, args, g) == Scan(tail, args, Flags(f.width, f.dwidth, g.sw.(dot := f.sw.dot)))
  {
    assert 0 <= f.width && f.width + 48 <= INT_MAX && f.dwidth >= 0;
    hide *;
    var width, precision := If(f.width > 0, Decimal(f.width)), If(f.sw.dot, [46] + Decimal(f.dwidth));
    assert SpellWidths(f) + tail == (width + precision) + tail by {
      SpelledWidths(f);
    }
    Assoc(width, precision, tail);
    PrecisionIsNoDigit(f, tail);
    WidthScans(f.width, precision + tail, args, g);
    PrecisionScans(f, tail, args, g.(width := f.width));
  }

  lemma SpelledWidths(f: Flags)
    requires Spellable(f)
    ensures SpellWidths(f) == If(f.width > 0, Decimal(f.width)) + If(f.sw.dot, [46] + Decimal(f.dwidth))
  {
  }

  lemma PrecisionIsNoDigit(f: Flags, tail: seq<byte>)
    requires f.dwidth >= 0 && tail != [] && !IsDigit(tail[0])
    ensures var s := If(f.sw.dot, [46] + Decimal(f.dwidth)) + tail;
            s != [] && !IsDigit(s[0])
  {
    hide Decimal;
  }

  lemma WidthScans(width: nat, tail: seq<byte>, args: seq<Arg>, g: Flags)
    requires width + 48 <= INT_MAX && tail != [] && !IsDigit(tail[0]) && g.width == 0 && !g.sw.dot
    ensures Scan(If(width > 0, Decimal(width)) + tail, args, g) == Scan(tail, args, g.(width := width))
  {
    hide Scan, Decimal;
    if width > 0 {
      NumberScans(width, tail, args, g);
    } else {
      assert [] + tail == tail;
    }
  }

  lemma PrecisionScans(f: Flags, tail: seq<byte>, args: seq<Arg>, g: Flags)
    requires Spellable(f) && tail != [] && !IsDigit(tail[0]) && g.dwidth == 0 && !g.sw.dot
    ensures Scan(If(f.sw.dot, [46] + Decimal(f.dwidth)) + tail, args, g)
         == Scan(tail, args, Flags(g.width, f.dwidth, g.sw.(dot := f.sw.dot)))
  {
    hide Scan, Decimal, FlagChar;
    if f.sw.dot {
      var number := Decimal(f.dwidth);
      Assoc([46], number, tail);
      PointFlag(g.sw);
      OneSwitch(true, 46, number + tail, args, g, g.sw.(dot := true));
      NumberScans(f.dwidth, tail, args, g.(sw := g.sw.(dot := true)));
    } else {
      assert [] + tail == tail;
    }
  }

  lemma Half(sw: Switches)
    ensures FlagChar(104, sw) == Next(if sw.h then sw.(h := false, c := true) else sw.(h := true))
  {
  }

  lemma HalvesScan(sw: Switches, tail: seq<byte>, args: seq<Arg>, g: Flags)
    requires !g.sw.h && !g.sw.c
    ensures Scan(SpellHalves(sw) + tail, args, g) == Scan(tail, args, g.(sw := g.sw.(h := sw.h, c := sw.c)))
  {
    hide Scan, If, FlagChar;
    var s1 := if sw.h || sw.c then g.sw.(h := true) else g.sw;
    var s2 := if sw.c then s1.(h := false, c := true) else s1;
    var s3 := if sw.c && sw.h then s2.(h := true) else s2;
    var p2 := If(sw.c && sw.h, [104]);
    var p1 := If(sw.c, [104]) + p2;
    Assoc(If(sw.h || sw.c, [104]), p1, tail);
    Assoc(If(sw.c, [104]), p2, tail);
    Half(g.sw);
    OneSwitch(sw.h || sw.c, 104, p1 + tail, args, g, s1);
    Half(s1);
    OneSwitch(sw.c, 104, p2 + tail, args, g.(sw := s1), s2);
    Half(s2);
    OneSwitch(sw.c && sw.h, 104, tail, args, g.(sw := s2), s3);
  }

  lemma JScans(on: bool, tail: seq<byte>, args: seq<Arg>, g: Flags)
    requires !g.sw.j
    ensures Scan(If(on, [106]) + tail, args, g) == Scan(tail, args, g.(sw := g.sw.(j := on)))
  {
    hide Scan, If;
    OneSwitch(on, 106, tail, args, g, g.sw.(j := on));
  }

  lemma LScans(on: bool, tail: seq<byte>, args: seq<Arg>, g: Flags)
    requires !g.sw.l
    ensures Scan(If(on, [108]) + tail, args, g) == Scan(tail, args, g.(sw := g.sw.(l := on)))
  {
    hide Scan, If;
    OneSwitch(on, 108, tail, args, g, g.sw.(l := on));
  }

  lemma LengthScans(sw: Switches, tail: seq<byte>, args: seq<Arg>, g: Flags)
    requires !g.sw.h && !g.sw.c && !g.sw.j && !g.sw.l
    ensures Scan(SpellLength(sw) + tail, args, g)
         == Scan(tail, args, g.(sw := g.sw.(h := sw.h, c := sw.c, j := sw.j, l := sw.l)))
  {
    hide Scan, If, SpellHalves, FlagChar;
    var g1 := g.(sw := g.sw.(h := sw.h, c := sw.c));
    var g2 := g1.(sw := g1.sw.(j := sw.j));
    var p4 := If(sw.l, [108]);
    var p3 := If(sw.j, [106]) + p4;
    Assoc(SpellHalves(sw), p3, tail);
    Assoc(If(sw.j, [106]), p4, tail);
    HalvesScan(sw, p3 + tail, args, g);
    JScans(sw.j, p4 + tail, args, g1);
    LScans(sw.l, tail, args, g2);
  }

  lemma LengthIsNoDigit(sw: Switches, tail: seq<byte>)
    requires tail != [] && !IsDigit(tail[0])
    ensures SpellLength(sw) + tail != [] && !IsDigit((SpellLength(sw) + tail)[0])
  {
  }

  /** A character that neither sets a flag nor starts a number, in whatever state. */
  predicate IsConversion(ch: byte) {
    !IsDigit(ch) && ch !in [DOT, SHARP, PLUS, MINUS, STAR, 104, 106, 108, 116, 122]
  }

  /** Every choice of flags can be spelled, and the spelling is scanned back to that choice. */
  lemma SpellingScansBack(f: Flags, conversion: byte, rest: seq<byte>, args: seq<Arg>)
    requires Spellable(f) && IsConversion(conversion)
    ensures Scan(Spelling(f) + ([conversion] + rest), args, NO_FLAGS) == Scanned(f, [conversion] + rest, args)
  {
    var tail := [conversion] + rest;
    assert Scan(tail, args, f) == Scanned(f, tail, args);
    LengthIsNoDigit(f.sw, tail);
    hide Scan, SpellSwitches, SpellWidths, SpellLength, Spellable;
    Assoc(SpellSwitches(f.sw), SpellWidths(f) + SpellLength(f.sw), tail);
    Assoc(SpellWidths(f), SpellLength(f.sw), tail);
    var lengthAndTail := SpellLength(f.sw) + tail;
    SwitchesScan(f.sw, SpellWidths(f) + lengthAndTail, args);
    var g := NO_FLAGS.(sw := NO_FLAGS.sw.(left := f.sw.left, sharp := f.sw.sharp, plus := f.sw.plus, zeroPad := f.sw.zeroPad));
    WidthsScan(f, lengthAndTail, args, g);
    LengthScans(f.sw, tail, args, Flags(f.width, f.dwidth, g.sw.(dot := f.sw.dot)));
  }

  /** A directive with the given flags. */
  function Directive(f: Flags, ch: byte): seq<byte>
    requires Spellable(f)
  {
    [PERCENT] + Spelling(f) + [ch]
  }

  lemma DirectiveShape(text: seq<byte>, ch: byte)
    ensures var fmt: seq<byte> := [PERCENT] + text + [ch];
            fmt[0] == PERCENT && fmt[1..] == text + ([ch] + [])
  {
  }

  lemma DirectiveFormat(f: Flags, ch: byte, a: Arg)
    requires Spellable(f) && IsConversion(ch) && Convert(ch, f, [a]).Output?
    ensures var c := Convert(ch, f, [a]);
            Format(Directive(f, ch), [a]) == Printed(c.text, c.args, false)
  {
    assert Directive(f, ch) == [PERCENT] + Spelling(f) + [ch];
    hide *;
    DirectiveShape(Spelling(f), ch);
    assert [ch] + [] == [ch];
    SpellingScansBack(f, ch, [], [a]);
    LoneDirective(Directive(f, ch), [a], f, ch, [a]);
  }

  /** How a conversion character reads its argument and in which base it prints it. */
  datatype Conversion = SignedIn(base: nat) | UnsignedIn(base: nat, upper: bool) | PointerIn | OtherConversion

  function ConversionOf(ch: byte): Conversion {
    if ch == 100 /* d */ || ch == 105 /* i */ then SignedIn(10)
    else if ch == 121 /* y */ then SignedIn(16)
    else if ch == 111 /* o */ then UnsignedIn(8, false)
    else if ch == 117 /* u */ then UnsignedIn(10, false)
    else if ch == 120 /* x */ then UnsignedIn(16, false)
    else if ch == 88 /* X */ then UnsignedIn(16, true)
    else if ch == 112 /* p */ then PointerIn
    else OtherConversion
  }

  lemma NumericConversion(ch: byte, f: Flags, args: seq<Arg>)
    ensures match ConversionOf(ch)
            case SignedIn(base) => IsConversion(ch) && 2 <= base <= 16 && Convert(ch, f, args) == SignedNumber(f, base, args)
            case UnsignedIn(base, upper) =>
              IsConversion(ch) && 2 <= base <= 16 && Convert(ch, f, args) == UnsignedNumber(f, base, upper, args)
            case PointerIn => IsConversion(ch) && Convert(ch, f, args) == PointerConversion(f, args)
            case OtherConversion => true
  {
    hide SignedNumber, UnsignedNumber, PointerConversion;
  }

  /** A pointer reads back too. */
  lemma PointerReadsBack(f: Flags, args: seq<Arg>)
    requires PointerConversion(f, args).Output?
    ensures ReadNumber(PointerConversion(f, args).text, 16) == args[0].p && PointerConversion(f, args).args == args[1..]
  {
    hide NumberFits, Rendered, ReadNumber;
    RenderedReadsBack(LayoutOf(PointerFlags(f)), [], 1, args[0].p, 16, false);
  }

  /**
   From format string to text and back: an integer or pointer directive with any flags, width,
   precision and length prints a text that reads back, in its base, to the value of its argument.
   */
  lemma DirectiveReadsBack(f: Flags, ch: byte, a: Arg)
    requires Spellable(f) && ConversionOf(ch) != OtherConversion && Convert(ch, f, [a]).Output?
    ensures var m := Format(Directive(f, ch), [a]);
            && m.Printed? && !m.stopped && m.args == []
            && match ConversionOf(ch)
               case SignedIn(base) => (a.Word? || a.Long?) && ReadNumber(m.text, base) == Signed(f, a)
               case UnsignedIn(base, _) => (a.Word? || a.Long?) && ReadNumber(m.text, base) == Unsigned(f, a)
               case PointerIn => a.Pointer? && ReadNumber(m.text, 16) == a.p
               case OtherConversion => true
  {
    NumericConversion(ch, f, [a]);
    hide Format, Directive, Convert, Number, Signed, Unsigned, ReadNumber, Spellable, ConversionOf;
    assert [a][1..] == [];
    DirectiveFormat(f, ch, a);
    match ConversionOf(ch)
    case SignedIn(base) => SignedReadsBack(f, base, [a]);
    case UnsignedIn(base, upper) => UnsignedReadsBack(f, base, upper, [a]);
    case PointerIn => PointerReadsBack(f, [a]);
  }

  /** A format that is one directive. */
  lemma LoneDirective(fmt: seq<byte>, args: seq<Arg>, f: Flags, ch: byte, args': seq<Arg>)
    requires fmt != [] && fmt[0] == PERCENT && Convert(ch, f, args').Output?
    requires Scan(fmt[1..], args, NO_FLAGS) == Scanned(f, [ch], args')
    ensures Format(fmt, args) == Printed(Convert(ch, f, args').text, Convert(ch, f, args').args, false)
  {
    hide Scan, Convert;
    var c := Convert(ch, f, args');
    assert [ch][1..] == [];
    assert Format([], c.args) == Printed([], c.args, false);
    assert c.text + [] == c.text;
  }
}
