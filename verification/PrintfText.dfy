/**
 What the directives of the kernel printf put (_IO_Vprintf in cpukit/dev/iovprintf.c), character by character
 and without the functions that format them.
 */
module PrintfText {
  import opened Alphabets
  import opened Bytes
  import opened Decimals
  import opened PrintfNumber
  import opened Printf

  // ------------------------------------------------------------- texts in fields

  /** `shown` fills a field: padded in front, or behind with a minus flag, with zeros exactly with a zero flag. */
  predicate InField(text: seq<int>, shown: seq<int>, width: int, left: bool, zero: bool) {
    var k := if width > |shown| then width - |shown| else 0;
    var pad := if zero then '0' as int else ' ' as int;
    && |text| == k + |shown|
    && (left ==> (forall i :: 0 <= i < |shown| ==> text[i] == shown[i]) && (forall i :: |shown| <= i < |text| ==> text[i] == pad))
    && (!left ==> (forall i :: 0 <= i < k ==> text[i] == pad) && (forall i :: k <= i < |text| ==> text[i] == shown[i - k]))
  }

  lemma FieldIs(shown: seq<int>, width: int, left: bool, f: Flags)
    ensures InField(Field(shown, width, left, PadChar(f)), shown, width, left, f.sw.zeroPad)
  {
  }

  /** How much of a text of the given length %s shows. */
  function Shown(f: Flags, length: nat): (n: nat)
    ensures n <= length
  {
    if !f.sw.dot || f.dwidth >= length then length else if f.dwidth < 0 then 0 else f.dwidth
  }

  /** %s: the first characters of the argument, as many as the precision allows, in their field. */
  lemma TextIs(f: Flags, args: seq<Arg>)
    requires TextConversion(f, args).Output?
    ensures args != [] && (args[0].Text? || args[0].NullText?) && Spells(NULL_TEXT, "(null)")
    ensures var s: seq<byte> := if args[0].Text? then args[0].s else NULL_TEXT;
            && InField(TextConversion(f, args).text, s[..Shown(f, |s|)], f.width, f.sw.left, f.sw.zeroPad)
            && TextConversion(f, args).args == args[1..]
  {
    var s: Str := TextOf(args[0]);
    assert Precise(f, s) == s[..Shown(f, |s|)];
    FieldIs(Precise(f, s), f.width, f.sw.left, f);
    hide InField, Field, Precise;
  }

  /** %c: the argument, in its field. */
  lemma CharIs(f: Flags, w: u32, args: seq<Arg>)
    ensures var c := CharConversion(f, [Word(w)] + args);
            && c.Output? && c.args == args
            && InField(c.text, [if w < 0x8000_0000 then w else w - 0x1_0000_0000], f.width, f.sw.left, f.sw.zeroPad)
  {
    FieldIs([SignedOf(w, 0x1_0000_0000)], f.width, f.sw.left, f);
    hide InField, Field;
    assert ([Word(w)] + args)[1..] == args;
  }

  /** From the format string: %s with any flags, width and precision. */
  lemma TextDirective(f: Flags, s: Str)
    requires Spellable(f) && |s| <= INT_MAX
    ensures var m := Format(Directive(f, 's' as int), [Text(s)]);
            && m.Printed? && !m.stopped && m.args == []
            && InField(m.text, s[..Shown(f, |s|)], f.width, f.sw.left, f.sw.zeroPad)
  {
    var args := [Text(s)];
    TextIs(f, args);
    assert args[1..] == [];
    ConvertsText(f, args);
    hide *;
    DirectiveFormat(f, 's' as int, Text(s));
  }

  /** From the format string: %c with any flags and width. */
  lemma CharDirective(f: Flags, w: u32)
    requires Spellable(f)
    ensures var m := Format(Directive(f, 'c' as int), [Word(w)]);
            && m.Printed? && !m.stopped && m.args == []
            && InField(m.text, [if w < 0x8000_0000 then w else w - 0x1_0000_0000], f.width, f.sw.left, f.sw.zeroPad)
  {
    CharIs(f, w, []);
    assert [Word(w)] + [] == [Word(w)];
    ConvertsText(f, [Word(w)]);
    hide *;
    DirectiveFormat(f, 'c' as int, Word(w));
  }

  lemma ConvertsText(f: Flags, args: seq<Arg>)
    ensures IsConversion('s' as int) && Convert('s' as int, f, args) == TextConversion(f, args)
    ensures IsConversion('c' as int) && Convert('c' as int, f, args) == CharConversion(f, args)
  {
    hide TextConversion, CharConversion;
  }

  /** Two percent signs print one. */
  lemma PercentIs(args: seq<Arg>)
    ensures Format(['%' as int, '%' as int], args) == Printed(['%' as int], args, false)
  {
    var fmt: seq<byte> := ['%' as int, '%' as int];
    assert fmt[1..] == ['%' as int];
    assert Scan(['%' as int], args, NO_FLAGS) == Scanned(NO_FLAGS, ['%' as int], args);
    LoneDirective(fmt, args, NO_FLAGS, '%' as int, args);
  }

  /** From an unknown directive on, the format prints itself. */
  lemma UnknownDirective(f: Flags, ch: byte, rest: seq<byte>, args: seq<Arg>)
    requires Spellable(f) && IsConversion(ch)
    requires ch !in ['%' as int, 'c' as int, 'D' as int, 'd' as int, 'i' as int, 'o' as int, 'p' as int, 's' as int, 'u' as int,
                     'X' as int, 'x' as int, 'y' as int]
    ensures var fmt := ['%' as int] + (Spelling(f) + ([ch] + rest));
            Format(fmt, args) == Printed(fmt, args, true)
  {
    assert Convert(ch, f, args) == Unknown;
    hide Convert, Scan, Spelling, IsConversion, Spellable;
    var fmt := ['%' as int] + (Spelling(f) + ([ch] + rest));
    assert fmt[1..] == Spelling(f) + ([ch] + rest);
    SpellingScansBack(f, ch, rest, args);
  }

  // ------------------------------------------------------------- numbers

  /** The digits of a number: decimal digits and letters of one case, no leading zero, evaluating to the number. */
  ghost predicate IsNumeral(d: seq<int>, num: nat, base: nat, upper: bool) {
    && d != [] && ValueIn(d, base) == num && (d[0] == '0' as int <==> num == 0) && (num == 0 ==> |d| == 1)
    && forall i :: 0 <= i < |d| ==>
         '0' as int <= d[i] <= '9' as int
         || (if upper then 'A' as int <= d[i] <= 'F' as int else 'a' as int <= d[i] <= 'f' as int)
  }

  lemma {:induction false} NumeralIs(n: nat, base: nat, upper: bool)
    requires 2 <= base <= 16
    ensures IsNumeral(Numeral(n, base, upper), n, base, upper)
    decreases n
  {
    NumeralMeans(n, base, upper);
    NumeralLetters(n, base, upper);
    hide Numeral, ValueIn;
  }

  lemma {:induction false} NumeralLetters(n: nat, base: nat, upper: bool)
    requires 2 <= base <= 16
    ensures forall i :: 0 <= i < |Numeral(n, base, upper)| ==>
              var c := Numeral(n, base, upper)[i];
              '0' as int <= c <= '9' as int || (if upper then 'A' as int <= c <= 'F' as int else 'a' as int <= c <= 'f' as int)
    decreases n
  {
    if n >= base {
      QuotientSmaller(n, base);
      NumeralLetters(n / base, base, upper);
    }
  }

  function NonNegative(k: int): nat {
    if k < 0 then 0 else k
  }

  /**
   A number in its field: blanks, sign, prefix, zeros, digits and blanks. The prefix is 0 in base 8 and 0x in base
   16, with a sharp flag and for a number that is not zero. Zeros make up the precision, or, with a zero flag in
   a field that is not left-adjusted, the width. Blanks make up the width, behind the digits with a minus flag.
   */
  ghost predicate Shaped(text: seq<int>, f: Flags, sign: seq<int>, num: nat, base: nat, upper: bool) {
    exists d: seq<int> ::
      && IsNumeral(d, num, base, upper)
      && text == ShapeOf(f, sign, if !f.sw.sharp || num == 0 then [] else if base == 8 then ['0' as int]
                                  else if base == 16 then ['0' as int, 'x' as int] else [], d)
  }

  function ShapeOf(f: Flags, sign: seq<int>, prefix: seq<int>, d: seq<int>): seq<int> {
    var wanted := if f.sw.zeroPad && !f.sw.left then f.width - |sign| - |prefix| else f.dwidth;
    var zeros := NonNegative(wanted - |d|);
    var blanks := NonNegative(f.width - |sign| - |prefix| - zeros - |d|);
    Times(' ' as int, if f.sw.left then 0 else blanks) + sign + prefix + Times('0' as int, zeros) + d
    + Times(' ' as int, if f.sw.left then blanks else 0)
  }

  lemma TimesNonNegative(c: int, k: int)
    ensures Times(c, k) == Times(c, NonNegative(k))
  {
  }

  lemma TimesNothing()
    ensures Times(' ' as int, 0) == []
  {
  }

  lemma RenderedIsShape(f: Flags, sign: seq<int>, num: nat, base: nat, upper: bool)
    requires 2 <= base <= 16
    ensures Rendered(LayoutOf(f), sign, num, base, upper)
         == ShapeOf(f, sign, Prefix(f.sw.sharp, num, base), Numeral(num, base, upper))
  {
    hide Numeral, Prefix, Times;
    TimesNothing();
    var l, prefix, d: seq<int> := LayoutOf(f), Prefix(f.sw.sharp, num, base), Numeral(num, base, upper);
    var front := sign + prefix;
    var wanted := DigitsWanted(l, |front|);
    var zeros := NonNegative(wanted - |d|);
    TimesNonNegative(ZERO, wanted - |d|);
    var body := front + Times(ZERO, wanted - |d|) + d;
    var blanks := NonNegative(f.width - |body|);
    TimesNonNegative(SPACE, f.width - |body|);
    var b, z := Times(' ' as int, blanks), Times('0' as int, zeros);
    PiecesInOrder(f.sw.left, sign, prefix, z, d, b);
  }

  lemma PiecesInOrder(left: bool, a: seq<int>, b: seq<int>, c: seq<int>, d: seq<int>, blank: seq<int>)
    ensures (if left then a + b + c + d + blank else blank + (a + b + c + d))
         == (if left then [] else blank) + a + b + c + d + (if left then blank else [])
  {
    if left {
      assert [] + a == a;
    } else {
      assert blank + (a + b + c + d) == blank + a + b + c + d;
      assert blank + a + b + c + d + [] == blank + a + b + c + d;
    }
  }

  lemma RenderedIsShaped(f: Flags, sign: seq<int>, num: nat, base: nat, upper: bool)
    requires 2 <= base <= 16
    ensures Shaped(Rendered(LayoutOf(f), sign, num, base, upper), f, sign, num, base, upper)
  {
    RenderedIsShape(f, sign, num, base, upper);
    NumeralIs(num, base, upper);
    hide Rendered, Numeral, IsNumeral, ShapeOf;
  }

  /** The sign: a minus for a negative value; a plus, with a plus flag, for any other. */
  function SignFor(f: Flags, v: int): seq<int> {
    if v < 0 then ['-' as int] else if f.sw.plus then ['+' as int] else []
  }

  /** A directive for a signed number. */
  lemma SignedIs(f: Flags, base: nat, args: seq<Arg>)
    requires 2 <= base <= 16 && SignedNumber(f, base, args).Output?
    ensures var v := Signed(f, args[0]);
            Shaped(SignedNumber(f, base, args).text, f, SignFor(f, v), if v < 0 then -v else v, base, false)
  {
    hide NumberFits, Rendered, Signed, Shaped;
    var v := Signed(f, args[0]);
    RenderedIsShaped(f, SignOf(f, v), Abs(v), base, false);
  }

  /** A directive for an unsigned number; a plus flag prints a plus sign here, too. */
  lemma UnsignedIs(f: Flags, base: nat, upper: bool, args: seq<Arg>)
    requires 2 <= base <= 16 && UnsignedNumber(f, base, upper, args).Output?
    ensures Shaped(UnsignedNumber(f, base, upper, args).text, f, SignFor(f, 0), Unsigned(f, args[0]), base, upper)
  {
    hide NumberFits, Rendered, Unsigned, Shaped;
    RenderedIsShaped(f, SignOf(f, 0), Unsigned(f, args[0]), base, upper);
  }

  /** From the format string: every integer directive, with any flags, width, precision and length. */
  lemma IntegerDirective(f: Flags, ch: byte, a: Arg)
    requires Spellable(f) && Convert(ch, f, [a]).Output?
    requires ch in ['d' as int, 'i' as int, 'y' as int, 'o' as int, 'u' as int, 'x' as int, 'X' as int]
    ensures var m := Format(Directive(f, ch), [a]);
            && m.Printed? && !m.stopped && m.args == [] && (a.Word? || a.Long?)
            && (ch in ['d' as int, 'i' as int, 'y' as int] ==>
                  var v, base := Signed(f, a), if ch == 'y' as int then 16 else 10;
                  Shaped(m.text, f, SignFor(f, v), if v < 0 then -v else v, base, false))
            && (ch in ['o' as int, 'u' as int, 'x' as int, 'X' as int] ==>
                  var base := if ch == 'o' as int then 8 else if ch == 'u' as int then 10 else 16;
                  Shaped(m.text, f, SignFor(f, 0), Unsigned(f, a), base, ch == 'X' as int))
  {
    NumericConversion(ch, f, [a]);
    hide Format, Directive, Convert, Number, Signed, Unsigned, Shaped, Spellable, SignFor;
    assert [a][1..] == [];
    DirectiveFormat(f, ch, a);
    match ConversionOf(ch)
    case SignedIn(base) =>
      SignedReadsBack(f, base, [a]);
      SignedIs(f, base, [a]);
    case UnsignedIn(base, upper) =>
      UnsignedReadsBack(f, base, upper, [a]);
      UnsignedIs(f, base, upper, [a]);
    case PointerIn =>
    case OtherConversion =>
  }

  /** %p: the pointer in base 16, with 0x exactly if no width is given, and never with a sign. */
  lemma PointerIs(f: Flags, args: seq<Arg>)
    requires PointerConversion(f, args).Output?
    ensures args != [] && args[0].Pointer?
    ensures Shaped(PointerConversion(f, args).text, f.(sw := f.sw.(sharp := f.width == 0)), [], args[0].p, 16, false)
  {
    var g := f.(sw := f.sw.(sharp := f.width == 0));
    hide NumberFits, Rendered, Shaped;
    assert LayoutOf(PointerFlags(f)) == LayoutOf(g);
    RenderedIsShaped(g, [], args[0].p, 16, false);
  }

  // ------------------------------------------------------------- lengths

  lemma OneFlag(c: byte, tail: seq<byte>, args: seq<Arg>, f: Flags, sw: Switches)
    requires FlagChar(c, f.sw) == Next(sw)
    ensures Scan([c] + tail, args, f) == Scan(tail, args, f.(sw := sw))
  {
    OneSwitch(true, c, tail, args, f, sw);
    hide Scan, FlagChar;
  }

  lemma BoundedIs(length: seq<byte>, ch: byte, rest: seq<byte>, args: seq<Arg>, f: Flags)
    requires IsConversion(ch) && Scan(length + ([ch] + rest), args, NO_FLAGS) == Scan([ch] + rest, args, f)
    ensures Bounded(length, ch, rest, args, Modulus(f))
  {
    ConversionEnds(ch, rest, args, f);
    hide Scan, IsConversion;
  }

  /** A length of one character, and one of two. */
  lemma OneOrTwo(c: byte, d: byte, ch: byte, rest: seq<byte>, args: seq<Arg>, one: Switches, two: Switches)
    requires IsConversion(ch) && FlagChar(c, NO_FLAGS.sw) == Next(one) && FlagChar(d, one) == Next(two)
    ensures Bounded([c], ch, rest, args, Modulus(NO_FLAGS.(sw := one)))
    ensures Bounded([c, d], ch, rest, args, Modulus(NO_FLAGS.(sw := two)))
  {
    hide *;
    var tail := [ch] + rest;
    OneFlag(c, tail, args, NO_FLAGS, one);
    BoundedIs([c], ch, rest, args, NO_FLAGS.(sw := one));
    OneFlag(c, [d] + tail, args, NO_FLAGS, one);
    OneFlag(d, tail, args, NO_FLAGS.(sw := one), two);
    assert [c, d] + tail == [c] + ([d] + tail);
    BoundedIs([c, d], ch, rest, args, NO_FLAGS.(sw := two));
  }

  /** How many values of the argument a length leaves, from the format string: hh 2^8, h 2^16, none 2^32, all others 2^64. */
  lemma LengthsAre(ch: byte, rest: seq<byte>, args: seq<Arg>)
    requires IsConversion(ch)
    ensures Bounded([], ch, rest, args, 0x1_0000_0000)
    ensures Bounded(['h' as int], ch, rest, args, 0x1_0000) && Bounded(['h' as int, 'h' as int], ch, rest, args, 0x100)
    ensures Bounded(['l' as int], ch, rest, args, 0x1_0000_0000_0000_0000)
    ensures Bounded(['l' as int, 'l' as int], ch, rest, args, 0x1_0000_0000_0000_0000)
    ensures Bounded(['j' as int], ch, rest, args, 0x1_0000_0000_0000_0000)
    ensures Bounded(['t' as int], ch, rest, args, 0x1_0000_0000_0000_0000)
    ensures Bounded(['z' as int], ch, rest, args, 0x1_0000_0000_0000_0000)
  {
    var s := NO_FLAGS.sw;
    hide FlagChar, Scan, IsConversion, Bounded;
    LengthSwitches();
    assert [] + ([ch] + rest) == [ch] + rest;
    BoundedIs([], ch, rest, args, NO_FLAGS);
    OneOrTwo('h' as int, 'h' as int, ch, rest, args, s.(h := true), s.(c := true));
    OneOrTwo('l' as int, 'l' as int, ch, rest, args, s.(l := true), s.(l := true, j := true));
    OneOrTwo('j' as int, 'j' as int, ch, rest, args, s.(j := true), s.(j := true));
    OneOrTwo('t' as int, 't' as int, ch, rest, args, s.(l := true), s.(l := true));
    OneOrTwo('z' as int, 'z' as int, ch, rest, args, s.(l := true), s.(l := true));
  }

  lemma LengthSwitches()
    ensures var s := NO_FLAGS.sw;
            && FlagChar('h' as int, s) == Next(s.(h := true)) && FlagChar('h' as int, s.(h := true)) == Next(s.(c := true))
            && FlagChar('l' as int, s) == Next(s.(l := true)) && FlagChar('l' as int, s.(l := true)) == Next(s.(l := true, j := true))
            && FlagChar('j' as int, s) == Next(s.(j := true)) && FlagChar('j' as int, s.(j := true)) == Next(s.(j := true))
            && FlagChar('t' as int, s) == Next(s.(l := true)) && FlagChar('t' as int, s.(l := true)) == Next(s.(l := true))
            && FlagChar('z' as int, s) == Next(s.(l := true)) && FlagChar('z' as int, s.(l := true)) == Next(s.(l := true))
  {
  }

  /** A directive with nothing but this length takes its integers modulo `modulus`. */
  ghost predicate Bounded(length: seq<byte>, ch: byte, rest: seq<byte>, args: seq<Arg>, modulus: nat) {
    var s := Scan(length + ([ch] + rest), args, NO_FLAGS);
    s.Scanned? && s.fmt == [ch] + rest && s.args == args && Modulus(s.f) == modulus
  }

  /** A star takes a width, a negative one adjusting to the left, and behind a point a precision. */
  lemma StarIs(w: u32, ch: byte, rest: seq<byte>, args: seq<Arg>)
    requires IsConversion(ch) && w != 0x8000_0000
    ensures var v := if w < 0x8000_0000 then w else w - 0x1_0000_0000;
            var tail := [ch] + rest;
            && Scan(['*' as int] + tail, [Word(w)] + args, NO_FLAGS)
               == Scanned(Flags(if v < 0 then -v else v, 0, NO_FLAGS.sw.(left := v < 0)), tail, args)
            && Scan(['.' as int, '*' as int] + tail, [Word(w)] + args, NO_FLAGS)
               == Scanned(Flags(0, v, NO_FLAGS.sw.(dot := true)), tail, args)
  {
    var v := if w < 0x8000_0000 then w else w - 0x1_0000_0000;
    var tail := [ch] + rest;
    var dotted := NO_FLAGS.(sw := NO_FLAGS.sw.(dot := true));
    StarTurn(w, tail, args, NO_FLAGS);
    StarTurn(w, tail, args, dotted);
    ConversionEnds(ch, rest, args, SetNumber(NO_FLAGS, v));
    ConversionEnds(ch, rest, args, SetNumber(dotted, v));
    PointFlag(NO_FLAGS.sw);
    hide Scan, FlagChar, IsConversion;
    OneFlag('.' as int, ['*' as int] + tail, [Word(w)] + args, NO_FLAGS, dotted.sw);
    assert ['.' as int, '*' as int] + tail == ['.' as int] + (['*' as int] + tail);
  }

  lemma StarTurn(w: u32, tail: seq<byte>, args: seq<Arg>, f: Flags)
    requires w != 0x8000_0000
    ensures Scan(['*' as int] + tail, [Word(w)] + args, f)
         == Scan(tail, args, SetNumber(f, if w < 0x8000_0000 then w else w - 0x1_0000_0000))
  {
    hide SetNumber;
    assert (['*' as int] + tail)[1..] == tail && ([Word(w)] + args)[1..] == args;
  }

  lemma ConversionEnds(ch: byte, rest: seq<byte>, args: seq<Arg>, f: Flags)
    requires IsConversion(ch)
    ensures Scan([ch] + rest, args, f) == Scanned(f, [ch] + rest, args)
  {
  }

  /** The text of a null format. */
  lemma NullFormatIs()
    ensures Spells(NULL_FORMAT, "(fmt null)\n")
  {
  }

  // ------------------------------------------------------------- dumps

  /** %D: one byte is two lower-case digits, the high one first. */
  lemma DumpOfOne(x: byte, between: seq<int>)
    ensures var d := Dump([x], between);
            |d| == 2 && IsNumeral([d[0]], x / 16, 16, false) && IsNumeral([d[1]], x % 16, 16, false)
  {
    OneNumeral(x / 16);
    OneNumeral(x % 16);
    hide IsNumeral, Hex;
    assert [x][1..] == [];
  }

  /** Two stretches of memory one behind the other have the text between them. */
  lemma {:induction false} DumpOfTwo(a: seq<byte>, b: seq<byte>, between: seq<int>)
    requires a != [] && b != []
    ensures Dump(a + b, between) == Dump(a, between) + between + Dump(b, between)
    decreases |a|
  {
    hide Hex;
    assert (a + b)[1..] == a[1..] + b;
    var hex: seq<int> := [Hex(a[0] / 16, false), Hex(a[0] % 16, false)];
    if |a| == 1 {
      assert a[1..] == [] && a[1..] + b == b;
      assert hex + [] + [] == hex;
    } else {
      DumpOfTwo(a[1..], b, between);
      var x, y := Dump(a[1..], between), Dump(b, between);
      assert hex + between + (x + between + y) == hex + between + x + between + y;
    }
  }

  lemma OneNumeral(v: nat)
    requires v < 16
    ensures IsNumeral([Hex(v, false)], v, 16, false)
  {
    NumeralIs(v, 16, false);
  }
}
