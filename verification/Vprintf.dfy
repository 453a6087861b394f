/**
 _IO_Vprintf of cpukit/dev/iovprintf.c: the interpreter, with the format as an index into a string whose
 terminator is never passed, and the characters put one by one.
 */
module Vprintf {
  import opened Bytes
  import opened Decimals
  import opened PrintfNumber
  import opened Printf

  datatype Option<T> = None | Some(value: T)

  /** Where PCHAR puts characters, and the count it keeps. */
  class Printer {
    var out: seq<int>
    var retval: int

    constructor ()
      ensures out == [] && retval == 0
    {
      out := [];
      retval := 0;
    }

    method PutChar(c: int)
      modifies this
      ensures out == old(out) + [c] && retval == old(retval) + 1
    {
      out := out + [c];
      retval := retval + 1;
    }

    /** The padding loops. */
    method PutTimes(c: int, count: int)
      modifies this
      ensures out == old(out) + Times(c, count) && retval == old(retval) + |Times(c, count)|
    {
      var width := count;
      while width > 0
        invariant width <= count && out + Times(c, width) == old(out) + Times(c, count)
        invariant retval + |Times(c, width)| == old(retval) + |Times(c, count)|
      {
        assert Times(c, width) == [c] + Times(c, width - 1);
        ghost var before := out;
        PutChar(c);
        assert before + ([c] + Times(c, width - 1)) == out + Times(c, width - 1);
        width := width - 1;
      }
      assert out + [] == out;
    }

    method PutText(s: seq<int>)
      modifies this
      ensures out == old(out) + s && retval == old(retval) + |s|
    {
      var i := 0;
      while i < |s|
        invariant 0 <= i <= |s| && out == old(out) + s[..i] && retval == old(retval) + i
      {
        PutChar(s[i]);
        i := i + 1;
      }
      assert s[..|s|] == s;
    }

    /** A text in a field, padded on one side. */
    method PutField(s: seq<int>, width: int, left: bool, pad: int)
      modifies this
      ensures out == old(out) + Field(s, width, left, pad) && retval == old(retval) + |Field(s, width, left, pad)|
    {
      if !left {
        PutTimes(pad, width - |s|);
      }
      PutText(s);
      if left {
        PutTimes(pad, width - |s|);
      }
      assert old(out) + (s + Times(pad, width - |s|)) == old(out) + s + Times(pad, width - |s|);
      assert old(out) + (Times(pad, width - |s|) + s) == old(out) + Times(pad, width - |s|) + s;
    }

    /** The digits, from the highest place in the buffer down to the terminator. */
    method PutDigits(nbuf: array<byte>, top: nat, ghost d: seq<byte>)
      requires top == |d| < nbuf.Length && nbuf[0] == 0 && 0 !in d
      requires forall j :: 1 <= j <= top ==> nbuf[j] == d[top - j]
      modifies this
      ensures out == old(out) + d && retval == old(retval) + |d|
    {
      var p := top;
      while nbuf[p] != 0
        invariant 0 <= p <= top && out == old(out) + d[..top - p] && retval == old(retval) + (top - p)
        decreases p
      {
        PutChar(nbuf[p]);
        p := p - 1;
      }
      assert d[..|d|] == d;
    }
  }

  // ------------------------------------------------------------- numbers

  predicate InInt(x: int) {
    INT_MIN <= x <= INT_MAX
  }

  lemma {:induction false} NoZeroDigit(n: nat, base: nat, upper: bool)
    requires 2 <= base <= 16
    ensures 0 !in Numeral(n, base, upper)
    decreases n
  {
    if n >= base {
      QuotientSmaller(n, base);
      NoZeroDigit(n / base, base, upper);
    }
  }

  /** The pieces of a numeric conversion, in order. */
  ghost function PieceText(left: bool, sign: seq<int>, prefix: seq<int>, width: int, dwidth: int, d: seq<int>): seq<int> {
    (if left then [] else Times(SPACE, width)) + sign + prefix + Times(ZERO, dwidth) + d + (if left then Times(SPACE, width) else [])
  }

  /** The field of a number in the pieces and with the arithmetic of the source. */
  lemma Pieces(l: Layout, sign: seq<int>, num: nat, base: nat, upper: bool)
    requires 2 <= base <= 16
    ensures var prefix := Prefix(l.sharp, num, base);
            var d := Numeral(num, base, upper);
            var tmp := |sign| + |prefix|;
            var dwidth := DigitsWanted(l, tmp);
            Rendered(l, sign, num, base, upper)
            == PieceText(l.left, sign, prefix, l.width - (tmp + Max(dwidth, |d|)), dwidth - |d|, d)
  {
    hide Numeral, Prefix, DigitsWanted;
    var prefix, d: seq<int> := Prefix(l.sharp, num, base), Numeral(num, base, upper);
    var wanted := DigitsWanted(l, |sign + prefix|);
    var zeros := Times(ZERO, wanted - |d|);
    var blank := Times(SPACE, l.width - (|sign| + |prefix| + Max(wanted, |d|)));
    assert |sign + prefix + zeros + d| == |sign| + |prefix| + Max(wanted, |d|);
    hide Times;
    PiecesInField(l.left, sign, prefix, zeros, d, blank);
  }

  lemma PiecesInField(left: bool, a: seq<int>, b: seq<int>, c: seq<int>, d: seq<int>, blank: seq<int>)
    ensures (if left then (a + b + c + d) + blank else blank + (a + b + c + d))
         == (if left then [] else blank) + a + b + c + d + (if left then blank else [])
  {
    if left {
      assert [] + a == a;
    } else {
      assert blank + (a + b + c + d) == blank + a + b + c + d;
      assert blank + a + b + c + d + [] == blank + a + b + c + d;
    }
  }

  lemma NumberParts(f: Flags, sign: seq<int>, num: nat, base: nat, upper: bool)
    requires 2 <= base <= 16 && Number(f, sign, num, base, upper, []).Output?
    ensures var l := LayoutOf(f);
            && l.left == f.sw.left && l.sharp == f.sw.sharp && l.width == f.width
            && NumberFits(l, |sign| + |Prefix(f.sw.sharp, num, base)|, |Numeral(num, base, upper)|)
            && Number(f, sign, num, base, upper, []).text == Rendered(l, sign, num, base, upper)
  {
    hide Prefix, Numeral, NumberFits, Rendered;
  }

  /** The sign in its variable: 0 for none. */
  function SignText(sign: int): seq<int> {
    if sign != 0 then [sign] else []
  }

  method PutPrefix(printer: Printer, sharp: bool, num: nat, base: nat)
    modifies printer
    ensures printer.out == old(printer.out) + Prefix(sharp, num, base)
    ensures printer.retval == old(printer.retval) + |Prefix(sharp, num, base)|
  {
    if sharp && num != 0 {
      if base == 8 {
        printer.PutChar(ZERO);
      } else if base == 16 {
        printer.PutChar(ZERO);
        printer.PutChar(LOWER_X);
      }
    }
  }

  method SignAndPrefixLength(sign: int, sharp: bool, num: nat, base: nat) returns (tmp: int)
    ensures 0 <= tmp <= 3 && tmp == |SignText(sign)| + |Prefix(sharp, num, base)|
  {
    tmp := 0;
    if sharp && num != 0 {
      if base == 8 {
        tmp := tmp + 1;
      } else if base == 16 {
        tmp := tmp + 2;
      }
    }
    if sign != 0 {
      tmp := tmp + 1;
    }
  }

  method NewBuffer() returns (nbuf: array<byte>)
    ensures fresh(nbuf) && nbuf.Length == MAXNBUF
  {
    nbuf := new byte[MAXNBUF](_ => 0);
  }

  /** From the label `number` to the end of the conversion; `sign` is 0 or the sign character. */
  method PutNumber(printer: Printer, f: Flags, sign: int, num: nat, base: nat, upper: bool)
    requires num <= UINT64_MAX && (base == 8 || base == 10 || base == 16)
    requires Number(f, SignText(sign), num, base, upper, []).Output?
    requires f.width >= 0 && InInt(f.width) && InInt(f.dwidth)
    modifies printer
    ensures var text := Number(f, SignText(sign), num, base, upper, []).text;
            printer.out == old(printer.out) + text && printer.retval == old(printer.retval) + |text|
  {
    hide *;
    var nbuf := NewBuffer();
    ghost var l := LayoutOf(f);
    ghost var d := Numeral(num, base, upper);
    Pieces(l, SignText(sign), num, base, upper);
    NoZeroDigit(num, base, upper);
    var n := Ksprintn(nbuf, num, base, upper);
    var tmp := SignAndPrefixLength(sign, f.sw.sharp, num, base);
    NumberParts(f, SignText(sign), num, base, upper);
    var width, dwidth := FieldArithmetic(f, tmp, n);
    PutPieces(printer, f, sign, num, base, width, dwidth, nbuf, n, d);
  }

  /** Blanks and zeros to put; nothing overflows. */
  method FieldArithmetic(f: Flags, tmp: nat, n: nat) returns (width: int, dwidth: int)
    requires NumberFits(LayoutOf(f), tmp, n) && 0 <= f.width && InInt(f.width) && InInt(f.dwidth) && tmp <= 3
    ensures var wanted := DigitsWanted(LayoutOf(f), tmp);
            width == f.width - (tmp + Max(wanted, n)) && dwidth == wanted - n
    ensures InInt(width - 1) && InInt(dwidth - 1)
  {
    width, dwidth := f.width, f.dwidth;
    if !f.sw.left && f.sw.zeroPad {
      assert InInt(width - tmp);
      dwidth := width - tmp;
    }
    assert InInt(tmp + Max(dwidth, n));
    width := width - (tmp + Max(dwidth, n));
    dwidth := dwidth - n;
  }

  /** The characters of a numeric conversion, in order. */
  method PutPieces(printer: Printer, f: Flags, sign: int, num: nat, base: nat, width: int, dwidth: int,
                   nbuf: array<byte>, n: nat, ghost d: seq<byte>)
    requires n == |d| < nbuf.Length && nbuf[0] == 0 && 0 !in d
    requires forall j :: 1 <= j <= n ==> nbuf[j] == d[n - j]
    modifies printer
    ensures var text := PieceText(f.sw.left, SignText(sign), Prefix(f.sw.sharp, num, base), width, dwidth, d);
            printer.out == old(printer.out) + text && printer.retval == old(printer.retval) + |text|
  {
    hide Times, Prefix;
    ghost var start := printer.out;
    ghost var text: seq<int> := if f.sw.left then [] else Times(SPACE, width);
    if !f.sw.left {
      printer.PutTimes(SPACE, width);
    }
    assert printer.out == start + text;
    if sign != 0 {
      printer.PutChar(sign);
    }
    assert printer.out == start + text + SignText(sign);
    Extend(start, text, SignText(sign));
    text := text + SignText(sign);
    PutPrefix(printer, f.sw.sharp, num, base);
    Extend(start, text, Prefix(f.sw.sharp, num, base));
    text := text + Prefix(f.sw.sharp, num, base);
    printer.PutTimes(ZERO, dwidth);
    Extend(start, text, Times(ZERO, dwidth));
    text := text + Times(ZERO, dwidth);
    printer.PutDigits(nbuf, n, d);
    Extend(start, text, d);
    text := text + d;
    if f.sw.left {
      printer.PutTimes(SPACE, width);
      Extend(start, text, Times(SPACE, width));
    } else {
      assert text + [] == text;
    }
  }

  lemma Extend(a: seq<int>, b: seq<int>, c: seq<int>)
    ensures a + b + c == a + (b + c)
  {
  }

  // ------------------------------------------------------------- fetching integers

  /** handle_nosign */
  method FetchUnsigned(f: Flags, a: Arg) returns (num: nat)
    requires if f.sw.j || f.sw.l then a.Long? else a.Word?
    ensures num == Bits(a) % Modulus(f)
  {
    if f.sw.j || f.sw.l {
      num := a.x;
    } else if f.sw.h {
      num := a.w % 0x1_0000;
    } else if f.sw.c {
      num := a.w % 0x100;
    } else {
      num := a.w;
    }
  }

  /** A signed value converted to uintmax_t. */
  function ToUint64(v: int): (u: nat)
    requires -0x8000_0000_0000_0000 <= v <= 0x7FFF_FFFF_FFFF_FFFF
    ensures u <= UINT64_MAX
  {
    if v < 0 then v + 0x1_0000_0000_0000_0000 else v
  }

  lemma SignedCases(f: Flags, a: Arg)
    requires if f.sw.j || f.sw.l then a.Long? else a.Word?
    ensures f.sw.j || f.sw.l ==> Signed(f, a) == SignedOf(a.x, 0x1_0000_0000_0000_0000)
    ensures !(f.sw.j || f.sw.l) && f.sw.h ==> Signed(f, a) == SignedOf(a.w % 0x1_0000, 0x1_0000)
    ensures !(f.sw.j || f.sw.l) && !f.sw.h && f.sw.c ==> Signed(f, a) == SignedOf(a.w % 0x100, 0x100)
    ensures !(f.sw.j || f.sw.l) && !f.sw.h && !f.sw.c ==> Signed(f, a) == SignedOf(a.w, 0x1_0000_0000)
  {
    hide SignedOf;
  }

  /** handle_sign: the magnitude, computed in 64 unsigned bits, and the sign character. */
  method FetchSigned(f: Flags, a: Arg) returns (num: nat, sign: int)
    requires if f.sw.j || f.sw.l then a.Long? else a.Word?
    ensures num == Abs(Signed(f, a)) <= 0x8000_0000_0000_0000 && SignText(sign) == SignOf(f, Signed(f, a))
  {
    SignedCases(f, a);
    hide Signed, Unsigned;
    sign := if f.sw.plus then PLUS else 0;
    var v: int;
    if f.sw.j || f.sw.l {
      v := SignedOf(a.x, 0x1_0000_0000_0000_0000);
    } else if f.sw.h {
      v := SignedOf(a.w % 0x1_0000, 0x1_0000);
    } else if f.sw.c {
      v := SignedOf(a.w % 0x100, 0x100);
    } else {
      v := SignedOf(a.w, 0x1_0000_0000);
    }
    num := ToUint64(v);
    if num >= 0x8000_0000_0000_0000 {
      sign := MINUS;
      num := 0x1_0000_0000_0000_0000 - num;
    }
  }

  // ------------------------------------------------------------- flags

  predicate FlagsOk(f: Flags) {
    0 <= f.width <= INT_MAX && InInt(f.dwidth)
  }

  /** The character at an index, and the terminator behind the last. */
  function At(fmt: Str, i: nat): (ch: byte)
    requires i <= |fmt|
    ensures (ch == 0 <==> i == |fmt|) && (i < |fmt| ==> ch == fmt[i])
  {
    if i < |fmt| then
      assert fmt[i] in fmt;
      fmt[i]
    else 0
  }

  lemma {:induction false} ValueGrows(s: seq<byte>, k: nat)
    requires k <= |s| && forall i :: 0 <= i < |s| ==> IsDigit(s[i])
    ensures Value(s[..k]) <= Value(s)
    decreases |s|
  {
    if k < |s| {
      var front := s[..|s| - 1];
      assert front[..k] == s[..k];
      ValueGrows(front, k);
    } else {
      assert s[..k] == s;
    }
  }

  lemma ValueStep(s: seq<byte>, k: nat)
    requires k < |s| && forall i :: 0 <= i <= k ==> IsDigit(s[i])
    ensures Value(s[..k + 1]) == Value(s[..k]) * 10 + (s[k] as int - 48)
  {
    var t := s[..k + 1];
    assert t[..|t| - 1] == s[..k];
  }

  lemma DigitsAre(s: seq<byte>, k: nat)
    requires k <= |s| && (forall i :: 0 <= i < k ==> IsDigit(s[i])) && (k < |s| ==> !IsDigit(s[k]))
    ensures Digits(s) == k
  {
    assert s == s[..k] + s[k..];
    DigitsThenStop(s[..k], s[k..]);
  }

  /** The loop over the digits of a width or precision, `ch` being the first; no intermediate result overflows. */
  method ScanNumber(fmt: Str, start: nat) returns (n: int, i: nat)
    requires start < |fmt| && IsDigit(fmt[start]) && NumberDefined(fmt[start..])
    ensures i == start + Digits(fmt[start..]) && n == Value(fmt[start..][..Digits(fmt[start..])])
  {
    ghost var s := fmt[start..];
    ghost var whole := s[..Digits(s)];
    hide Value, Digits;
    var ch: byte := fmt[start];
    n, i := 0, start + 1;
    ghost var k := 0;
    EmptyValue();
    assert s[..0] == [];
    while true
      invariant i == start + k + 1 && k < |s| && ch == s[k] && forall j :: 0 <= j <= k ==> IsDigit(s[j])
      invariant n == Value(s[..k])
      decreases |s| - k
    {
      ValueStep(s, k);
      WithinRun(s, k);
      assert InInt(n * 10 + ch as int);
      n := n * 10 + ch as int - 48;
      ch := At(fmt, i);
      k := k + 1;
      if !IsDigit(ch) {
        break;
      }
      i := i + 1;
    }
    DigitsAre(s, k);
  }

  lemma EmptyValue()
    ensures Value([]) == 0
  {
  }

  lemma WithinRun(s: seq<byte>, k: nat)
    requires k < |s| && (forall j :: 0 <= j <= k ==> IsDigit(s[j])) && NumberDefined(s)
    ensures Value(s[..k + 1]) + 48 <= INT_MAX
  {
    var m := Digits(s);
    RunReaches(s, k);
    hide Digits;
    assert s[..m][..k + 1] == s[..k + 1];
    ValueGrows(s[..m], k + 1);
  }

  lemma {:induction false} RunReaches(s: seq<byte>, k: nat)
    requires k < |s| && forall j :: 0 <= j <= k ==> IsDigit(s[j])
    ensures Digits(s) > k
    decreases k
  {
    if k > 0 {
      RunReaches(s[1..], k - 1);
    }
  }

  /** A width or precision given by an argument. */
  method TakeStar(f: Flags, args: seq<Arg>) returns (f': Flags, args': seq<Arg>)
    requires FlagsOk(f) && StarDefined(f, args)
    ensures FlagsOk(f') && f' == SetNumber(f, StarValue(args[0])) && args' == args[1..]
  {
    var value := SignedOf(args[0].w, 0x1_0000_0000);
    args' := args[1..];
    f' := f;
    if !f.sw.dot {
      f' := f'.(width := value);
      if f'.width < 0 {
        f' := f'.(sw := f'.sw.(left := !f'.sw.left), width := -f'.width);
      }
    } else {
      f' := f'.(dwidth := value);
    }
  }

  lemma SetNumberKeeps(f: Flags, n: int)
    requires FlagsOk(f) && 0 <= n <= INT_MAX
    ensures FlagsOk(SetNumber(f, n)) && SetNumber(f, n) == if f.sw.dot then f.(dwidth := n) else f.(width := n)
  {
  }

  lemma NumberInRange(s: seq<byte>)
    requires NumberDefined(s)
    ensures 0 <= Value(s[..Digits(s)]) <= INT_MAX && Digits(s) <= |s|
  {
  }

  /** One turn of the switch. */
  method OneTurn(fmt: Str, i: nat, args: seq<Arg>, f: Flags) returns (again: bool, f': Flags, i': nat, args': seq<Arg>)
    requires i < |fmt| && FlagsOk(f) && !TurnAt(fmt[i..], args, f).NoTurn?
    ensures FlagsOk(f') && i <= i' <= |fmt|
    ensures TurnAt(fmt[i..], args, f) == if again then Turn(i' - i, args', f') else AtConversion
    ensures !again ==> i' == i && args' == args && f' == f
  {
    again, f', i', args' := true, f, i, args;
    hide FlagChar, SetNumber, StarDefined, StarValue, NumberDefined, Value, Digits;
    var ch := At(fmt, i);
    var step := FlagChar(ch, f.sw);
    if step.Next? {
      f' := f.(sw := step.sw);
      i' := i + 1;
    } else if ch == STAR {
      f', args' := TakeStar(f, args);
      i' := i + 1;
    } else if IsDigit(ch) {
      NumberInRange(fmt[i..]);
      var n;
      n, i' := ScanNumber(fmt, i);
      SetNumberKeeps(f, n);
      f' := if f.sw.dot then f.(dwidth := n) else f.(width := n);
    } else {
      again := false;
    }
  }

  /** The switch up to the conversion character, which `i` then is at. */
  method ScanFlags(fmt: Str, start: nat, args: seq<Arg>) returns (f: Flags, i: nat, args': seq<Arg>)
    requires start <= |fmt| && Scan(fmt[start..], args, NO_FLAGS).Scanned?
    ensures start <= i < |fmt| && FlagsOk(f) && Scan(fmt[start..], args, NO_FLAGS) == Scanned(f, fmt[i..], args')
  {
    hide TurnAt;
    f, i, args' := NO_FLAGS, start, args;
    var again := true;
    while again
      invariant start <= i <= |fmt| && FlagsOk(f) && Scan(fmt[i..], args', f) == Scan(fmt[start..], args, NO_FLAGS)
      invariant !again ==> i < |fmt| && TurnAt(fmt[i..], args', f).AtConversion?
      decreases |fmt| - i, again
    {
      ghost var here := i;
      again, f, i, args' := OneTurn(fmt, i, args', f);
      assert fmt[here..][i - here..] == fmt[i..];
    }
  }

  // ------------------------------------------------------------- conversions

  /** The length of a text under a precision. */
  method PreciseLength(f: Flags, p: Str) returns (n: nat)
    ensures n <= |p| && p[..n] == Precise(f, p)
  {
    if !f.sw.dot {
      n := |p|;
    } else {
      n := 0;
      while n < f.dwidth && At(p, n) != 0
        invariant n <= |p| && (n == 0 || n <= f.dwidth)
        decreases |p| - n
      {
        n := n + 1;
      }
    }
  }

  /** The loop of %D. */
  method PutDump(printer: Printer, up: seq<byte>, between: seq<int>)
    modifies printer
    ensures printer.out == old(printer.out) + Dump(up, between) && printer.retval == old(printer.retval) + |Dump(up, between)|
  {
    hide Hex;
    var width := |up|;
    assert up[0..] == up;
    while width > 0
      invariant 0 <= width <= |up|
      invariant printer.out + Dump(up[|up| - width..], between) == old(printer.out) + Dump(up, between)
      invariant printer.retval + |Dump(up[|up| - width..], between)| == old(printer.retval) + |Dump(up, between)|
    {
      ghost var rest := up[|up| - width..];
      ghost var before := printer.out;
      var b := up[|up| - width];
      width := width - 1;
      assert rest[1..] == up[|up| - width..];
      printer.PutChar(Hex(b / 16, false));
      printer.PutChar(Hex(b % 16, false));
      if width != 0 {
        printer.PutText(between);
      }
      ghost var piece: seq<int> := [Hex(b / 16, false), Hex(b % 16, false)] + (if width != 0 then between else []);
      assert printer.out == before + piece;
      Extend(before, piece, Dump(rest[1..], between));
    }
    assert printer.out + [] == printer.out;
  }

  /** The conversion took what it should and put its text. */
  twostate predicate Did(printer: Printer, c: Converted, args: seq<Arg>, known: bool)
    reads printer
  {
    && !c.Mismatch? && known == c.Output?
    && (c.Output? ==> printer.out == old(printer.out) + c.text && printer.retval == old(printer.retval) + |c.text| && args == c.args)
    && (c.Unknown? ==> printer.out == old(printer.out) && printer.retval == old(printer.retval))
  }

  lemma NumberForAnyArgs(f: Flags, sign: seq<int>, num: nat, base: nat, upper: bool, args: seq<Arg>)
    requires 2 <= base <= 16
    ensures var c := Number(f, sign, num, base, upper, []);
            Number(f, sign, num, base, upper, args) == if c.Output? then Output(c.text, args) else Mismatch
  {
    hide NumberFits, Prefix, Numeral, Rendered;
  }

  method PutSigned(printer: Printer, f: Flags, base: nat, args: seq<Arg>) returns (args': seq<Arg>)
    requires (base == 10 || base == 16) && FlagsOk(f) && !SignedNumber(f, base, args).Mismatch?
    modifies printer
    ensures Did(printer, SignedNumber(f, base, args), args', true)
  {
    var num, sign := FetchSigned(f, args[0]);
    args' := args[1..];
    NumberForAnyArgs(f, SignText(sign), num, base, false, args');
    hide Number, SignText, SignOf, Signed, Abs;
    PutNumber(printer, f, sign, num, base, false);
  }

  method PutUnsigned(printer: Printer, f: Flags, base: nat, upper: bool, args: seq<Arg>) returns (args': seq<Arg>)
    requires (base == 8 || base == 10 || base == 16) && FlagsOk(f) && !UnsignedNumber(f, base, upper, args).Mismatch?
    modifies printer
    ensures Did(printer, UnsignedNumber(f, base, upper, args), args', true)
  {
    var num := FetchUnsigned(f, args[0]);
    var sign := if f.sw.plus then PLUS else 0;
    assert SignText(sign) == SignOf(f, 0);
    args' := args[1..];
    NumberForAnyArgs(f, SignText(sign), num, base, upper, args');
    hide Number, SignText, SignOf, Unsigned;
    PutNumber(printer, f, sign, num, base, upper);
  }

  method PutPointer(printer: Printer, f: Flags, args: seq<Arg>) returns (args': seq<Arg>)
    requires FlagsOk(f) && !PointerConversion(f, args).Mismatch?
    modifies printer
    ensures Did(printer, PointerConversion(f, args), args', true)
  {
    var f' := f.(sw := f.sw.(sharp := f.width == 0, plus := false));
    args' := args[1..];
    NumberForAnyArgs(f', [], args[0].p, 16, false, args');
    assert SignText(0) == [];
    hide Number;
    PutNumber(printer, f', 0, args[0].p, 16, false);
  }

  method PutConversion(printer: Printer, ch: byte, f: Flags, args: seq<Arg>) returns (known: bool, args': seq<Arg>)
    requires FlagsOk(f) && !Convert(ch, f, args).Mismatch?
    modifies printer
    ensures Did(printer, Convert(ch, f, args), args', known)
  {
    known, args' := true, args;
    hide Number, Unsigned, Signed, Field, Dump, Precise, IntegerGiven;
    match ch
    case 37 => // %
      printer.PutChar(ch);
    case 99 => // c
      printer.PutField([SignedOf(args[0].w, 0x1_0000_0000)], f.width, f.sw.left, PadChar(f));
      args' := args[1..];
    case 68 => // D
      PutDump(printer, args[0].bytes[..if f.width == 0 then 16 else f.width], args[1].s);
      args' := args[2..];
    case 100 => // d
      args' := PutSigned(printer, f, 10, args);
    case 105 => // i
      args' := PutSigned(printer, f, 10, args);
    case 111 => // o
      args' := PutUnsigned(printer, f, 8, false, args);
    case 112 => // p
      args' := PutPointer(printer, f, args);
    case 115 => // s
      var p := if args[0].NullText? then NULL_TEXT else args[0].s;
      var n := PreciseLength(f, p);
      printer.PutField(p[..n], f.width, f.sw.left, PadChar(f));
      args' := args[1..];
    case 117 => // u
      args' := PutUnsigned(printer, f, 10, false, args);
    case 88 => // X
      args' := PutUnsigned(printer, f, 16, true, args);
    case 120 => // x
      args' := PutUnsigned(printer, f, 16, false, args);
    case 121 => // y
      args' := PutSigned(printer, f, 16, args);
    case _ =>
      known := false;
  }

  // ------------------------------------------------------------- the interpreter

  /** What is still to be printed at index `i`. */
  ghost function Rest(fmt: Str, i: nat, args: seq<Arg>, stop: bool): Meaning
    requires i <= |fmt|
  {
    if stop then Printed(fmt[i..], args, true) else Format(fmt[i..], args)
  }

  /** The part of an undefined call's text that does not matter. */
  ghost function TextOr(m: Meaning): seq<int> {
    if m.Printed? then m.text else []
  }

  /** A directive at index `i`, which is behind its percent sign. */
  method PutDirective(printer: Printer, fmt: Str, percent: nat, args: seq<Arg>) returns (i: nat, args': seq<Arg>, stop: bool)
    requires percent < |fmt| && fmt[percent] == PERCENT && Format(fmt[percent..], args).Printed?
    modifies printer
    ensures percent < i <= |fmt| && Rest(fmt, i, args', stop).Printed?
    ensures printer.out + TextOr(Rest(fmt, i, args', stop)) == old(printer.out) + Format(fmt[percent..], args).text
    ensures printer.retval + |TextOr(Rest(fmt, i, args', stop))| == old(printer.retval) + |Format(fmt[percent..], args).text|
  {
    hide Scan, Convert;
    assert fmt[percent..][1..] == fmt[percent + 1..];
    var f;
    f, i, args' := ScanFlags(fmt, percent + 1, args);
    ghost var c := Convert(fmt[i], f, args');
    assert fmt[i..][1..] == fmt[i + 1..];
    var known;
    known, args' := PutConversion(printer, fmt[i], f, args');
    i := i + 1;
    stop := !known;
    if stop {
      printer.PutText(fmt[percent..i]);
      assert fmt[percent..] == fmt[percent..i] + fmt[i..];
      Extend(old(printer.out), fmt[percent..i], fmt[i..]);
    } else {
      Extend(old(printer.out), c.text, Format(fmt[i..], c.args).text);
    }
  }

  /** The call is defined and its count fits int; a null format always is. */
  ghost predicate Defined(format: Option<Str>, args: seq<Arg>) {
    format.Some? ==> Format(format.value, args).Printed? && |Format(format.value, args).text| <= INT_MAX
  }

  /** What is printed, a null format being a text of its own. */
  ghost function TextFor(format: Option<Str>, args: seq<Arg>): seq<int> {
    if format.None? then NULL_FORMAT else TextOr(Format(format.value, args))
  }

  /** _IO_Vprintf: the characters of the format's meaning are put, and their number is returned. */
  method Vprintf(printer: Printer, format: Option<Str>, args: seq<Arg>) returns (retval: int)
    requires Defined(format, args)
    modifies printer
    ensures printer.out == old(printer.out) + TextFor(format, args) && retval == |TextFor(format, args)|
  {
    NoPercentInNullFormat();
    LiteralFormat(NULL_FORMAT, args);
    hide Format;
    var fmt := if format.None? then NULL_FORMAT else format.value;
    retval := Interpret(printer, fmt, args);
  }

  lemma NoPercentInNullFormat()
    ensures PERCENT !in NULL_FORMAT
  {
  }

  /** The loop over the format. */
  method Interpret(printer: Printer, fmt: Str, args: seq<Arg>) returns (retval: int)
    requires Format(fmt, args).Printed?
    modifies printer
    ensures printer.out == old(printer.out) + Format(fmt, args).text && retval == |Format(fmt, args).text|
  {
    hide *;
    ghost var whole := Format(fmt, args).text;
    printer.retval := 0;
    var i, stop, left := 0, false, args;
    AllLeft(fmt, args);
    while i < |fmt|
      invariant i <= |fmt| && Rest(fmt, i, left, stop).Printed?
      invariant printer.out + TextOr(Rest(fmt, i, left, stop)) == old(printer.out) + whole
      invariant printer.retval + |TextOr(Rest(fmt, i, left, stop))| == |whole|
    {
      var ch := At(fmt, i);
      if ch != PERCENT || stop {
        LiteralStep(fmt, i, left, stop);
        Extend(printer.out, [ch], TextOr(Rest(fmt, i + 1, left, stop)));
        printer.PutChar(ch);
        i := i + 1;
      } else {
        RestIsFormat(fmt, i, left);
        i, left, stop := PutDirective(printer, fmt, i, left);
      }
    }
    NothingLeft(fmt, left, stop);
    assert printer.out + [] == printer.out;
    retval := printer.retval;
  }

  lemma AllLeft(fmt: Str, args: seq<Arg>)
    requires Format(fmt, args).Printed?
    ensures Rest(fmt, 0, args, false).Printed? && TextOr(Rest(fmt, 0, args, false)) == Format(fmt, args).text
  {
    hide Format;
    assert fmt[0..] == fmt;
  }

  lemma LiteralStep(fmt: Str, i: nat, args: seq<Arg>, stop: bool)
    requires i < |fmt| && Rest(fmt, i, args, stop).Printed? && (fmt[i] != PERCENT || stop)
    ensures Rest(fmt, i + 1, args, stop).Printed?
    ensures TextOr(Rest(fmt, i, args, stop)) == [fmt[i]] + TextOr(Rest(fmt, i + 1, args, stop))
  {
    assert fmt[i..] == [fmt[i]] + fmt[i + 1..];
    assert fmt[i..][1..] == fmt[i + 1..];
  }

  lemma RestIsFormat(fmt: Str, i: nat, args: seq<Arg>)
    requires i < |fmt| && Rest(fmt, i, args, false).Printed?
    ensures Format(fmt[i..], args).Printed? && TextOr(Rest(fmt, i, args, false)) == Format(fmt[i..], args).text
  {
    hide Format;
  }

  lemma NothingLeft(fmt: Str, args: seq<Arg>, stop: bool)
    ensures TextOr(Rest(fmt, |fmt|, args, stop)) == []
  {
  }
}
