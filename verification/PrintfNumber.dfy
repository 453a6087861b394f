/**
 Numbers in the kernel printf (cpukit/dev/iovprintf.c): numerals in a base, the buffer that ksprintn
 fills backwards, and the layout of sign, prefix, zeros, digits and padding.
 */
module PrintfNumber {
  import opened Bytes

  const UINT64_MAX := 0xFFFF_FFFF_FFFF_FFFF

  // A 64-bit number in base 8 takes 22 digits; one more for the terminator.
  const MAXNBUF := (64 + 2) / 3 + 1

  const SPACE := 32
  const ZERO := 48
  const LOWER_X := 120

  function Hex(v: nat, upper: bool): (c: byte)
    requires v < 16
    ensures c != 0 && c != SPACE && c != LOWER_X && c != PLUS && c != MINUS && (c == ZERO <==> v == 0)
  {
    if v < 10 then 48 + v else if upper then 65 + v - 10 else 97 + v - 10
  }

  // ------------------------------------------------------------- numerals

  /** The digits of a number, most significant first. */
  function Numeral(n: nat, base: nat, upper: bool): (d: seq<byte>)
    requires 2 <= base <= 16
    ensures d != []
    decreases n
  {
    if n < base then [Hex(n, upper)]
    else
      QuotientSmaller(n, base);
      Numeral(n / base, base, upper) + [Hex(n % base, upper)]
  }

  lemma QuotientSmaller(n: nat, base: nat)
    requires 2 <= base <= n
    ensures 0 < n / base < n
  {
  }

  /** A hexadecimal digit read back, in either case; -1 for anything else. */
  function DigitValue(c: int): (v: int)
    ensures -1 <= v < 16
  {
    if 48 <= c <= 57 then c - 48
    else if 65 <= c <= 70 then c - 65 + 10
    else if 97 <= c <= 102 then c - 97 + 10
    else -1
  }

  predicate IsDigitIn(c: int, base: nat) {
    0 <= DigitValue(c) < base
  }

  /** What digits mean. */
  function ValueIn(d: seq<int>, base: nat): int {
    if d == [] then 0 else ValueIn(d[..|d| - 1], base) * base + DigitValue(d[|d| - 1])
  }

  lemma HexValue(v: nat, upper: bool)
    requires v < 16
    ensures DigitValue(Hex(v, upper)) == v
  {
  }

  /** The numeral of a number evaluates to it, and starts with a zero only for zero. */
  lemma {:induction false} NumeralMeans(n: nat, base: nat, upper: bool)
    requires 2 <= base <= 16
    ensures ValueIn(Numeral(n, base, upper), base) == n
    ensures forall i :: 0 <= i < |Numeral(n, base, upper)| ==> IsDigitIn(Numeral(n, base, upper)[i], base)
    ensures Numeral(n, base, upper)[0] == ZERO <==> n == 0
    ensures n == 0 ==> |Numeral(n, base, upper)| == 1
    decreases n
  {
    hide *;
    if n < base {
      OneDigit(n, base, upper);
    } else {
      var q, r := n / base, n % base;
      Division(n, base);
      HexValue(r, upper);
      NumeralMeans(q, base, upper);
      NumeralStep(n, base, upper);
      Appended(Numeral(q, base, upper), Hex(r, upper), base);
    }
  }

  lemma OneDigit(n: nat, base: nat, upper: bool)
    requires 2 <= base <= 16 && n < base
    ensures Numeral(n, base, upper) == [Hex(n, upper)] && IsDigitIn(Hex(n, upper), base)
    ensures ValueIn(Numeral(n, base, upper), base) == n && (Hex(n, upper) == ZERO <==> n == 0)
  {
    HexValue(n, upper);
    assert [Hex(n, upper)][..0] == [];
    assert ValueIn([], base) * base == 0;
  }

  lemma NumeralStep(n: nat, base: nat, upper: bool)
    requires 2 <= base <= 16 && base <= n && 0 <= n / base && 0 <= n % base < base
    ensures Numeral(n, base, upper) == Numeral(n / base, base, upper) + [Hex(n % base, upper)]
    ensures DigitValue(Hex(n % base, upper)) == n % base ==> IsDigitIn(Hex(n % base, upper), base)
  {
    hide Hex, DigitValue;
  }

  lemma Division(n: nat, base: nat)
    requires 2 <= base <= n
    ensures 0 < n / base < n && 0 <= n % base < base && n == n / base * base + n % base
  {
  }

  lemma Appended(d: seq<int>, c: int, base: nat)
    ensures ValueIn(d + [c], base) == ValueIn(d, base) * base + DigitValue(c)
  {
    hide DigitValue;
    assert (d + [c])[..|d|] == d;
  }

  function Pow8(k: nat): nat {
    if k == 0 then 1 else 8 * Pow8(k - 1)
  }

  lemma QuotientBound(n: nat, base: nat, m: nat)
    requires base >= 8 && n < 8 * m
    ensures n / base < m
  {
    if n >= base {
      Division(n, base);
      ProductGrows(n / base, 8, base);
    } else {
      SmallNumber(n, base);
    }
  }

  lemma {:induction false} ProductGrows(q: nat, a: nat, b: nat)
    requires a <= b
    ensures q * a <= q * b
  {
    if q > 0 {
      ProductGrows(q - 1, a, b);
      assert q * a == (q - 1) * a + a && q * b == (q - 1) * b + b;
    }
  }

  lemma {:induction false} NumeralLength(n: nat, base: nat, upper: bool, k: nat)
    requires 8 <= base <= 16 && k >= 1 && n < Pow8(k)
    ensures |Numeral(n, base, upper)| <= k
    decreases k
  {
    if n >= base {
      assert k > 1 by {
        assert Pow8(0) == 1;
      }
      QuotientBound(n, base, Pow8(k - 1));
      NumeralLength(n / base, base, upper, k - 1);
    }
  }

  /** The buffer of ksprintn is large enough for every base from 8 up. */
  lemma BufferSuffices(n: nat, base: nat, upper: bool)
    requires 8 <= base <= 16 && n <= UINT64_MAX
    ensures |Numeral(n, base, upper)| < MAXNBUF
  {
    assert Pow8(4) == 4096;
    assert Pow8(8) == 4096 * Pow8(4);
    assert Pow8(12) == 4096 * Pow8(8);
    assert Pow8(16) == 4096 * Pow8(12);
    assert Pow8(20) == 4096 * Pow8(16);
    assert Pow8(22) == 64 * Pow8(20);
    hide Numeral;
    NumeralLength(n, base, upper, 22);
  }

  /** ksprintn: the terminator first, then the digits from the lowest up; the result points at the highest. */
  method Ksprintn(nbuf: array<byte>, number: nat, base: nat, upper: bool) returns (p: nat)
    requires nbuf.Length == MAXNBUF && number <= UINT64_MAX && 8 <= base <= 16
    modifies nbuf
    ensures p == |Numeral(number, base, upper)| < MAXNBUF && nbuf[0] == 0
    ensures forall j :: 1 <= j <= p ==> nbuf[j] == Numeral(number, base, upper)[p - j]
  {
    ghost var d := Numeral(number, base, upper);
    BufferSuffices(number, base, upper);
    hide Hex, Numeral;
    var num: nat := number;
    p := 0;
    nbuf[0] := 0;
    while true
      invariant nbuf[0] == 0 && |d| == |Numeral(num, base, upper)| + p && d[..|d| - p] == Numeral(num, base, upper)
      invariant forall j :: 1 <= j <= p ==> nbuf[j] == d[|d| - j]
      decreases num
    {
      NextDigit(d, p, num, base, upper);
      p := p + 1;
      nbuf[p] := Hex(num % base, upper);
      if num / base == 0 {
        break;
      }
      num := num / base;
    }
  }

  /** The digit to store next, and what is left of the numeral behind it. */
  lemma NextDigit(d: seq<byte>, p: nat, num: nat, base: nat, upper: bool)
    requires 2 <= base <= 16 && |d| == |Numeral(num, base, upper)| + p && d[..|d| - p] == Numeral(num, base, upper)
    ensures 0 <= num % base < base && 0 <= num / base && p < |d| && d[|d| - 1 - p] == Hex(num % base, upper)
    ensures if num / base == 0 then |d| == p + 1
            else num / base < num && |d| == |Numeral(num / base, base, upper)| + p + 1
                 && d[..|d| - (p + 1)] == Numeral(num / base, base, upper)
  {
    NumeralLast(num, base, upper);
    hide Numeral, Hex;
    var k := |d| - p;
    assert d[k - 1] == d[..k][k - 1];
    assert d[..k - 1] == d[..k][..k - 1];
  }

  lemma NumeralLast(n: nat, base: nat, upper: bool)
    requires 2 <= base <= 16
    ensures 0 <= n % base < base && 0 <= n / base
    ensures var d := Numeral(n, base, upper);
            && d[|d| - 1] == Hex(n % base, upper)
            && (if n / base == 0 then |d| == 1 else n / base < n && d[..|d| - 1] == Numeral(n / base, base, upper))
  {
    if n < base {
      SmallNumber(n, base);
    } else {
      QuotientSmaller(n, base);
    }
  }

  lemma SmallNumber(n: nat, base: nat)
    requires n < base
    ensures n % base == n && n / base == 0
  {
  }

  // ------------------------------------------------------------- layout

  /** `k` times the character, none for a negative number. */
  function Times(c: int, k: int): (s: seq<int>)
    ensures |s| == (if k > 0 then k else 0) && forall i :: 0 <= i < |s| ==> s[i] == c
  {
    seq(if k > 0 then k else 0, _ => c)
  }

  /** A text in a field. */
  function Field(text: seq<int>, width: int, left: bool, pad: int): seq<int> {
    if left then text + Times(pad, width - |text|) else Times(pad, width - |text|) + text
  }

  /** The part of a numeric directive that the flags fix. */
  datatype Layout = Layout(width: int, precision: int, left: bool, zeroPad: bool, sharp: bool)

  function Prefix(sharp: bool, num: nat, base: nat): seq<int> {
    if !sharp || num == 0 then [] else if base == 8 then [ZERO] else if base == 16 then [ZERO, LOWER_X] else []
  }

  /** How many digits are asked for: a zero flag, unless the field is left-adjusted, overrides the precision. */
  function DigitsWanted(l: Layout, room: int): int {
    if !l.left && l.zeroPad then l.width - room else l.precision
  }

  /** A number in its field; `sign` is empty or one character. */
  function Rendered(l: Layout, sign: seq<int>, num: nat, base: nat, upper: bool): seq<int>
    requires 2 <= base <= 16
  {
    var front := sign + Prefix(l.sharp, num, base);
    var digits := Numeral(num, base, upper);
    Field(front + Times(ZERO, DigitsWanted(l, |front|) - |digits|) + digits, l.width, l.left, SPACE)
  }

  function Max(a: int, b: int): int { if a > b then a else b }

  /** The emitted length is max(width, tmp + max(dwidth, n)). */
  lemma RenderedLength(l: Layout, sign: seq<int>, num: nat, base: nat, upper: bool)
    requires 2 <= base <= 16
    ensures var tmp := |sign| + |Prefix(l.sharp, num, base)|;
            var n := |Numeral(num, base, upper)|;
            |Rendered(l, sign, num, base, upper)| == Max(l.width, tmp + Max(DigitsWanted(l, tmp), n))
  {
    hide Numeral;
  }

  // ------------------------------------------------------------- reading a rendered number

  function SkipSpaces(s: seq<int>): seq<int> {
    if s != [] && s[0] == SPACE then SkipSpaces(s[1..]) else s
  }

  function DigitRun(s: seq<int>, base: nat): (n: nat)
    ensures n <= |s|
  {
    if s == [] || !IsDigitIn(s[0], base) then 0 else 1 + DigitRun(s[1..], base)
  }

  function SkipHexPrefix(s: seq<int>, base: nat): seq<int> {
    if base == 16 && [ZERO, LOWER_X] <= s then s[2..] else s
  }

  function Magnitude(s: seq<int>, base: nat): int {
    ValueIn(s[..DigitRun(s, base)], base)
  }

  function ReadSigned(s: seq<int>, base: nat): int {
    if s != [] && s[0] == MINUS then -Magnitude(SkipHexPrefix(s[1..], base), base)
    else if s != [] && s[0] == PLUS then Magnitude(SkipHexPrefix(s[1..], base), base)
    else Magnitude(SkipHexPrefix(s, base), base)
  }

  /** The number in a text: spaces, a sign, "0x" in base 16, then digits. */
  function ReadNumber(s: seq<int>, base: nat): int {
    ReadSigned(SkipSpaces(s), base)
  }

  lemma {:induction false} SpacesSkipped(k: int, s: seq<int>)
    requires s == [] || s[0] != SPACE
    ensures SkipSpaces(Times(SPACE, k) + s) == s
    decreases k
  {
    if k <= 0 {
      assert Times(SPACE, k) + s == s;
    } else {
      assert (Times(SPACE, k) + s)[1..] == Times(SPACE, k - 1) + s;
      SpacesSkipped(k - 1, s);
    }
  }

  lemma {:induction false} RunOf(d: seq<int>, rest: seq<int>, base: nat)
    requires (forall i :: 0 <= i < |d| ==> IsDigitIn(d[i], base)) && (rest == [] || !IsDigitIn(rest[0], base))
    ensures DigitRun(d + rest, base) == |d|
    decreases |d|
  {
    if d == [] {
      assert d + rest == rest;
    } else {
      assert (d + rest)[1..] == d[1..] + rest;
      RunOf(d[1..], rest, base);
    }
  }

  lemma {:induction false} LeadingZeros(k: int, d: seq<int>, base: nat)
    ensures ValueIn(Times(ZERO, k) + d, base) == ValueIn(d, base)
    decreases |d|, k
  {
    var s := Times(ZERO, k) + d;
    if d != [] {
      assert s[..|s| - 1] == Times(ZERO, k) + d[..|d| - 1];
      LeadingZeros(k, d[..|d| - 1], base);
    } else if k > 0 {
      assert s[..|s| - 1] == Times(ZERO, k - 1) + d;
      LeadingZeros(k - 1, d, base);
    } else {
      assert s == [];
    }
  }

  /** Zeros, the numeral, and spaces behind it: the value is that of the numeral. */
  lemma MagnitudeOf(k: int, num: nat, base: nat, upper: bool, trailing: int)
    requires 2 <= base <= 16
    ensures Magnitude(Times(ZERO, k) + Numeral(num, base, upper) + Times(SPACE, trailing), base) == num
  {
    var d: seq<int> := Times(ZERO, k) + Numeral(num, base, upper);
    var rest := Times(SPACE, trailing);
    NumeralMeans(num, base, upper);
    hide Numeral, ValueIn;
    RunOf(d, rest, base);
    assert (d + rest)[..|d|] == d;
    LeadingZeros(k, Numeral(num, base, upper), base);
  }

  /** No numeral, with zeros in front and spaces behind, is taken for a "0x" prefix. */
  lemma NoPrefixSeen(k: int, num: nat, base: nat, upper: bool, trailing: int)
    requires 2 <= base <= 16
    ensures var s := Times(ZERO, k) + Numeral(num, base, upper) + Times(SPACE, trailing);
            s != [] && s[0] != SPACE && s[0] != MINUS && s[0] != PLUS && SkipHexPrefix(s, base) == s
  {
    var d := Numeral(num, base, upper);
    var s: seq<int> := Times(ZERO, k) + d + Times(SPACE, trailing);
    NumeralMeans(num, base, upper);
    hide Numeral;
    assert IsDigitIn(d[0], base) && s[0] == (if k > 0 then ZERO else d[0]);
    if |s| > 1 {
      assert s[1] == (if 1 < k then ZERO else if 1 < |Times(ZERO, k)| + |d| then d[1 - |Times(ZERO, k)|] else SPACE);
    }
  }

  /** Behind the sign, prefix or not, the magnitude is read. */
  lemma AfterSign(sharp: bool, k: int, num: nat, base: nat, upper: bool, trailing: int)
    requires 2 <= base <= 16
    ensures var s := Prefix(sharp, num, base) + (Times(ZERO, k) + Numeral(num, base, upper) + Times(SPACE, trailing));
            s != [] && s[0] != SPACE && s[0] != MINUS && s[0] != PLUS && Magnitude(SkipHexPrefix(s, base), base) == num
  {
    var t: seq<int> := Times(ZERO, k) + Numeral(num, base, upper) + Times(SPACE, trailing);
    var prefix := Prefix(sharp, num, base);
    MagnitudeOf(k, num, base, upper, trailing);
    NoPrefixSeen(k, num, base, upper, trailing);
    if prefix == [] {
      assert prefix + t == t;
    } else if base == 16 {
      assert (prefix + t)[..2] == prefix && (prefix + t)[2..] == t;
    } else {
      OctalPrefix(k, num, upper, trailing);
    }
  }

  lemma OctalPrefix(k: int, num: nat, upper: bool, trailing: int)
    ensures Magnitude([ZERO] + (Times(ZERO, k) + Numeral(num, 8, upper) + Times(SPACE, trailing)), 8) == num
  {
    var j := if k > 0 then k + 1 else 1;
    MagnitudeOf(j, num, 8, upper, trailing);
    ZeroInFront(k, j, Numeral(num, 8, upper), Times(SPACE, trailing));
  }

  lemma ZeroInFront(k: int, j: int, digits: seq<int>, rest: seq<int>)
    requires j == if k > 0 then k + 1 else 1
    ensures [ZERO] + (Times(ZERO, k) + digits + rest) == Times(ZERO, j) + digits + rest
  {
    assert [ZERO] + Times(ZERO, k) == Times(ZERO, j);
    hide Times;
    assert [ZERO] + (Times(ZERO, k) + digits + rest) == ([ZERO] + Times(ZERO, k)) + digits + rest;
  }

  /** The sign characters the source uses, with the factor they stand for. */
  ghost predicate SignMeans(sign: seq<int>, factor: int) {
    ((sign == [] || sign == [PLUS]) && factor == 1) || (sign == [MINUS] && factor == -1)
  }

  /** Whatever the flags, width and precision: the text reads back to the number. */
  lemma RenderedReadsBack(l: Layout, sign: seq<int>, factor: int, num: nat, base: nat, upper: bool)
    requires 2 <= base <= 16 && SignMeans(sign, factor)
    ensures ReadNumber(Rendered(l, sign, num, base, upper), base) == factor * num
  {
    var prefix := Prefix(l.sharp, num, base);
    var digits := Numeral(num, base, upper);
    var k := DigitsWanted(l, |sign + prefix|) - |digits|;
    var body := sign + prefix + Times(ZERO, k) + digits;
    var pad := l.width - |body|;
    var trailing := if l.left then pad else 0;
    var t := prefix + (Times(ZERO, k) + digits + Times(SPACE, trailing));
    AfterSign(l.sharp, k, num, base, upper, trailing);
    var lead := if l.left then 0 else pad;
    RenderedShape(l, sign, num, base, upper, k, lead, trailing);
    hide *;
    ReadWithSign(sign, factor, t, num, base);
    SpacesSkipped(lead, sign + t);
    ReadsWithoutSpaces(Rendered(l, sign, num, base, upper), sign + t, base);
  }

  lemma ReadsWithoutSpaces(s: seq<int>, t: seq<int>, base: nat)
    requires SkipSpaces(s) == t
    ensures ReadNumber(s, base) == ReadSigned(t, base)
  {
  }

  lemma ReadWithSign(sign: seq<int>, factor: int, t: seq<int>, num: nat, base: nat)
    requires SignMeans(sign, factor) && t != [] && t[0] != SPACE && t[0] != MINUS && t[0] != PLUS
    requires Magnitude(SkipHexPrefix(t, base), base) == num
    ensures sign + t != [] && (sign + t)[0] != SPACE && ReadSigned(sign + t, base) == factor * num
  {
    hide Magnitude, SkipHexPrefix;
    if sign == [] {
      assert sign + t == t;
    } else {
      assert (sign + t)[1..] == t;
    }
  }

  lemma RenderedShape(l: Layout, sign: seq<int>, num: nat, base: nat, upper: bool, k: int, lead: int, trailing: int)
    requires 2 <= base <= 16
    requires k == DigitsWanted(l, |sign + Prefix(l.sharp, num, base)|) - |Numeral(num, base, upper)|
    requires var pad := l.width - |sign + Prefix(l.sharp, num, base) + Times(ZERO, k) + Numeral(num, base, upper)|;
             if l.left then lead == 0 && trailing == pad else lead == pad && trailing == 0
    ensures Rendered(l, sign, num, base, upper)
         == Times(SPACE, lead) + (sign + (Prefix(l.sharp, num, base) + (Times(ZERO, k) + Numeral(num, base, upper) + Times(SPACE, trailing))))
  {
    hide Numeral, Prefix, DigitsWanted;
    var prefix, d: seq<int> := Prefix(l.sharp, num, base), Numeral(num, base, upper);
    var zeros := Times(ZERO, k);
    var blank, behind := Times(SPACE, lead), Times(SPACE, trailing);
    assert lead == 0 ==> blank == [];
    assert trailing == 0 ==> behind == [];
    hide Times;
    Regroup(sign, prefix, zeros, d, behind);
    if l.left {
      assert blank + (sign + (prefix + (zeros + d + behind))) == sign + (prefix + (zeros + d + behind));
    } else {
      assert (sign + prefix + zeros + d) + behind == sign + prefix + zeros + d;
    }
  }

  lemma Regroup(a: seq<int>, b: seq<int>, c: seq<int>, d: seq<int>, e: seq<int>)
    ensures (a + b + c + d) + e == a + (b + (c + d + e))
  {
  }
}
