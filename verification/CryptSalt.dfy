/**
 The salt string of the SHA formats of crypt (crypt_sha256_r and crypt_sha512_r in
 cpukit/libcrypt): the parser of salt and rounds, and the head of the result that the parser
 reads back.
 */
module CryptSalt {
  import opened Alphabets
  import opened Bytes
  import opened Decimals

  const DOLLAR: byte := 36

  const SALT_LEN_MAX := 16
  const ROUNDS_DEFAULT := 5000
  const ROUNDS_MIN := 1000
  const ROUNDS_MAX := 999999999
  const ULONG_MAX := 0xFFFF_FFFF_FFFF_FFFF

  // "rounds="
  const ROUNDS_PREFIX: seq<byte> := [114, 111, 117, 110, 100, 115, 61]

  /** The result of strtoul in base 10 and how many characters it took: none without a digit. */
  datatype Number = Number(value: nat, length: nat)

  function SignLength(s: seq<byte>): (n: nat)
    ensures n <= |s|
  {
    if s != [] && (s[0] == PLUS || s[0] == MINUS) then 1 else 0
  }

  function Strtoul(s: seq<byte>): (r: Number)
    ensures r.length <= |s| && r.value <= ULONG_MAX
  {
    var t := s[Spaces(s)..];
    var k := SignLength(t);
    FromDigits(t[k..], k > 0 && t[0] == MINUS, Spaces(s) + k)
  }

  /** The number at the head of `t`, behind `skipped` characters. */
  function FromDigits(t: seq<byte>, minus: bool, skipped: nat): (r: Number)
    ensures r.length <= skipped + |t| && r.value <= ULONG_MAX
  {
    var n := Digits(t);
    if n == 0 then Number(0, 0) else Number(Saturated(Value(t[..n]), minus), skipped + n)
  }

  /** A number in range, or the largest one; a minus sign negates modulo 2^64. */
  function Saturated(v: nat, minus: bool): (u: nat)
    ensures u <= ULONG_MAX && (!minus && v <= ULONG_MAX ==> u == v)
  {
    if v > ULONG_MAX then ULONG_MAX else if minus && v > 0 then ULONG_MAX + 1 - v else v
  }

  /** The length of the text before the first dollar sign. */
  function Span(s: seq<byte>): (n: nat)
    ensures n <= |s| && DOLLAR !in s[..n] && (n < |s| ==> s[n] == DOLLAR)
  {
    if s == [] || s[0] == DOLLAR then 0
    else
      var n := 1 + Span(s[1..]);
      assert s[..n] == [s[0]] + s[1..][..n - 1];
      n
  }

  function Min(a: int, b: int): int { if a < b then a else b }

  function Clamp(rounds: nat): (r: nat)
    ensures ROUNDS_MIN <= r <= ROUNDS_MAX && (ROUNDS_MIN <= rounds <= ROUNDS_MAX ==> r == rounds)
  {
    if rounds < ROUNDS_MIN then ROUNDS_MIN else if rounds > ROUNDS_MAX then ROUNDS_MAX else rounds
  }

  datatype Salt = Salt(text: seq<byte>, rounds: nat, custom: bool)

  /** Behind the magic prefix, which may be missing. */
  function SkipPrefix(prefix: seq<byte>, s: seq<byte>): seq<byte> {
    if prefix <= s then s[|prefix|..] else s
  }

  function SaltText(s: seq<byte>): (t: seq<byte>)
    ensures |t| <= SALT_LEN_MAX && DOLLAR !in t
  {
    var n := Min(Span(s), SALT_LEN_MAX);
    assert s[..n] == s[..Span(s)][..n];
    s[..n]
  }

  /** A rounds specification: "rounds=", a number as strtoul reads it, and a dollar sign right behind it. */
  predicate HasRounds(s: seq<byte>) {
    ROUNDS_PREFIX <= s
    && var num := s[|ROUNDS_PREFIX|..];
       var n := Strtoul(num).length;
       n < |num| && num[n] == DOLLAR
  }

  function ParseBody(s: seq<byte>): (r: Salt)
    ensures ROUNDS_MIN <= r.rounds <= ROUNDS_MAX && |r.text| <= SALT_LEN_MAX && DOLLAR !in r.text
    ensures !r.custom ==> r.rounds == ROUNDS_DEFAULT
  {
    if HasRounds(s) then
      var num := s[|ROUNDS_PREFIX|..];
      var n := Strtoul(num);
      Salt(SaltText(num[n.length + 1..]), Clamp(n.value), true)
    else Salt(SaltText(s), ROUNDS_DEFAULT, false)
  }

  /** Where the salt text starts: behind the prefix and a rounds specification. */
  function SaltStart(prefix: seq<byte>, s: seq<byte>): (rest: seq<byte>)
    ensures |rest| <= |s|
  {
    var body := SkipPrefix(prefix, s);
    if HasRounds(body) then
      var num := body[|ROUNDS_PREFIX|..];
      num[Strtoul(num).length + 1..]
    else body
  }

  function Parse(prefix: seq<byte>, s: seq<byte>): Salt {
    ParseBody(SkipPrefix(prefix, s))
  }

  // ------------------------------------------------------------- the head of the result

  function RoundsText(s: Salt): seq<byte> {
    if s.custom then ROUNDS_PREFIX + Decimal(s.rounds) + [DOLLAR] else []
  }

  function Head(prefix: seq<byte>, s: Salt): seq<byte> {
    prefix + RoundsText(s) + s.text + [DOLLAR]
  }

  // ------------------------------------------------------------- the number is read back

  lemma PrintedNumber(n: nat, rest: seq<byte>)
    requires n <= ULONG_MAX
    ensures Strtoul(Decimal(n) + [DOLLAR] + rest) == Number(n, |Decimal(n)|)
  {
    var d := Decimal(n);
    var s := d + [DOLLAR] + rest;
    assert s == d + ([DOLLAR] + rest);
    assert IsDigit(d[0]) && s[0] == d[0];
    assert s[0..] == s;
    DecimalValue(n);
    DigitsRead(d, [DOLLAR] + rest, false, 0);
    hide FromDigits, Decimal, Value;
  }

  lemma DigitsRead(d: seq<byte>, rest: seq<byte>, minus: bool, skipped: nat)
    requires d != [] && (forall i :: 0 <= i < |d| ==> IsDigit(d[i])) && (rest == [] || !IsDigit(rest[0]))
    ensures FromDigits(d + rest, minus, skipped) == Number(Saturated(Value(d), minus), skipped + |d|)
  {
    hide Value, Saturated;
    DigitsThenStop(d, rest);
    assert (d + rest)[..|d|] == d;
  }

  // ------------------------------------------------------------- strtoul stops at a dollar sign

  lemma {:induction false} SpacesBeforeDollar(x: seq<byte>, y: seq<byte>)
    ensures Spaces(x + [DOLLAR] + y) == Spaces(x)
    decreases |x|
  {
    var s := x + [DOLLAR] + y;
    if x == [] {
      assert s[0] == DOLLAR;
    } else {
      assert s[1..] == x[1..] + [DOLLAR] + y;
      SpacesBeforeDollar(x[1..], y);
    }
  }

  lemma {:induction false} DigitsBeforeDollar(x: seq<byte>, y: seq<byte>)
    ensures Digits(x + [DOLLAR] + y) == Digits(x)
    decreases |x|
  {
    var s := x + [DOLLAR] + y;
    if x == [] {
      assert s[0] == DOLLAR;
    } else {
      assert s[1..] == x[1..] + [DOLLAR] + y;
      DigitsBeforeDollar(x[1..], y);
    }
  }

  lemma StrtoulBeforeDollar(x: seq<byte>, y: seq<byte>)
    ensures Strtoul(x + [DOLLAR] + y) == Strtoul(x)
  {
    hide Spaces, SignLength, FromDigits;
    var s, w := x + [DOLLAR] + y, Spaces(x);
    SpacesBeforeDollar(x, y);
    SignBeforeDollar(x[w..], y);
    assert s[w..] == x[w..] + [DOLLAR] + y;
    var k := SignLength(x[w..]);
    assert s[w..][k..] == x[w..][k..] + [DOLLAR] + y;
    DigitsEndAtDollar(x[w..][k..], y, k > 0 && x[w] == MINUS, w + k);
  }

  lemma DigitsEndAtDollar(x: seq<byte>, y: seq<byte>, minus: bool, skipped: nat)
    ensures FromDigits(x + [DOLLAR] + y, minus, skipped) == FromDigits(x, minus, skipped)
  {
    hide Value, Saturated, Digits;
    DigitsBeforeDollar(x, y);
    var n := Digits(x);
    assert (x + [DOLLAR] + y)[..n] == x[..n];
  }

  lemma SignBeforeDollar(x: seq<byte>, y: seq<byte>)
    ensures SignLength(x + [DOLLAR] + y) == SignLength(x)
  {
    assert x == [] ==> (x + [DOLLAR] + y)[0] == DOLLAR;
  }

  // ------------------------------------------------------------- the head is read back

  /** A salt text that, with a dollar sign behind it, is a rounds specification. */
  predicate LooksLikeRounds(text: seq<byte>) {
    ROUNDS_PREFIX <= text && Strtoul(text[|ROUNDS_PREFIX|..]).length == |text| - |ROUNDS_PREFIX|
  }

  /**
   The salts whose result cannot be read back: no rounds were recognized in them, but the part of
   them that is kept, up to sixteen characters, is "rounds=" and nothing but a number, or nothing.
   */
  predicate Ambiguous(prefix: seq<byte>, s: seq<byte>) {
    var p := Parse(prefix, s);
    !p.custom && LooksLikeRounds(p.text)
  }

  lemma {:induction false} SpanAt(text: seq<byte>, tail: seq<byte>)
    requires DOLLAR !in text
    ensures Span(text + [DOLLAR] + tail) == |text|
    decreases |text|
  {
    var s := text + [DOLLAR] + tail;
    if text == [] {
      assert s[0] == DOLLAR;
    } else {
      assert s[1..] == text[1..] + [DOLLAR] + tail;
      SpanAt(text[1..], tail);
    }
  }

  lemma SaltTextAt(text: seq<byte>, tail: seq<byte>)
    requires DOLLAR !in text && |text| <= SALT_LEN_MAX
    ensures SaltText(text + [DOLLAR] + tail) == text
  {
    SpanAt(text, tail);
  }

  lemma RoundsPrefixOf(text: seq<byte>, tail: seq<byte>)
    ensures ROUNDS_PREFIX <= text + [DOLLAR] + tail <==> ROUNDS_PREFIX <= text
  {
    var s := text + [DOLLAR] + tail;
    if |text| < |ROUNDS_PREFIX| {
      assert s[|text|] == DOLLAR && ROUNDS_PREFIX[|text|] != DOLLAR;
    }
  }

  lemma PlainHasRounds(text: seq<byte>, tail: seq<byte>)
    requires DOLLAR !in text
    ensures HasRounds(text + [DOLLAR] + tail) <==> LooksLikeRounds(text)
  {
    hide Strtoul;
    var s := text + [DOLLAR] + tail;
    RoundsPrefixOf(text, tail);
    if ROUNDS_PREFIX <= text {
      var x := text[|ROUNDS_PREFIX|..];
      assert s[|ROUNDS_PREFIX|..] == x + [DOLLAR] + tail;
      StrtoulBeforeDollar(x, tail);
      var n := Strtoul(x).length;
      if n < |x| {
        assert (x + [DOLLAR] + tail)[n] == x[n] && x[n] in text;
      }
    }
  }

  lemma CustomParsed(rounds: nat, rest: seq<byte>)
    requires ROUNDS_MIN <= rounds <= ROUNDS_MAX
    ensures ParseBody(ROUNDS_PREFIX + (Decimal(rounds) + [DOLLAR] + rest)) == Salt(SaltText(rest), rounds, true)
  {
    hide Strtoul, SaltText, Decimal;
    var d := Decimal(rounds);
    var num := d + [DOLLAR] + rest;
    var s := ROUNDS_PREFIX + num;
    assert s[|ROUNDS_PREFIX|..] == num;
    PrintedNumber(rounds, rest);
    assert num[|d|] == DOLLAR && num[|d| + 1..] == rest;
  }

  lemma PlainParsed(s: seq<byte>)
    ensures ParseBody(s).custom == HasRounds(s)
    ensures !HasRounds(s) ==> ParseBody(s) == Salt(SaltText(s), ROUNDS_DEFAULT, false)
  {
    hide HasRounds, SaltText;
  }

  /** Reading the head of a result back gives the salt it was made from, unless it is ambiguous. */
  lemma HeadReadBack(p: Salt, tail: seq<byte>)
    requires ROUNDS_MIN <= p.rounds <= ROUNDS_MAX && |p.text| <= SALT_LEN_MAX && DOLLAR !in p.text
    requires !p.custom ==> p.rounds == ROUNDS_DEFAULT
    ensures var s := RoundsText(p) + p.text + [DOLLAR] + tail;
            if p.custom || !LooksLikeRounds(p.text) then ParseBody(s) == p else ParseBody(s).custom
  {
    hide LooksLikeRounds, ParseBody, HasRounds, SaltText, Decimal;
    var s := RoundsText(p) + p.text + [DOLLAR] + tail;
    var rest := p.text + [DOLLAR] + tail;
    SaltTextAt(p.text, tail);
    if p.custom {
      assert s == ROUNDS_PREFIX + (Decimal(p.rounds) + [DOLLAR] + rest);
      CustomParsed(p.rounds, rest);
    } else {
      assert s == rest;
      PlainHasRounds(p.text, tail);
      PlainParsed(s);
    }
  }

  // ------------------------------------------------------------- numbers and salts by character

  predicate Blank(w: seq<byte>) {
    forall i :: 0 <= i < |w| ==> w[i] == 32 || 9 <= w[i] <= 13
  }

  predicate Numeric(d: seq<byte>) {
    forall i :: 0 <= i < |d| ==> 48 <= d[i] <= 57
  }

  lemma {:induction false} SpacesAre(w: seq<byte>, rest: seq<byte>)
    requires Blank(w) && (rest == [] || !Blank([rest[0]]))
    ensures Spaces(w + rest) == |w|
    decreases |w|
  {
    if w == [] {
      assert w + rest == rest;
    } else {
      assert (w + rest)[1..] == w[1..] + rest;
      SpacesAre(w[1..], rest);
    }
  }

  /** A sign, or none for any other character. */
  function Sign(c: byte): seq<byte> {
    if c == '+' as int || c == '-' as int then [c] else []
  }

  /** strtoul: white space, a sign, digits; a value out of range gives the largest number, a minus negates modulo 2^64. */
  lemma StrtoulMeans(w: seq<byte>, c: byte, d: seq<byte>, rest: seq<byte>)
    requires Blank(w) && Numeric(d) && d != [] && (rest == [] || !Numeric([rest[0]]))
    ensures var v := Value(d);
            var magnitude := if v > 18446744073709551615 then 18446744073709551615 else v;
            var negated := c == '-' as int && 0 < v <= 18446744073709551615;
            Strtoul(w + (Sign(c) + (d + rest)))
            == Number(if negated then 18446744073709551616 - v else magnitude, |w| + |Sign(c)| + |d|)
  {
    hide *;
    var t := Sign(c) + (d + rest);
    SignThenDigit(c, d, rest);
    SpacesAre(w, t);
    StrtoulOf(w, t);
    NumberIs(d, rest, c == '-' as int, |w| + |Sign(c)|);
  }

  lemma NumberIs(d: seq<byte>, rest: seq<byte>, minus: bool, skipped: nat)
    requires Numeric(d) && d != [] && (rest == [] || !Numeric([rest[0]]))
    ensures var v := Value(d);
            var magnitude := if v > 18446744073709551615 then 18446744073709551615 else v;
            var negated := minus && 0 < v <= 18446744073709551615;
            FromDigits(d + rest, minus, skipped) == Number(if negated then 18446744073709551616 - v else magnitude, skipped + |d|)
  {
    assert rest != [] ==> [rest[0]][0] == rest[0];
    hide FromDigits, Value;
    DigitsRead(d, rest, minus, skipped);
    SaturatedIs(Value(d), minus);
  }

  lemma SaturatedIs(v: nat, minus: bool)
    ensures Saturated(v, minus)
         == if v > 18446744073709551615 then 18446744073709551615 else if minus && v > 0 then 18446744073709551616 - v else v
  {
  }

  lemma StrtoulOf(w: seq<byte>, t: seq<byte>)
    requires Spaces(w + t) == |w|
    ensures var k := SignLength(t);
            Strtoul(w + t) == FromDigits(t[k..], k > 0 && t[0] == '-' as int, |w| + k)
  {
    hide Spaces, SignLength, FromDigits;
    assert (w + t)[|w|..] == t;
  }

  lemma SignThenDigit(c: byte, d: seq<byte>, rest: seq<byte>)
    requires Numeric(d) && d != []
    ensures var t := Sign(c) + (d + rest);
            && t != [] && !Blank([t[0]]) && SignLength(t) == |Sign(c)| && t[|Sign(c)|..] == d + rest
            && (|Sign(c)| > 0 && t[0] == '-' as int <==> c == '-' as int)
  {
    var t := Sign(c) + (d + rest);
    assert t[0] == (if Sign(c) == [] then d[0] else c);
    assert [t[0]][0] == t[0];
  }

  /** Without a digit behind white space and sign, strtoul takes nothing. */
  lemma StrtoulTakesNothing(w: seq<byte>, c: byte, rest: seq<byte>)
    requires Blank(w) && (rest == [] || !Numeric([rest[0]]))
    requires Sign(c) == [] && rest != [] ==> !Blank([rest[0]]) && Sign(rest[0]) == []
    ensures Strtoul(w + (Sign(c) + rest)) == Number(0, 0)
  {
    hide *;
    NoDigit(c, rest, c == '-' as int, |w| + |Sign(c)|);
    SpacesAre(w, Sign(c) + rest);
    StrtoulOf(w, Sign(c) + rest);
  }

  lemma NoDigit(c: byte, rest: seq<byte>, minus: bool, skipped: nat)
    requires rest == [] || !Numeric([rest[0]])
    requires Sign(c) == [] && rest != [] ==> !Blank([rest[0]]) && Sign(rest[0]) == []
    ensures var t := Sign(c) + rest;
            && (t == [] || !Blank([t[0]])) && SignLength(t) == |Sign(c)| && t[|Sign(c)|..] == rest
            && (|Sign(c)| > 0 && t[0] == '-' as int <==> c == '-' as int)
            && FromDigits(rest, minus, skipped) == Number(0, 0)
  {
    var t := Sign(c) + rest;
    assert Sign(c) == [] ==> t == rest;
    assert t != [] ==> [t[0]][0] == t[0];
    assert rest != [] ==> [rest[0]][0] == rest[0];
  }

  lemma ParseParts(prefix: seq<byte>, s: seq<byte>)
    ensures var p, body := Parse(prefix, s), SkipPrefix(prefix, s);
            && p.text == SaltText(SaltStart(prefix, s)) && p.custom == HasRounds(body)
            && p.rounds == if HasRounds(body) then Clamp(Strtoul(body[|ROUNDS_PREFIX|..]).value) else ROUNDS_DEFAULT
  {
    hide Strtoul, SaltText, Clamp;
  }

  /**
   The parser by character. The salt text runs to the first dollar sign, sixteen characters at most. Rounds are
   given by "rounds=", a number as strtoul reads it and a dollar sign, and are brought into their range; without them
   there are 5000.
   */
  lemma ParseMeans(prefix: seq<byte>, s: seq<byte>)
    ensures var p, rest := Parse(prefix, s), SaltStart(prefix, s);
            var body := if prefix <= s then s[|prefix|..] else s;
            && p.text <= rest && '$' as int !in p.text && |p.text| <= 16
            && (|p.text| == 16 || p.text == rest || rest[|p.text|] == '$' as int)
            && (!p.custom ==> p.rounds == 5000 && rest == body)
            && Spells(ROUNDS_PREFIX, "rounds=")
            && (p.custom <==> ROUNDS_PREFIX <= body && AfterNumber(body[7..]) < |body[7..]| && body[7..][AfterNumber(body[7..])] == '$' as int)
            && (p.custom ==>
                  var v := Strtoul(body[7..]).value;
                  && rest == body[7..][AfterNumber(body[7..]) + 1..]
                  && p.rounds == if v < 1000 then 1000 else if v > 999999999 then 999999999 else v)
  {
    ParseParts(prefix, s);
    SaltTextMeans(SaltStart(prefix, s));
    hide Strtoul, SaltText, Parse;
  }

  lemma SaltTextMeans(rest: seq<byte>)
    ensures var t := SaltText(rest);
            t <= rest && '$' as int !in t && |t| <= 16 && (|t| == 16 || t == rest || rest[|t|] == '$' as int)
  {
    hide Span;
    assert rest[..|rest|] == rest;
  }

  function AfterNumber(s: seq<byte>): (n: nat)
    ensures n <= |s|
  {
    Strtoul(s).length
  }
}
