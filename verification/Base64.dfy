/**
 The encoding of sections 4 and 5 of RFC 4648: the sextets of a byte sequence, the two
 alphabets, and the padded text without line breaks.
 */
module Base64 {
  import opened Bytes
  import opened Alphabets

  type sextet = x: int | 0 <= x < 64

  const PAD_CHAR: byte := 61

  /** What a character means to the decoder. */
  datatype Symbol = Sextet(v: sextet) | Space | Pad | Invalid

  function Encoding(s: sextet, url: bool): (c: byte) {
    if s < 26 then 65 + s
    else if s < 52 then 97 + s - 26
    else if s < 62 then 48 + s - 52
    else if s == 62 then (if url then 45 else 43)
    else if url then 95 else 47
  }

  function Decoding(c: byte): Symbol {
    if 65 <= c <= 90 then Sextet(c - 65)
    else if 97 <= c <= 122 then Sextet(c - 97 + 26)
    else if 48 <= c <= 57 then Sextet(c - 48 + 52)
    else if c == 43 || c == 45 then Sextet(62)
    else if c == 47 || c == 95 then Sextet(63)
    else if c == PAD_CHAR then Pad
    else if c == 32 || 9 <= c <= 13 then Space
    else Invalid
  }

  // The alphabets of the two encoders, in order.
  const ALPHABET := UPPER + LOWER + DIGITS + "+/"
  const URL_ALPHABET := UPPER + LOWER + DIGITS + "-_"

  /** The characters of the encoders are those of their alphabets. */
  lemma EncodingIs(s: sextet, url: bool)
    ensures |ALPHABET| == |URL_ALPHABET| == 64
    ensures Encoding(s, url) == (if url then URL_ALPHABET else ALPHABET)[s] as int
  {
    hide UPPER, LOWER, DIGITS;
    AlphabetSizes();
    JoinedAt(UPPER, LOWER, DIGITS, "+/", s);
    JoinedAt(UPPER, LOWER, DIGITS, "-_", s);
    if s < 26 {
      UpperAt(s);
    } else if s < 52 {
      LowerAt(s - 26);
    } else if s < 62 {
      DigitAt(s - 52);
    }
  }

  /**
   What the decoder makes of a character: its place in either alphabet, a pad for an equals sign, a
   space for one of the six white-space characters, and nothing else.
   */
  lemma DecodingIs(c: byte, v: sextet)
    ensures Decoding(c) == Sextet(v) <==> c == Encoding(v, false) || c == Encoding(v, true)
    ensures Decoding(c) == Pad <==> c == '=' as int
    ensures Decoding(c) == Space <==> c in [' ' as int, '\t' as int, '\n' as int, 11, 12, '\r' as int]
    ensures c >= 128 ==> Decoding(c) == Invalid
  {
  }

  lemma DecodingInvertsEncoding(s: sextet, url: bool)
    ensures Decoding(Encoding(s, url)) == Sextet(s)
  {
  }

  /** Digit `k` (0 leading) of a 24-bit group read in base 64. */
  function Digit(a: byte, b: byte, c: byte, k: nat): sextet
    requires k < 4
  {
    var v := (a * 256 + b) * 256 + c;
    if k == 0 then v / 64 / 64 / 64 else if k == 1 then v / 64 / 64 % 64 else if k == 2 then v / 64 % 64 else v % 64
  }

  /** Every three bytes are four base-64 digits; a short group is filled with zero bits and cut. */
  function Sextets(src: seq<byte>): (d: seq<sextet>) {
    if |src| == 0 then []
    else if |src| == 1 then [Digit(src[0], 0, 0, 0), Digit(src[0], 0, 0, 1)]
    else if |src| == 2 then [Digit(src[0], src[1], 0, 0), Digit(src[0], src[1], 0, 1), Digit(src[0], src[1], 0, 2)]
    else
      var a, b, c := src[0], src[1], src[2];
      [Digit(a, b, c, 0), Digit(a, b, c, 1), Digit(a, b, c, 2), Digit(a, b, c, 3)] + Sextets(src[3..])
  }

  function Letters(d: seq<sextet>, url: bool): (t: seq<byte>)
    ensures |t| == |d| && forall i :: 0 <= i < |d| ==> t[i] == Encoding(d[i], url)
  {
    seq(|d|, i requires 0 <= i < |d| => Encoding(d[i], url))
  }

  function Padding(n: nat): (p: seq<byte>)
    ensures |p| <= 2 && forall i :: 0 <= i < |p| ==> p[i] == PAD_CHAR
  {
    if n % 3 == 1 then [PAD_CHAR, PAD_CHAR] else if n % 3 == 2 then [PAD_CHAR] else []
  }

  /** The padded text of a byte sequence, on one line. */
  function Text(src: seq<byte>, url: bool): seq<byte> {
    Letters(Sextets(src), url) + Padding(|src|)
  }

  lemma LastDigit(high: nat, low: sextet)
    ensures (high * 64 + low) % 64 == low && (high * 64 + low) / 64 == high
  {
  }

  lemma DigitsOfThree(a: byte, b: byte, c: byte)
    ensures Digit(a, b, c, 0) == a / 4 && Digit(a, b, c, 1) == a % 4 * 16 + b / 16
    ensures Digit(a, b, c, 2) == b % 16 * 4 + c / 64 && Digit(a, b, c, 3) == c % 64
  {
    var d0, d1, d2, d3 := a / 4, a % 4 * 16 + b / 16, b % 16 * 4 + c / 64, c % 64;
    assert (a * 256 + b) * 256 + c == ((d0 * 64 + d1) * 64 + d2) * 64 + d3;
    LastDigit((d0 * 64 + d1) * 64 + d2, d3);
    LastDigit(d0 * 64 + d1, d2);
    LastDigit(d0, d1);
  }
}
