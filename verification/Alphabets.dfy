/** Strings of characters as the sources spell them, and the bytes they stand for. */
module Alphabets {
  import opened Bytes

  const UPPER := "ABCDEFGHIJKLMNOPQRSTUVWXYZ"
  const LOWER := "abcdefghijklmnopqrstuvwxyz"
  const DIGITS := "0123456789"

  /** The bytes are those of the string. */
  predicate Spells(bytes: seq<byte>, text: string) {
    |bytes| == |text| && forall i :: 0 <= i < |text| ==> bytes[i] == text[i] as int
  }

  lemma Thirteen(i: int, base: int)
    requires base <= i < base + 13
    ensures i == base || i == base + 1 || i == base + 2 || i == base + 3 || i == base + 4 || i == base + 5 || i == base + 6
         || i == base + 7 || i == base + 8 || i == base + 9 || i == base + 10 || i == base + 11 || i == base + 12
  {
  }

  lemma UpperAt(i: nat)
    requires i < 26
    ensures |UPPER| == 26 && UPPER[i] as int == 65 + i
  {
    Thirteen(i, if i < 13 then 0 else 13);
  }

  lemma LowerAt(i: nat)
    requires i < 26
    ensures |LOWER| == 26 && LOWER[i] as int == 97 + i
  {
    Thirteen(i, if i < 13 then 0 else 13);
  }

  lemma DigitAt(i: nat)
    requires i < 10
    ensures |DIGITS| == 10 && DIGITS[i] as int == 48 + i
  {
    Thirteen(i, 0);
  }

  /** A character of four strings one behind the other. */
  lemma JoinedAt(a: string, b: string, c: string, d: string, i: nat)
    requires i < |a| + |b| + |c| + |d|
    ensures |a + b + c + d| == |a| + |b| + |c| + |d|
    ensures i < |a| ==> (a + b + c + d)[i] == a[i]
    ensures |a| <= i < |a| + |b| ==> (a + b + c + d)[i] == b[i - |a|]
    ensures |a| + |b| <= i < |a| + |b| + |c| ==> (a + b + c + d)[i] == c[i - |a| - |b|]
    ensures |a| + |b| + |c| <= i ==> (a + b + c + d)[i] == d[i - |a| - |b| - |c|]
  {
  }

  lemma AlphabetSizes()
    ensures |UPPER| == |LOWER| == 26 && |DIGITS| == 10
  {
  }
}
