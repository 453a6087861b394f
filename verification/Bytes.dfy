/** Bytes as small integers, white space, and the bitwise or the source uses to merge bit groups. */
module Bytes {
  type byte = x: int | 0 <= x < 256

  const INT_MAX := 0x7FFF_FFFF

  const LF: byte := 10
  const CR: byte := 13
  const PLUS: byte := 43
  const MINUS: byte := 45

  /** The value of a 32-bit unsigned word converted to a signed one. */
  function ToInt32(x: int): (r: int)
    ensures 0 <= x <= INT_MAX ==> r == x
  {
    var u := x % 0x1_0000_0000;
    if u > INT_MAX then u - 0x1_0000_0000 else u
  }

  /** isspace in the C locale. */
  predicate IsSpace(c: byte) {
    c == 32 || 9 <= c <= 13
  }

  /** How many white-space characters a text starts with. */
  function Spaces(t: seq<byte>): (n: nat)
    ensures n <= |t|
  {
    if t == [] || !IsSpace(t[0]) then 0 else 1 + Spaces(t[1..])
  }

  function Or(a: nat, b: nat): nat {
    if a == 0 then b
    else if b == 0 then a
    else 2 * Or(a / 2, b / 2) + (if a % 2 == 1 || b % 2 == 1 then 1 else 0)
  }

  function Pow2(k: nat): (p: nat)
    ensures p >= 1
  {
    if k == 0 then 1 else 2 * Pow2(k - 1)
  }

  /** Or of a multiple of 2^k and a number below 2^k is their sum. */
  lemma {:induction false} OrDisjoint(high: nat, low: nat, k: nat)
    requires low < Pow2(k)
    ensures Or(high * Pow2(k), low) == high * Pow2(k) + low
    decreases k
  {
    if k != 0 && low != 0 && high != 0 {
      var a := high * Pow2(k);
      assert a == 2 * (high * Pow2(k - 1));
      OrDisjoint(high, low / 2, k - 1);
    }
  }

  lemma {:induction false} OrBound(a: nat, b: nat, k: nat)
    requires a < Pow2(k) && b < Pow2(k)
    ensures Or(a, b) < Pow2(k)
    decreases k
  {
    if k != 0 && a != 0 && b != 0 {
      OrBound(a / 2, b / 2, k - 1);
    }
  }

  lemma OrShifted(high: nat, low: nat)
    ensures low < 4 ==> Or(high * 4, low) == high * 4 + low
    ensures low < 16 ==> Or(high * 16, low) == high * 16 + low
    ensures low < 64 ==> Or(high * 64, low) == high * 64 + low
  {
    assert Pow2(2) == 4;
    assert Pow2(4) == 4 * Pow2(2);
    assert Pow2(6) == 4 * Pow2(4);
    hide Or, Pow2;
    if low < 4 {
      OrDisjoint(high, low, 2);
    }
    if low < 16 {
      OrDisjoint(high, low, 4);
    }
    if low < 64 {
      OrDisjoint(high, low, 6);
    }
  }
}
