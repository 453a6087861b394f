/**
 The 6-bit text of a digest in crypt (_crypt_to64 and b64_from_24bit in cpukit/libcrypt/misc.c):
 groups of digest bytes, four characters for three bytes, least significant sextet first.
 */
module CryptPack {
  import opened Bytes
  import opened Alphabets
  import opened Divisions

  // "./0123456789ABCDEFGHIJKLMNOPQRSTUVWXYZabcdefghijklmnopqrstuvwxyz"
  function Itoa64(v: nat): (c: byte)
    requires v < 64
    ensures c != 0 && c != 36
  {
    if v < 2 then 46 + v
    else if v < 12 then 48 + v - 2
    else if v < 38 then 65 + v - 12
    else 97 + v - 38
  }

  const ITOA64 := "./" + DIGITS + UPPER + LOWER

  lemma Itoa64Is(v: nat)
    requires v < 64
    ensures |ITOA64| == 64 && Itoa64(v) == ITOA64[v] as int
  {
    hide UPPER, LOWER, DIGITS;
    AlphabetSizes();
    JoinedAt("./", DIGITS, UPPER, LOWER, v);
    if 2 <= v < 12 {
      DigitAt(v - 2);
    } else if 12 <= v < 38 {
      UpperAt(v - 12);
    } else if 38 <= v {
      LowerAt(v - 38);
    }
  }

  lemma Itoa64Injective(v: nat, w: nat)
    requires v < 64 && w < 64 && Itoa64(v) == Itoa64(w)
    ensures v == w
  {
  }

  /** `n` sextets of `w`, least significant first. */
  function To64(w: nat, n: nat): (t: seq<byte>)
    ensures |t| == n && forall i :: 0 <= i < n ==> t[i] != 0 && t[i] != 36
  {
    if n == 0 then [] else [Itoa64(w % 64)] + To64(w / 64, n - 1)
  }

  function Pow64(n: nat): (p: nat)
    ensures p >= 1
  {
    if n == 0 then 1 else 64 * Pow64(n - 1)
  }

  lemma To64Step(w: nat, n: nat)
    requires n > 0
    ensures To64(w, n)[0] == Itoa64(w % 64) && To64(w, n)[1..] == To64(w / 64, n - 1)
  {
    hide Itoa64;
  }

  /** Digit `i` of a number in base 64, counted from the lowest. */
  function Sextet(w: nat, i: nat): (v: nat)
    ensures v < 64
  {
    w / Pow64(i) % 64
  }

  lemma NextSextet(w: nat, i: nat)
    ensures Sextet(w, 0) == w % 64 && Sextet(w, i + 1) == Sextet(w / 64, i)
  {
    DivideTwice(w, 64, Pow64(i));
  }

  /** Character `i` stands for the `i`-th digit of the number in base 64, counted from the lowest. */
  lemma {:induction false} To64At(w: nat, n: nat, i: nat)
    requires i < n
    ensures |ITOA64| == 64 && To64(w, n)[i] == ITOA64[Sextet(w, i)] as int
  {
    hide *;
    To64Step(w, n);
    NextSextet(w, if i == 0 then 0 else i - 1);
    if i == 0 {
      Itoa64Is(w % 64);
    } else {
      To64At(w / 64, n - 1, i - 1);
      assert To64(w, n)[i] == To64(w, n)[1..][i - 1];
    }
  }

  lemma {:induction false} To64Injective(v: nat, w: nat, n: nat)
    requires v < Pow64(n) && w < Pow64(n) && To64(v, n) == To64(w, n)
    ensures v == w
  {
    if n != 0 {
      assert To64(v, n)[0] == Itoa64(v % 64) && To64(w, n)[0] == Itoa64(w % 64);
      Itoa64Injective(v % 64, w % 64);
      assert To64(v, n)[1..] == To64(v / 64, n - 1) && To64(w, n)[1..] == To64(w / 64, n - 1);
      To64Injective(v / 64, w / 64, n - 1);
    }
  }

  // ------------------------------------------------------------- groups

  /** Three digest bytes, the first the most significant, and how many characters they take; -1 is a zero byte. */
  datatype Group = Group(b2: int, b1: int, b0: int, n: nat)

  function ByteAt(d: seq<byte>, i: int): (b: byte)
    requires i < |d|
  {
    if i < 0 then 0 else d[i]
  }

  predicate Fits(g: Group, size: nat) {
    && g.b2 < size && g.b1 < size && 0 <= g.b0 < size && 2 <= g.n <= 4
    && (g.n <= 3 ==> g.b2 < 0) && (g.n <= 2 ==> g.b1 < 0)
  }

  function Merged(b2: byte, b1: byte, b0: byte): nat {
    b2 * 65536 + b1 * 256 + b0
  }

  function PackGroup(g: Group, d: seq<byte>): (t: seq<byte>)
    requires Fits(g, |d|)
    ensures |t| == g.n && forall i :: 0 <= i < |t| ==> t[i] != 0 && t[i] != 36
  {
    To64(Merged(ByteAt(d, g.b2), ByteAt(d, g.b1), ByteAt(d, g.b0)), g.n)
  }

  function Length(groups: seq<Group>): nat {
    if groups == [] then 0 else Length(groups[..|groups| - 1]) + groups[|groups| - 1].n
  }

  function Pack(groups: seq<Group>, d: seq<byte>): (t: seq<byte>)
    requires forall i :: 0 <= i < |groups| ==> Fits(groups[i], |d|)
    ensures |t| == Length(groups) && forall i :: 0 <= i < |t| ==> t[i] != 0 && t[i] != 36
  {
    if groups == [] then []
    else Pack(groups[..|groups| - 1], d) + PackGroup(groups[|groups| - 1], d)
  }

  lemma MergedInjective(a2: byte, a1: byte, a0: byte, b2: byte, b1: byte, b0: byte)
    requires Merged(a2, a1, a0) == Merged(b2, b1, b0)
    ensures a2 == b2 && a1 == b1 && a0 == b0
  {
  }

  /** A group is the number with its three bytes, the first the most significant, in base 64. */
  lemma PackGroupAt(g: Group, d: seq<byte>, i: nat)
    requires Fits(g, |d|) && i < g.n
    ensures |ITOA64| == 64
    ensures var high, middle: int := if g.b2 < 0 then 0 else d[g.b2], if g.b1 < 0 then 0 else d[g.b1];
            var w := high * 65536 + middle * 256 + d[g.b0];
            PackGroup(g, d)[i] == ITOA64[Sextet(w, i)] as int
  {
    hide *;
    GroupNumber(g, d);
    var high, middle: int := if g.b2 < 0 then 0 else d[g.b2], if g.b1 < 0 then 0 else d[g.b1];
    To64At(high * 65536 + middle * 256 + d[g.b0], g.n, i);
  }

  lemma GroupNumber(g: Group, d: seq<byte>)
    requires Fits(g, |d|)
    ensures g.b2 < |d| && g.b1 < |d| && 0 <= g.b0 < |d|
    ensures var high, middle: int := if g.b2 < 0 then 0 else d[g.b2], if g.b1 < 0 then 0 else d[g.b1];
            PackGroup(g, d) == To64(high * 65536 + middle * 256 + d[g.b0], g.n)
  {
    hide To64;
  }

  lemma PackGroupInjective(g: Group, d: seq<byte>, e: seq<byte>)
    requires |d| == |e| && Fits(g, |d|) && PackGroup(g, d) == PackGroup(g, e)
    ensures ByteAt(d, g.b2) == ByteAt(e, g.b2) && ByteAt(d, g.b1) == ByteAt(e, g.b1) && ByteAt(d, g.b0) == ByteAt(e, g.b0)
  {
    var v := Merged(ByteAt(d, g.b2), ByteAt(d, g.b1), ByteAt(d, g.b0));
    var w := Merged(ByteAt(e, g.b2), ByteAt(e, g.b1), ByteAt(e, g.b0));
    assert Pow64(2) == 4096 && Pow64(3) == 64 * Pow64(2) && Pow64(4) == 64 * Pow64(3);
    To64Injective(v, w, g.n);
    MergedInjective(ByteAt(d, g.b2), ByteAt(d, g.b1), ByteAt(d, g.b0), ByteAt(e, g.b2), ByteAt(e, g.b1), ByteAt(e, g.b0));
  }

  lemma {:induction false} PackAgrees(groups: seq<Group>, d: seq<byte>, e: seq<byte>, j: nat)
    requires |d| == |e| && j < |groups| && forall i :: 0 <= i < |groups| ==> Fits(groups[i], |d|)
    requires Pack(groups, d) == Pack(groups, e)
    ensures var g := groups[j];
            ByteAt(d, g.b2) == ByteAt(e, g.b2) && ByteAt(d, g.b1) == ByteAt(e, g.b1) && ByteAt(d, g.b0) == ByteAt(e, g.b0)
    decreases |groups|
  {
    hide PackGroup;
    var n := |groups| - 1;
    var front := groups[..n];
    var x, y := Pack(front, d), Pack(front, e);
    assert Pack(groups, d) == x + PackGroup(groups[n], d) && Pack(groups, e) == y + PackGroup(groups[n], e);
    assert x == Pack(groups, d)[..Length(front)] && y == Pack(groups, e)[..Length(front)];
    if j < n {
      PackAgrees(front, d, e, j);
    } else {
      assert PackGroup(groups[n], d) == Pack(groups, d)[Length(front)..];
      assert PackGroup(groups[n], e) == Pack(groups, e)[Length(front)..];
      PackGroupInjective(groups[n], d, e);
    }
  }

  /** Where a digest byte goes: the group, and 0, 1 or 2 for its place from the low end. */
  datatype Place = Place(group: nat, slot: nat)

  function IndexAt(groups: seq<Group>, p: Place): int
    requires p.group < |groups|
  {
    var g := groups[p.group];
    if p.slot == 0 then g.b0 else if p.slot == 1 then g.b1 else g.b2
  }

  /** `places` and `groups` are inverse to each other: every byte goes to exactly one place. */
  ghost predicate Inverse(groups: seq<Group>, places: seq<Place>) {
    && (forall j :: 0 <= j < |groups| ==> Fits(groups[j], |places|))
    && (forall i :: 0 <= i < |places| ==> places[i].group < |groups| && places[i].slot < 3 && IndexAt(groups, places[i]) == i)
    && (forall j :: 0 <= j < |groups| ==>
          && places[groups[j].b0] == Place(j, 0)
          && (groups[j].b1 >= 0 ==> places[groups[j].b1] == Place(j, 1))
          && (groups[j].b2 >= 0 ==> places[groups[j].b2] == Place(j, 2)))
  }

  /** The text determines the digest. */
  lemma PackInjective(groups: seq<Group>, places: seq<Place>, d: seq<byte>, e: seq<byte>)
    requires Inverse(groups, places) && |d| == |e| == |places| && Pack(groups, d) == Pack(groups, e)
    ensures d == e
  {
    forall i | 0 <= i < |d|
      ensures d[i] == e[i]
    {
      PackAgrees(groups, d, e, places[i].group);
    }
  }
}
