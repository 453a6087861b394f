/**
 What the digests of crypt are made of (cpukit/libcrypt/crypt-sha256.c, crypt-sha512.c and crypt-md5.c), said
 without the functions that build them: by position in what is hashed, by the bits of the key length,
 and by a table of the rounds.
 */
module CryptSteps {
  import opened Alphabets
  import opened Bytes
  import opened CryptDigest
  import opened Divisions

  // ------------------------------------------------------------- rounds

  /** A piece of what a round hashes: c the digest before it, p and s the sequences P and S, nothing behind the last. */
  function Piece(pattern: string, i: nat, c: seq<byte>, p: seq<byte>, s: seq<byte>): seq<byte> {
    if i >= |pattern| then [] else if pattern[i] == 'c' then c else if pattern[i] == 'p' then p else s
  }

  /** The pieces of a round, four at most. */
  function Render(pattern: string, c: seq<byte>, p: seq<byte>, s: seq<byte>): seq<byte> {
    Piece(pattern, 0, c, p, s) + Piece(pattern, 1, c, p, s) + Piece(pattern, 2, c, p, s) + Piece(pattern, 3, c, p, s)
  }

  // Row i % 6, for rounds that 7 divides and for the others.
  const SEVENTH_ROUNDS := ["cp", "psc", "csp", "pc", "csp", "psc"]
  const OTHER_ROUNDS := ["cpp", "pspc", "cspp", "ppc", "cspp", "pspc"]

  function Pattern(i: nat): string {
    if i % 7 == 0 then SEVENTH_ROUNDS[i % 6] else OTHER_ROUNDS[i % 6]
  }

  lemma ShortPatterns(c: seq<byte>, p: seq<byte>, s: seq<byte>)
    ensures Render("cp", c, p, s) == c + p && Render("pc", c, p, s) == p + c
    ensures Render("csp", c, p, s) == c + s + p && Render("psc", c, p, s) == p + s + c
  {
    assert c + p + [] + [] == c + p && p + c + [] + [] == p + c;
    assert c + s + p + [] == c + s + p && p + s + c + [] == p + s + c;
  }

  lemma LongPatterns(c: seq<byte>, p: seq<byte>, s: seq<byte>)
    ensures Render("cpp", c, p, s) == c + p + p && Render("ppc", c, p, s) == p + p + c
    ensures Render("cspp", c, p, s) == c + s + p + p && Render("pspc", c, p, s) == p + s + p + c
  {
    assert c + p + p + [] == c + p + p && p + p + c + [] == p + p + c;
  }

  lemma PatternIs(i: nat)
    ensures var pattern := Pattern(i);
            if i % 7 == 0 then
              if i % 3 == 0 then pattern == (if i % 2 == 0 then "cp" else "pc")
              else pattern == (if i % 2 == 0 then "csp" else "psc")
            else if i % 3 == 0 then pattern == (if i % 2 == 0 then "cpp" else "ppc")
            else pattern == (if i % 2 == 0 then "cspp" else "pspc")
  {
    var r := i % 6;
    assert i % 2 == r % 2 && i % 3 == r % 3;
    assert r == 0 || r == 1 || r == 2 || r == 3 || r == 4 || r == 5;
  }

  lemma RoundIs(i: nat, c: seq<byte>, p: seq<byte>, s: seq<byte>)
    ensures var x := RoundInput(i, c, p, s);
            if i % 7 == 0 then
              if i % 3 == 0 then x == (if i % 2 == 0 then c + p else p + c)
              else x == (if i % 2 == 0 then c + s + p else p + s + c)
            else if i % 3 == 0 then x == (if i % 2 == 0 then c + p + p else p + p + c)
            else x == (if i % 2 == 0 then c + s + p + p else p + s + p + c)
  {
    assert c + [] == c && p + [] == p && c + s + [] == c + s && p + s + [] == p + s;
  }

  /** What every round hashes, by the table. */
  lemma RoundTable(i: nat, c: seq<byte>, p: seq<byte>, s: seq<byte>)
    ensures RoundInput(i, c, p, s) == Render(Pattern(i), c, p, s)
  {
    hide *;
    ShortPatterns(c, p, s);
    LongPatterns(c, p, s);
    PatternIs(i);
    RoundIs(i, c, p, s);
  }

  /** The salt is left out exactly in every third round; the digest comes first in even rounds and last in odd ones. */
  lemma EveryThird(k: nat, c: seq<byte>, s: seq<byte>)
    ensures RoundInput(3 * k, c, [], s) == c
    ensures RoundInput(3 * k + 1, c, [], s) == if k % 2 == 0 then s + c else c + s
    ensures RoundInput(3 * k + 2, c, [], s) == if k % 2 == 0 then c + s else s + c
  {
    hide *;
    ThirdResidues(k);
    WithoutKey(3 * k, c, s);
    WithoutKey(3 * k + 1, c, s);
    WithoutKey(3 * k + 2, c, s);
  }

  lemma ThirdResidues(k: nat)
    ensures (3 * k) % 3 == 0 && (3 * k + 1) % 3 == 1 && (3 * k + 2) % 3 == 2
    ensures (3 * k + 1) % 2 == (if k % 2 == 0 then 1 else 0) && (3 * k + 2) % 2 == (if k % 2 == 0 then 0 else 1)
  {
    var m := k / 2;
    if k % 2 == 0 {
      assert 3 * k + 1 == 2 * (3 * m) + 1 && 3 * k + 2 == 2 * (3 * m + 1);
    } else {
      assert 3 * k + 1 == 2 * (3 * m + 2) && 3 * k + 2 == 2 * (3 * m + 2) + 1;
    }
  }

  lemma WithoutKey(i: nat, c: seq<byte>, s: seq<byte>)
    ensures RoundInput(i, c, [], s) == if i % 3 == 0 then c else if i % 2 == 0 then c + s else s + c
  {
    var t := if i % 3 != 0 then s else [];
    assert c + t + [] + [] == c + t && [] + t + [] + c == t + c;
    assert c + [] == c && [] + c == c;
  }

  /** The key is there twice, but once in every seventh round. */
  lemma EverySeventh(k: nat, j: nat, c: seq<byte>, p: seq<byte>)
    requires 1 <= j < 7
    ensures RoundInput(7 * k, c, p, []) == if k % 2 == 0 then c + p else p + c
    ensures RoundInput(7 * k + j, c, p, []) == if (k + j) % 2 == 0 then c + p + p else p + p + c
  {
    hide *;
    SeventhResidues(k, j);
    WithoutSalt(7 * k, c, p);
    WithoutSalt(7 * k + j, c, p);
  }

  lemma SeventhResidues(k: nat, j: nat)
    requires 1 <= j < 7
    ensures (7 * k) % 7 == 0 && (7 * k + j) % 7 == j && (7 * k) % 2 == k % 2 && (7 * k + j) % 2 == (k + j) % 2
  {
  }

  lemma WithoutSalt(i: nat, c: seq<byte>, p: seq<byte>)
    ensures i % 7 == 0 ==> RoundInput(i, c, p, []) == if i % 2 == 0 then c + p else p + c
    ensures i % 7 != 0 ==> RoundInput(i, c, p, []) == if i % 2 == 0 then c + p + p else p + p + c
  {
    assert c + [] + [] + p == c + p && p + [] + [] + c == p + c;
    assert c + [] + p + p == c + p + p && p + [] + p + c == p + p + c;
  }

  /** The pieces repeat every 42 rounds. */
  lemma Period(i: nat, c: seq<byte>, p: seq<byte>, s: seq<byte>)
    ensures RoundInput(i + 42, c, p, s) == RoundInput(i, c, p, s)
  {
    assert (i + 42) % 2 == i % 2 && (i + 42) % 3 == i % 3 && (i + 42) % 7 == i % 7;
  }

  // ------------------------------------------------------------- the bits of a length

  function BitLength(n: nat): nat {
    if n == 0 then 0 else 1 + BitLength(n / 2)
  }

  predicate Bit(n: nat, j: nat) {
    n / Pow2(j) % 2 == 1
  }

  /** The pieces chosen by the bits of `n`, the lowest first. */
  function Choices(n: nat, one: seq<byte>, zero: seq<byte>): seq<seq<byte>> {
    seq(BitLength(n), j requires 0 <= j => if Bit(n, j) then one else zero)
  }

  function Flat(pieces: seq<seq<byte>>): seq<byte> {
    if pieces == [] then [] else pieces[0] + Flat(pieces[1..])
  }

  lemma {:induction false} BitLengthIs(n: nat)
    ensures n < Pow2(BitLength(n)) && (n > 0 ==> Pow2(BitLength(n) - 1) <= n)
  {
    if n > 0 {
      BitLengthIs(n / 2);
    }
  }

  lemma NextBit(n: nat, j: nat)
    ensures Bit(n, j + 1) == Bit(n / 2, j) && Bit(n, 0) == (n % 2 == 1)
  {
    DivideTwice(n, 2, Pow2(j));
    assert Pow2(0) == 1;
  }

  lemma ChoicesStep(n: nat, one: seq<byte>, zero: seq<byte>)
    requires n > 0
    ensures Choices(n, one, zero) == [if n % 2 == 1 then one else zero] + Choices(n / 2, one, zero)
  {
    hide Bit;
    NextBit(n, 0);
    var all, rest := Choices(n, one, zero), Choices(n / 2, one, zero);
    forall j | 0 <= j < |rest|
      ensures all[j + 1] == rest[j]
    {
      NextBit(n, j);
    }
  }

  lemma {:induction false} ByBitsIs(n: nat, one: seq<byte>, zero: seq<byte>)
    ensures ByBits(n, one, zero) == Flat(Choices(n, one, zero))
  {
    if n > 0 {
      ChoicesStep(n, one, zero);
      hide Choices;
      ByBitsIs(n / 2, one, zero);
      assert Choices(n, one, zero)[1..] == Choices(n / 2, one, zero);
    }
  }

  // ------------------------------------------------------------- repeated pieces

  lemma {:induction false} RepeatAt(s: seq<byte>, n: nat, j: nat)
    requires s != []
    ensures |Repeat(s, n)| == n * |s| && (j < |Repeat(s, n)| ==> Repeat(s, n)[j] == s[j % |s|])
  {
    var m := |s|;
    if n > 0 {
      RepeatAt(s, n - 1, j);
      assert n * m == (n - 1) * m + m;
      var front := (n - 1) * m;
      if front <= j < front + m {
        QuotientIs(j, m, n - 1, j - front);
      }
    }
  }

  /** `x` is `s` over and over, `n` times. */
  ghost predicate Repeats(x: seq<byte>, s: seq<byte>, n: nat) {
    |x| == n * |s| && forall j :: 0 <= j < |x| ==> |s| > 0 && x[j] == s[j % |s|]
  }

  lemma RepeatRepeats(s: seq<byte>, n: nat)
    ensures Repeats(Repeat(s, n), s, n)
  {
    if s == [] {
      RepeatNothing(n);
    } else {
      RepeatAt(s, n, 0);
      forall j | 0 <= j < |Repeat(s, n)|
        ensures Repeat(s, n)[j] == s[j % |s|]
      {
        RepeatAt(s, n, j);
      }
    }
  }

  lemma {:induction false} RepeatNothing(n: nat)
    ensures Repeat([], n) == []
  {
    if n > 0 {
      RepeatNothing(n - 1);
    }
  }

  /** `x` is the digest `d` over and over, to length `n`. */
  ghost predicate Cycles(x: seq<byte>, d: seq<byte>, n: nat) {
    |x| == n && |d| > 0 && forall i :: 0 <= i < n ==> x[i] == d[i % |d|]
  }

  lemma CycleCycles(d: seq<byte>, n: nat)
    requires d != []
    ensures Cycles(Cycle(d, n), d, n)
  {
    hide Cycle;
    forall i | 0 <= i < n
      ensures Cycle(d, n)[i] == d[i % |d|]
    {
      CycleAt(d, n, i);
    }
  }

  // ------------------------------------------------------------- the whole digests

  /** The rounds: the digest after i + 1 of them is the hash of what the table says of the digest after i. */
  lemma RoundsFollowTable(h: Hash, a: seq<byte>, p: seq<byte>, s: seq<byte>, i: nat)
    ensures Rounds(h, a, p, s, 0) == a
    ensures Rounds(h, a, p, s, i + 1) == h(Render(Pattern(i), Rounds(h, a, p, s, i), p, s))
  {
    RoundTable(i, Rounds(h, a, p, s, i), p, s);
    hide Render, Pattern, RoundInput;
  }

  /**
   A SHA digest: `b`, from key, salt and key; `a`, from key, salt, `b` repeated to the length of the key and,
   for each bit of that length from the lowest, `b` or the key; `p` and `s`, the hashes of the key and the salt
   repeated, themselves repeated to their lengths; and the rounds from `a`.
   */
  lemma ShaSteps(h: Hash, size: nat, key: seq<byte>, salt: seq<byte>, rounds: nat)
      returns (b: seq<byte>, a: seq<byte>, p: seq<byte>, s: seq<byte>, cycle: seq<byte>, keys: seq<byte>, salts: seq<byte>)
    requires size > 0 && HasSize(h, size)
    ensures b == h(key + salt + key) && Cycles(cycle, b, |key|)
    ensures a == h(key + salt + cycle + Flat(Choices(|key|, b, key))) && a != []
    ensures Repeats(keys, key, |key|) && Cycles(p, h(keys), |key|)
    ensures Repeats(salts, salt, 16 + a[0] as int) && Cycles(s, h(salts), |salt|)
    ensures ShaDigest(h, size, key, salt, rounds) == Rounds(h, a, p, s, rounds)
  {
    b := DigestB(h, key, salt);
    a := DigestA(h, key, salt);
    p, s := SequenceP(h, key), SequenceS(h, salt, a[0]);
    cycle, keys, salts := Cycle(b, |key|), Repeat(key, |key|), Repeat(salt, 16 + a[0] as int);
    hide Cycle, Repeat, ByBits, Choices, Flat, Rounds, Cycles, Repeats;
    CycleCycles(b, |key|);
    ByBitsIs(|key|, b, key);
    RepeatRepeats(key, |key|);
    RepeatRepeats(salt, 16 + a[0] as int);
    CycleCycles(h(keys), |key|);
    CycleCycles(h(salts), |salt|);
  }

  /**
   The MD5 digest: the same with the magic string behind the password, a zero byte or the first character of
   the password for each bit, and a thousand rounds with the password and the salt themselves.
   */
  lemma Md5Steps(h: Hash, pw: seq<byte>, salt: seq<byte>) returns (b: seq<byte>, a: seq<byte>, magic: seq<byte>, cycle: seq<byte>)
    requires HasSize(h, MD5_SIZE)
    ensures b == h(pw + salt + pw) && Cycles(cycle, b, |pw|) && Spells(magic, "$1$")
    ensures a == h(pw + magic + salt + cycle + Flat(Choices(|pw|, [0], if pw == [] then [] else [pw[0]])))
    ensures Md5Digest(h, pw, salt) == Rounds(h, a, pw, salt, 1000)
  {
    b, a, magic := h(pw + salt + pw), Md5Start(h, pw, salt), MD5_MAGIC;
    cycle := Cycle(b, |pw|);
    hide Cycle, ByBits, Choices, Flat, Rounds, Cycles;
    CycleCycles(b, |pw|);
    ByBitsIs(|pw|, [0], if pw == [] then [] else [pw[0]]);
  }
}
