/**
 The digests behind the crypt formats: crypt_sha256_r, crypt_sha512_r and crypt_md5_r in
 cpukit/libcrypt. The hash is any function from byte sequences to digests of a fixed size.

 The specifications follow the numbered steps of Drepper, "Unix crypt using SHA-256 and SHA-512",
 where a digest is said to be repeated to a length; the methods follow the block loops of the
 source.
 */
module CryptDigest {
  import opened Bytes
  import opened Divisions

  type Hash = seq<byte> -> seq<byte>

  ghost predicate HasSize(h: Hash, size: nat) {
    forall s :: |h(s)| == size
  }

  /** `d` over and over, to length `n`. */
  function Cycle(d: seq<byte>, n: nat): (c: seq<byte>)
    requires d != []
    ensures |c| == n
  {
    if n <= |d| then d[..n] else d + Cycle(d, n - |d|)
  }

  /** Byte `i` of it is the byte of the digest at `i` modulo the digest's length. */
  lemma {:induction false} CycleAt(d: seq<byte>, n: nat, i: nat)
    requires d != [] && i < n
    ensures Cycle(d, n)[i] == d[i % |d|]
    decreases n
  {
    var m := |d|;
    if i < m {
      SmallMod(i, m);
    } else {
      CycleAt(d, n - m, i - m);
      ModShift(i, m);
    }
  }

  lemma CycleFront(d: seq<byte>, n: nat)
    requires d != [] && n >= |d|
    ensures Cycle(d, n) == d + Cycle(d, n - |d|)
  {
    if n == |d| {
      assert d[..n] == d && Cycle(d, 0) == [];
    }
  }

  function Repeat(s: seq<byte>, n: nat): seq<byte> {
    if n == 0 then [] else Repeat(s, n - 1) + s
  }

  /** For each bit of `n` from the lowest up: `one` or `zero`. */
  function ByBits(n: nat, one: seq<byte>, zero: seq<byte>): seq<byte> {
    if n == 0 then [] else (if n % 2 == 1 then one else zero) + ByBits(n / 2, one, zero)
  }

  // ------------------------------------------------------------- hash contexts

  class Context {
    var fed: seq<byte>

    constructor ()
      ensures fed == []
    {
      fed := [];
    }

    method Init()
      modifies this
      ensures fed == []
    {
      fed := [];
    }

    method Update(data: seq<byte>)
      modifies this
      ensures fed == old(fed) + data
    {
      fed := fed + data;
    }

    method Final(h: Hash) returns (digest: seq<byte>)
      ensures digest == h(fed)
    {
      digest := h(fed);
    }
  }

  /** The loop that adds one byte of the digest for each of `n` characters, whole digests first. */
  method UpdateCycle(ctx: Context, d: seq<byte>, n: nat)
    requires d != []
    modifies ctx
    ensures ctx.fed == old(ctx.fed) + Cycle(d, n)
  {
    var cnt := n;
    while cnt > |d|
      invariant 0 <= cnt <= n && ctx.fed + Cycle(d, cnt) == old(ctx.fed) + Cycle(d, n)
    {
      ghost var before := ctx.fed;
      ctx.Update(d);
      assert before + (d + Cycle(d, cnt - |d|)) == ctx.fed + Cycle(d, cnt - |d|);
      cnt := cnt - |d|;
    }
    ctx.Update(d[..cnt]);
  }

  method UpdateByBits(ctx: Context, n: nat, one: seq<byte>, zero: seq<byte>)
    modifies ctx
    ensures ctx.fed == old(ctx.fed) + ByBits(n, one, zero)
  {
    var cnt := n;
    while cnt > 0
      invariant ctx.fed + ByBits(cnt, one, zero) == old(ctx.fed) + ByBits(n, one, zero)
    {
      ghost var before := ctx.fed;
      var piece := if cnt % 2 != 0 then one else zero;
      ctx.Update(piece);
      assert before + (piece + ByBits(cnt / 2, one, zero)) == ctx.fed + ByBits(cnt / 2, one, zero);
      cnt := cnt / 2;
    }
    assert ctx.fed + [] == ctx.fed;
  }

  method UpdateRepeat(ctx: Context, s: seq<byte>, n: nat)
    modifies ctx
    ensures ctx.fed == old(ctx.fed) + Repeat(s, n)
  {
    var cnt := 0;
    while cnt < n
      invariant 0 <= cnt <= n && ctx.fed == old(ctx.fed) + Repeat(s, cnt)
    {
      ctx.Update(s);
      assert old(ctx.fed) + Repeat(s, cnt) + s == old(ctx.fed) + (Repeat(s, cnt) + s);
      cnt := cnt + 1;
    }
  }

  /** memcpy of whole digests, then of the remainder, into a buffer of `n` bytes. */
  method CopyCycle(d: seq<byte>, n: nat) returns (out: array<byte>)
    requires d != []
    ensures fresh(out) && out[..] == Cycle(d, n)
  {
    out := new byte[n](_ => 0);
    var cp, cnt: nat := 0, n;
    while cnt >= |d|
      invariant cp + cnt == n && out[..cp] + Cycle(d, cnt) == Cycle(d, n)
      decreases cnt
    {
      ghost var before := out[..cp];
      CycleFront(d, cnt);
      Copy(out, cp, d);
      assert before + (d + Cycle(d, cnt - |d|)) == out[..cp + |d|] + Cycle(d, cnt - |d|);
      cp := cp + |d|;
      cnt := cnt - |d|;
    }
    Copy(out, cp, d[..cnt]);
    assert out[..n] == out[..];
  }

  method Copy(out: array<byte>, at: nat, d: seq<byte>)
    requires at + |d| <= out.Length
    modifies out
    ensures out[..at + |d|] == old(out[..at]) + d
    ensures forall j :: at + |d| <= j < out.Length ==> out[j] == old(out[j])
  {
    var i := 0;
    while i < |d|
      invariant 0 <= i <= |d| && out[..at + i] == old(out[..at]) + d[..i]
      invariant forall j :: at + i <= j < out.Length ==> out[j] == old(out[j])
    {
      out[at + i] := d[i];
      i := i + 1;
    }
  }

  // ------------------------------------------------------------- SHA-crypt: the steps

  /** Steps 4 to 8. */
  function DigestB(h: Hash, key: seq<byte>, salt: seq<byte>): seq<byte> {
    h(key + salt + key)
  }

  /** Steps 1 to 3 and 9 to 12. */
  function DigestA(h: Hash, key: seq<byte>, salt: seq<byte>): seq<byte>
    requires DigestB(h, key, salt) != []
  {
    var b := DigestB(h, key, salt);
    h(key + salt + Cycle(b, |key|) + ByBits(|key|, b, key))
  }

  /** Steps 13 to 16. */
  function SequenceP(h: Hash, key: seq<byte>): seq<byte>
    requires h(Repeat(key, |key|)) != []
  {
    Cycle(h(Repeat(key, |key|)), |key|)
  }

  /** Steps 17 to 20. */
  function SequenceS(h: Hash, salt: seq<byte>, a: byte): seq<byte>
    requires h(Repeat(salt, 16 + a as int)) != []
  {
    Cycle(h(Repeat(salt, 16 + a as int)), |salt|)
  }

  /** What round `i` hashes, given the digest `c` of the round before (step 21). */
  function RoundInput(i: nat, c: seq<byte>, p: seq<byte>, s: seq<byte>): seq<byte> {
    (if i % 2 != 0 then p else c) + (if i % 3 != 0 then s else []) + (if i % 7 != 0 then p else [])
    + (if i % 2 != 0 then c else p)
  }

  function Rounds(h: Hash, a: seq<byte>, p: seq<byte>, s: seq<byte>, n: nat): seq<byte> {
    if n == 0 then a else h(RoundInput(n - 1, Rounds(h, a, p, s, n - 1), p, s))
  }

  ghost function ShaDigest(h: Hash, size: nat, key: seq<byte>, salt: seq<byte>, rounds: nat): (d: seq<byte>)
    requires size > 0 && HasSize(h, size)
    ensures |d| == size
  {
    var a := DigestA(h, key, salt);
    var p := SequenceP(h, key);
    var s := SequenceS(h, salt, a[0]);
    RoundsSize(h, size, a, p, s, rounds);
    Rounds(h, a, p, s, rounds)
  }

  lemma {:induction false} RoundsSize(h: Hash, size: nat, a: seq<byte>, p: seq<byte>, s: seq<byte>, n: nat)
    requires HasSize(h, size) && |a| == size
    ensures |Rounds(h, a, p, s, n)| == size
  {
  }

  // ------------------------------------------------------------- SHA-crypt: the source

  /** From the key and the salt to the intermediate result A. */
  method ComputeA(h: Hash, size: nat, key: seq<byte>, salt: seq<byte>) returns (altResult: seq<byte>)
    requires size > 0 && HasSize(h, size)
    ensures altResult == DigestA(h, key, salt)
  {
    hide Cycle, ByBits;
    var ctx := new Context();
    ctx.Update(key);
    ctx.Update(salt);
    var altCtx := new Context();
    altCtx.Update(key);
    altCtx.Update(salt);
    altCtx.Update(key);
    assert altCtx.fed == key + salt + key;
    altResult := altCtx.Final(h);
    UpdateCycle(ctx, altResult, |key|);
    UpdateByBits(ctx, |key|, altResult, key);
    assert ctx.fed == key + salt + Cycle(altResult, |key|) + ByBits(|key|, altResult, key);
    altResult := ctx.Final(h);
  }

  /** The digest of `s` added `n` times, repeated to length `length`. */
  method ComputeSequence(h: Hash, size: nat, s: seq<byte>, n: nat, length: nat) returns (bytes: array<byte>)
    requires size > 0 && HasSize(h, size)
    ensures fresh(bytes) && bytes[..] == Cycle(h(Repeat(s, n)), length)
  {
    var altCtx := new Context();
    UpdateRepeat(altCtx, s, n);
    assert altCtx.fed == Repeat(s, n);
    var tempResult := altCtx.Final(h);
    bytes := CopyCycle(tempResult, length);
  }

  /** One round: what goes into the context, in order. */
  method FeedRound(ctx: Context, cnt: nat, c: seq<byte>, p: seq<byte>, s: seq<byte>)
    modifies ctx
    ensures ctx.fed == RoundInput(cnt, c, p, s)
  {
    ctx.Init();
    ctx.Update(if cnt % 2 != 0 then p else c);
    if cnt % 3 != 0 {
      ctx.Update(s);
    }
    if cnt % 7 != 0 {
      ctx.Update(p);
    }
    ctx.Update(if cnt % 2 != 0 then c else p);
  }

  /** The computation of crypt_sha256_r and crypt_sha512_r between parsing and printing. */
  method ComputeSha(h: Hash, size: nat, key: seq<byte>, salt: seq<byte>, rounds: nat) returns (altResult: seq<byte>)
    requires size > 0 && HasSize(h, size)
    ensures altResult == ShaDigest(h, size, key, salt, rounds)
  {
    altResult := ComputeA(h, size, key, salt);
    var pBytes := ComputeSequence(h, size, key, |key|, |key|);
    var sBytes := ComputeSequence(h, size, salt, 16 + altResult[0] as int, |salt|);
    altResult := RunRounds(h, altResult, pBytes[..], sBytes[..], rounds);
  }

  method RunRounds(h: Hash, a: seq<byte>, p: seq<byte>, s: seq<byte>, rounds: nat) returns (altResult: seq<byte>)
    ensures altResult == Rounds(h, a, p, s, rounds)
  {
    var ctx := new Context();
    altResult := a;
    var cnt := 0;
    while cnt < rounds
      invariant 0 <= cnt <= rounds && altResult == Rounds(h, a, p, s, cnt)
    {
      FeedRound(ctx, cnt, altResult, p, s);
      altResult := ctx.Final(h);
      cnt := cnt + 1;
    }
  }

  // ------------------------------------------------------------- MD5-crypt

  const MD5_SIZE := 16

  // "$1$"
  const MD5_MAGIC: seq<byte> := [36, 49, 36]

  function Md5Start(h: Hash, pw: seq<byte>, salt: seq<byte>): seq<byte>
    requires h(pw + salt + pw) != []
  {
    h(pw + MD5_MAGIC + salt + Cycle(h(pw + salt + pw), |pw|) + ByBits(|pw|, [0], if pw == [] then [] else [pw[0]]))
  }

  /** The digest of MD5-crypt: a thousand rounds like those of SHA-crypt, with the password itself. */
  ghost function Md5Digest(h: Hash, pw: seq<byte>, salt: seq<byte>): (d: seq<byte>)
    requires HasSize(h, MD5_SIZE)
    ensures |d| == MD5_SIZE
  {
    RoundsSize(h, MD5_SIZE, Md5Start(h, pw, salt), pw, salt, 1000);
    Rounds(h, Md5Start(h, pw, salt), pw, salt, 1000)
  }

  /** The loop that steps the remaining length down by a digest each time round. */
  method UpdatePieces(ctx: Context, final: seq<byte>, n: nat)
    requires final != []
    modifies ctx
    ensures ctx.fed == old(ctx.fed) + Cycle(final, n)
  {
    var pl: int := n;
    while pl > 0
      invariant pl <= n && ctx.fed + Cycle(final, if pl > 0 then pl else 0) == old(ctx.fed) + Cycle(final, n)
    {
      ghost var before := ctx.fed;
      ctx.Update(final[..if pl > |final| then |final| else pl]);
      if pl >= |final| {
        CycleFront(final, pl);
        assert final[..|final|] == final;
        assert before + (final + Cycle(final, pl - |final|)) == ctx.fed + Cycle(final, pl - |final|);
      } else {
        assert Cycle(final, 0) == [];
        assert ctx.fed + [] == ctx.fed;
      }
      pl := pl - |final|;
    }
    assert ctx.fed + [] == ctx.fed;
  }

  /** Up to the thousand rounds. */
  method ComputeMd5Start(h: Hash, pw: seq<byte>, salt: seq<byte>) returns (final: seq<byte>)
    requires HasSize(h, MD5_SIZE)
    ensures final == Md5Start(h, pw, salt)
  {
    hide Cycle, ByBits;
    var ctx := new Context();
    ctx.Update(pw);
    ctx.Update(MD5_MAGIC);
    ctx.Update(salt);
    var ctx1 := new Context();
    ctx1.Update(pw);
    ctx1.Update(salt);
    ctx1.Update(pw);
    assert ctx1.fed == pw + salt + pw;
    final := ctx1.Final(h);
    UpdatePieces(ctx, final, |pw|);
    // The source clears the digest before this loop, so a 1 bit adds a zero byte.
    UpdateByBits(ctx, |pw|, [0], if pw == [] then [] else [pw[0]]);
    assert ctx.fed == pw + MD5_MAGIC + salt + Cycle(final, |pw|) + ByBits(|pw|, [0], if pw == [] then [] else [pw[0]]);
    final := ctx.Final(h);
  }
}
