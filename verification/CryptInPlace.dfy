/**
 The crypt formats of cpukit/libcrypt called with a salt that lies in the result buffer, as in
 crypt_r(k, data->buffer, data) after an earlier call. The salt is read before the buffer is written and,
 for the copy into the result and for the rounds of MD5, again afterwards. The copies go character by
 character, upwards.
 */
module CryptInPlace {
  import opened Bytes
  import opened CryptDigest
  import opened CryptFormats
  import opened CryptOutput
  import opened CryptPack
  import opened CryptResult
  import opened CryptSalt
  import opened Decimals

  // ------------------------------------------------------------- copies within the buffer

  /** stpncpy from a string in the same buffer; an empty one gives an empty copy. */
  method StpncpyWithin(buffer: array<byte>, at: nat, from: nat, n: nat) returns (end: nat)
    requires at + n <= buffer.Length && from + n <= buffer.Length
    modifies buffer
    ensures at <= end <= at + n && buffer[..at] == old(buffer[..at])
    ensures forall i :: end <= i < at + n ==> buffer[i] == 0
    ensures n == 0 || old(buffer[from]) == 0 ==> end == at
  {
    var i := 0;
    while i < n && buffer[from + i] != 0
      invariant 0 <= i <= n && buffer[..at] == old(buffer[..at])
      invariant i == 0 ==> buffer[..] == old(buffer[..])
      invariant i > 0 ==> old(buffer[from]) != 0
    {
      assert i == 0 ==> buffer[from] == old(buffer[..])[from];
      buffer[at + i] := buffer[from + i];
      i := i + 1;
    }
    end := at + i;
    while i < n
      invariant end - at <= i <= n && buffer[..at] == old(buffer[..at])
      invariant forall j :: end <= j < at + i ==> buffer[j] == 0
    {
      buffer[at + i] := 0;
      i := i + 1;
    }
  }

  /** strncat of a string in the same buffer; an empty one changes nothing. */
  method StrncatWithin(buffer: array<byte>, from: nat, n: nat, ghost s: seq<byte>)
    requires Holds(buffer[..], s) && |s| + n < buffer.Length && from + n <= buffer.Length
    modifies buffer
    ensures n == 0 || old(buffer[from]) == 0 ==> buffer[..] == old(buffer[..])
  {
    var end := Strlen(buffer, s);
    var i := 0;
    while i < n && buffer[from + i] != 0
      invariant 0 <= i <= n
      invariant i == 0 ==> buffer[..] == old(buffer[..])
      invariant i > 0 ==> old(buffer[from]) != 0
    {
      assert i == 0 ==> buffer[from] == old(buffer[..])[from];
      buffer[end + i] := buffer[from + i];
      i := i + 1;
    }
    assert i == 0 ==> buffer[end] == old(buffer[..])[end];
    buffer[end + i] := 0;
  }

  // ------------------------------------------------------------- SHA

  /** A salt whose head is as a result prints it. */
  predicate Canonical(prefix: seq<byte>, s: seq<byte>) {
    Head(prefix, Parse(prefix, s)) <= s
  }

  /** What such a call leaves: the salt text is gone, the digest is the right one. */
  ghost function InPlaceSha(v: Variant, h: Hash, key: seq<byte>, s: seq<byte>): seq<byte>
    requires IsVariant(v) && HasSize(h, v.size)
  {
    var p := Parse(v.prefix, s);
    Head(v.prefix, p.(text := [])) + PackedSha(v, h, key, p)
  }

  lemma CustomStart(prefix: seq<byte>, rounds: nat, rest: seq<byte>)
    requires ROUNDS_MIN <= rounds <= ROUNDS_MAX
    ensures SaltStart(prefix, prefix + (ROUNDS_PREFIX + (Decimal(rounds) + [DOLLAR] + rest))) == rest
  {
    hide Strtoul, Decimal;
    var d := Decimal(rounds);
    var num := d + [DOLLAR] + rest;
    var body := ROUNDS_PREFIX + num;
    PrefixSkipped(prefix, body);
    assert body[|ROUNDS_PREFIX|..] == num;
    PrintedNumber(rounds, rest);
    assert num[|d|] == DOLLAR && num[|d| + 1..] == rest;
  }

  lemma PlainStart(prefix: seq<byte>, body: seq<byte>)
    ensures Parse(prefix, prefix + body).custom == HasRounds(body)
    ensures !HasRounds(body) ==> SaltStart(prefix, prefix + body) == body
  {
    hide HasRounds, ParseBody;
    PrefixSkipped(prefix, body);
    PlainParsed(body);
  }

  /** In a canonical salt the text starts where the result will put it. */
  lemma SaltPlace(prefix: seq<byte>, s: seq<byte>)
    requires Canonical(prefix, s)
    ensures |s| - |SaltStart(prefix, s)| == |prefix| + |RoundsText(Parse(prefix, s))|
  {
    hide *;
    var p := Parse(prefix, s);
    InRange(prefix, s);
    var rest := CanonicalShape(prefix, s);
    if p.custom {
      CustomStart(prefix, p.rounds, rest);
    } else {
      PlainStart(prefix, rest);
    }
  }

  lemma CanonicalShape(prefix: seq<byte>, s: seq<byte>) returns (rest: seq<byte>)
    requires Canonical(prefix, s)
    ensures var p := Parse(prefix, s);
            && (p.custom ==> s == prefix + (ROUNDS_PREFIX + (Decimal(p.rounds) + [DOLLAR] + rest)))
            && (!p.custom ==> s == prefix + rest)
            && |s| == |prefix| + |RoundsText(p)| + |rest|
  {
    var p := Parse(prefix, s);
    hide Parse, Decimal;
    var head := Head(prefix, p);
    rest := p.text + [DOLLAR] + s[|head|..];
    assert s == head + s[|head|..];
    if p.custom {
      var d := Decimal(p.rounds);
      assert s == prefix + (ROUNDS_PREFIX + (d + [DOLLAR] + rest));
    } else {
      assert s == prefix + rest;
    }
  }

  lemma InPlaceNoZero(v: Variant, h: Hash, key: seq<byte>, s: seq<byte>)
    requires IsVariant(v) && HasSize(h, v.size)
    ensures 0 !in InPlaceSha(v, h, key, s)
  {
    assert 0 !in v.prefix;
    var p := Parse(v.prefix, s);
    hide IsVariant, PackedSha, Parse;
    assert 0 !in ROUNDS_PREFIX && 0 !in Decimal(p.rounds);
  }

  /** The head of the result, the salt being copied from index `from` of the buffer: the place where it goes, in a canonical salt. */
  method PrintHeadInPlace(prefix: seq<byte>, from: nat, saltLen: nat, rounds: nat, custom: bool, buffer: array<byte>, ghost salt: Salt)
      returns (cp: nat, buflen: int)
    requires |prefix| == 3 && buffer.Length == BUFFER_SIZE && ROUNDS_MIN <= rounds <= ROUNDS_MAX
    requires saltLen <= SALT_LEN_MAX && from + saltLen <= BUFFER_SIZE && salt.rounds == rounds && salt.custom == custom
    modifies buffer
    ensures cp + buflen <= BUFFER_SIZE && 200 <= buflen
    ensures from == 3 + |RoundsText(salt)| ==>
              var head := Head(prefix, salt.(text := []));
              cp == |head| && buflen == BUFFER_SIZE - cp - saltLen && buffer[..cp] == head
  {
    hide RoundsText;
    SameRounds(salt);
    cp, buflen := PrintPrefix(prefix, rounds, custom, buffer, salt);
    var k := Min(Max(0, buflen), saltLen);
    cp := StpncpyWithin(buffer, cp, from, k);
    buflen := buflen - k;
    cp, buflen := PrintDollar(buffer, cp, buflen);
    assert prefix + RoundsText(salt) + [] == prefix + RoundsText(salt);
  }

  lemma SameRounds(salt: Salt)
    ensures RoundsText(salt.(text := [])) == RoundsText(salt)
  {
  }

  /**
   crypt_sha256_r and crypt_sha512_r. The counter gives up the length of a salt that is not there; it still
   suffices. No salt makes the call write outside the buffer or return NULL.
   */
  method CryptShaInPlace(v: Variant, h: Hash, key: seq<byte>, buffer: array<byte>, ghost stored: seq<byte>) returns (ok: bool)
    requires IsVariant(v) && HasSize(h, v.size) && buffer.Length == BUFFER_SIZE && Holds(buffer[..], stored)
    modifies buffer
    ensures ok && (Canonical(v.prefix, stored) ==> Holds(buffer[..], InPlaceSha(v, h, key, stored)))
  {
    hide IsVariant, Canonical, Parse, ShaDigest, HasSize, Head, Pack, Length, RoundsText, SaltStart;
    VariantFits(v);
    if Canonical(v.prefix, stored) {
      SaltPlace(v.prefix, stored);
    }
    InRange(v.prefix, stored);
    InPlaceNoZero(v, h, key, stored);
    ghost var p := Parse(v.prefix, stored);
    var n := Strlen(buffer, stored);
    var s := buffer[..n];
    assert s == buffer[..][..n] == stored;
    var rest, saltLen, rounds, custom := ParseSalt(v.prefix, s);
    var altResult := ComputeSha(h, v.size, key, rest[..saltLen], rounds);
    var cp, buflen := PrintHeadInPlace(v.prefix, n - |rest|, saltLen, rounds, custom, buffer, p);
    buflen, cp := PrintGroups(v.groups, altResult, buffer, buflen, cp);
    assert Canonical(v.prefix, stored) ==> buffer[..cp] == InPlaceSha(v, h, key, stored);
    ok := buflen > 0;
    if ok {
      buffer[cp] := 0;
    }
    assert buffer[..][..cp] == buffer[..cp];
  }

  /**
   A stored result used in place comes back exactly if its salt text is empty. It is canonical unless
   its salt was ambiguous.
   */
  lemma ShaInPlaceFixpoint(v: Variant, h: Hash, key: seq<byte>, salt: seq<byte>)
    requires IsVariant(v) && HasSize(h, v.size) && !Ambiguous(v.prefix, salt)
    ensures var stored := CryptSha(v, h, key, salt);
            && Canonical(v.prefix, stored)
            && (InPlaceSha(v, h, key, stored) == stored <==> Parse(v.prefix, salt).text == [])
  {
    ShaReparsed(v, h, key, salt);
    hide IsVariant, Parse, PackedSha, Ambiguous, RoundsText;
    var p := Parse(v.prefix, salt);
    SameRounds(p);
    if p.text == [] {
      assert p.(text := []) == p;
    }
  }

  // ------------------------------------------------------------- MD5

  /** The salt as the rounds see it: the dollar sign of the result and its terminator are in it. */
  function Overwritten(text: seq<byte>): seq<byte> {
    if text == [] then [] else if |text| == 1 then [DOLLAR] else [DOLLAR, 0] + text[2..]
  }

  ghost function InPlaceMd5(h: Hash, pw: seq<byte>, s: seq<byte>): seq<byte>
    requires HasSize(h, MD5_SIZE)
  {
    var text := Md5Salt(s);
    RoundsSize(h, MD5_SIZE, Md5Start(h, pw, text), pw, Overwritten(text), 1000);
    Md5Fits();
    MD5_MAGIC + [DOLLAR] + Pack(MD5_GROUPS, Rounds(h, Md5Start(h, pw, text), pw, Overwritten(text), 1000))
  }

  /** strcpy of the magic, strncat of the salt, which that has emptied, and strcat of the dollar sign. */
  method PrintMd5HeadInPlace(sl: nat, buffer: array<byte>, ghost text: seq<byte>)
    requires buffer.Length == BUFFER_SIZE && sl == |text| <= MD5_SALT_MAX && buffer[3..3 + sl] == text
    modifies buffer
    ensures Holds(buffer[..], MD5_MAGIC + [DOLLAR]) && buffer[3..3 + sl] == Overwritten(text)
  {
    Copy(buffer, 0, MD5_MAGIC + [0]);
    assert buffer[..4] == MD5_MAGIC + [0];
    assert buffer[..][..3] == buffer[..4][..3] && buffer[3] == buffer[..4][3];
    StrncatWithin(buffer, 3, sl, MD5_MAGIC);
    Strncat(buffer, MD5_MAGIC, [DOLLAR]);
    OverwrittenAt(buffer[..], old(buffer[..]), text);
  }

  lemma OverwrittenAt(after: seq<byte>, before: seq<byte>, text: seq<byte>)
    requires |after| == |before| == BUFFER_SIZE && |text| <= MD5_SALT_MAX && before[3..3 + |text|] == text
    requires Holds(after, MD5_MAGIC + [DOLLAR]) && forall j :: 4 < j < |after| ==> after[j] == before[j]
    ensures after[3..3 + |text|] == Overwritten(text)
  {
    var now := after[3..3 + |text|];
    assert after[3] == (MD5_MAGIC + [DOLLAR])[3] && after[4] == 0;
    forall i | 0 <= i < |text|
      ensures now[i] == Overwritten(text)[i]
    {
      if i >= 2 {
        assert after[3 + i] == before[3 + i] == before[3..3 + |text|][i];
      }
    }
  }

  /** crypt_md5_r: the rounds read the salt after it has been overwritten. */
  method CryptMd5InPlace(h: Hash, pw: seq<byte>, buffer: array<byte>, ghost stored: seq<byte>)
    requires HasSize(h, MD5_SIZE) && buffer.Length == BUFFER_SIZE && Holds(buffer[..], stored) && MD5_MAGIC <= stored
    requires |stored| + MD5_SALT_MAX < BUFFER_SIZE
    modifies buffer
    ensures Holds(buffer[..], InPlaceMd5(h, pw, stored))
  {
    var n := Strlen(buffer, stored);
    var s := buffer[..n];
    assert s == buffer[..][..n] == stored;
    var sl := ScanMd5Salt(s[3..]);
    var text := s[3..][..sl];
    assert text == Md5Salt(stored) && buffer[3..3 + sl] == text;
    var final := ComputeMd5Start(h, pw, text);
    PrintMd5HeadInPlace(sl, buffer, text);
    final := RunRounds(h, final, pw, buffer[3..3 + sl], 1000);
    Md5InPlaceIs(h, pw, stored);
    hide *;
    FinishMd5(final, buffer, MD5_MAGIC + [DOLLAR]);
  }

  lemma Md5InPlaceIs(h: Hash, pw: seq<byte>, s: seq<byte>)
    requires HasSize(h, MD5_SIZE)
    ensures h(pw + Md5Salt(s) + pw) != [] && Md5Fitting()
    ensures var d := Rounds(h, Md5Start(h, pw, Md5Salt(s)), pw, Overwritten(Md5Salt(s)), 1000);
            |d| == MD5_SIZE && InPlaceMd5(h, pw, s) == MD5_MAGIC + [DOLLAR] + Pack(MD5_GROUPS, d)
    ensures |MD5_MAGIC + [DOLLAR]| + 22 < BUFFER_SIZE
  {
    Md5Fits();
    RoundsSize(h, MD5_SIZE, Md5Start(h, pw, Md5Salt(s)), pw, Overwritten(Md5Salt(s)), 1000);
    hide Rounds, Pack, Md5Salt, Overwritten;
  }

  /** A stored result used in place comes back exactly if its salt text is empty. */
  lemma Md5InPlaceFixpoint(h: Hash, pw: seq<byte>, salt: seq<byte>)
    requires HasSize(h, MD5_SIZE)
    ensures var stored := CryptMd5(h, pw, salt);
            MD5_MAGIC <= stored && |stored| <= 34 && (InPlaceMd5(h, pw, stored) == stored <==> Md5Salt(salt) == [])
  {
    Md5Reparsed(h, pw, salt);
    var stored, text := CryptMd5(h, pw, salt), Md5Salt(salt);
    Md5InPlaceIs(h, pw, stored);
    Md5DigestIs(h, pw, text);
    Md5Fits();
    hide Rounds, Pack, Md5Salt, Md5Start, Md5Digest, PackedMd5;
    if text == [] {
      assert MD5_MAGIC + [] + [DOLLAR] == MD5_MAGIC + [DOLLAR];
    }
  }
}
