/**
 crypt_sha256_r, crypt_sha512_r and crypt_md5_r in cpukit/libcrypt: what string they leave in the
 caller's 256-byte buffer, that it always fits, and that it can be used as the salt again.
 */
module CryptResult {
  import opened Alphabets
  import opened Bytes
  import opened CryptDigest
  import opened CryptFormats
  import opened CryptPack
  import opened CryptSalt
  import opened Decimals

  // ------------------------------------------------------------- the results

  lemma VariantFits(v: Variant)
    requires IsVariant(v)
    ensures v.size > 0 && |v.prefix| == 3 && v.prefix[0] == DOLLAR && DOLLAR == v.prefix[2]
    ensures forall i :: 0 <= i < |v.groups| ==> Fits(v.groups[i], v.size)
    ensures v == SHA256 ==> Length(v.groups) == 43
    ensures v == SHA512 ==> Length(v.groups) == 86
    ensures Length(v.groups) == 43 || Length(v.groups) == 86
  {
    if v == SHA256 {
      Sha256Follows();
      FollowsInverse(SHA256.groups, 10, false, 32);
    } else {
      Sha512Follows();
      FollowsInverse(SHA512.groups, 21, true, 64);
    }
  }

  ghost function PackedSha(v: Variant, h: Hash, key: seq<byte>, salt: Salt): (t: seq<byte>)
    requires IsVariant(v) && HasSize(h, v.size)
    ensures |t| == Length(v.groups) && 43 <= |t| <= 86 && DOLLAR !in t && 0 !in t
  {
    VariantFits(v);
    Pack(v.groups, ShaDigest(h, v.size, key, salt.text, salt.rounds))
  }

  /** The result of a SHA format. */
  ghost function CryptSha(v: Variant, h: Hash, key: seq<byte>, salt: seq<byte>): seq<byte>
    requires IsVariant(v) && HasSize(h, v.size)
  {
    var p := Parse(v.prefix, salt);
    Head(v.prefix, p) + PackedSha(v, h, key, p)
  }

  const MD5_SALT_MAX := 8

  function Md5Salt(s: seq<byte>): (t: seq<byte>)
    ensures |t| <= MD5_SALT_MAX && DOLLAR !in t
  {
    var body := SkipPrefix(MD5_MAGIC, s);
    var n := Min(Span(body), MD5_SALT_MAX);
    assert body[..n] == body[..Span(body)][..n];
    body[..n]
  }

  ghost function PackedMd5(h: Hash, pw: seq<byte>, salt: seq<byte>): (t: seq<byte>)
    requires HasSize(h, MD5_SIZE)
    ensures |t| == 22 && DOLLAR !in t && 0 !in t
  {
    Md5Fits();
    Pack(MD5_GROUPS, Md5Digest(h, pw, salt))
  }

  /** The result of the MD5 format. */
  ghost function CryptMd5(h: Hash, pw: seq<byte>, salt: seq<byte>): seq<byte>
    requires HasSize(h, MD5_SIZE)
  {
    MD5_MAGIC + Md5Salt(salt) + [DOLLAR] + PackedMd5(h, pw, Md5Salt(salt))
  }

  // ------------------------------------------------------------- closed form of the length

  function Pow10(k: nat): nat {
    if k == 0 then 1 else 10 * Pow10(k - 1)
  }

  lemma {:induction false} DecimalLength(n: nat, k: nat)
    requires k >= 1 && n < Pow10(k)
    ensures |Decimal(n)| <= k
  {
    if n >= 10 {
      DecimalLength(n / 10, k - 1);
    }
  }

  lemma {:induction false} DecimalAtLeast(n: nat, k: nat)
    requires n >= Pow10(k)
    ensures |Decimal(n)| > k
  {
    if k > 0 {
      PowerAtLeastOne(k - 1);
      DecimalAtLeast(n / 10, k - 1);
    }
  }

  lemma {:induction false} PowerAtLeastOne(k: nat)
    ensures Pow10(k) >= 1
  {
    if k > 0 {
      PowerAtLeastOne(k - 1);
    }
  }

  lemma RoundsDigits(rounds: nat)
    requires ROUNDS_MIN <= rounds <= ROUNDS_MAX
    ensures 4 <= |Decimal(rounds)| <= 9
  {
    NineDigits(rounds);
    assert Pow10(3) == 10 * Pow10(2) && Pow10(2) == 100;
    DecimalAtLeast(rounds, 3);
  }

  /** The length of a SHA result, far below the size of the buffer. */
  lemma ShaLength(v: Variant, h: Hash, key: seq<byte>, salt: seq<byte>)
    requires IsVariant(v) && HasSize(h, v.size)
    ensures var p := Parse(v.prefix, salt);
            |CryptSha(v, h, key, salt)|
            == 3 + (if p.custom then 8 + |Decimal(p.rounds)| else 0) + |p.text| + 1 + Length(v.groups)
            <= 123
  {
    VariantFits(v);
    hide IsVariant, ParseBody, PackedSha;
    var p := Parse(v.prefix, salt);
    RoundsDigits(p.rounds);
  }

  // ------------------------------------------------------------- the result as salt

  lemma PrefixSkipped(prefix: seq<byte>, body: seq<byte>)
    ensures SkipPrefix(prefix, prefix + body) == body
  {
  }

  lemma ShaReparsed(v: Variant, h: Hash, key: seq<byte>, salt: seq<byte>)
    requires IsVariant(v) && HasSize(h, v.size)
    ensures Ambiguous(v.prefix, salt) ==> Parse(v.prefix, CryptSha(v, h, key, salt)).custom
    ensures !Ambiguous(v.prefix, salt) ==> Parse(v.prefix, CryptSha(v, h, key, salt)) == Parse(v.prefix, salt)
  {
    hide IsVariant, PackedSha, ParseBody, RoundsText, LooksLikeRounds;
    var p := Parse(v.prefix, salt);
    var tail := PackedSha(v, h, key, p);
    var body := RoundsText(p) + p.text + [DOLLAR] + tail;
    assert CryptSha(v, h, key, salt) == v.prefix + body;
    PrefixSkipped(v.prefix, body);
    assert ROUNDS_MIN <= p.rounds <= ROUNDS_MAX;
    HeadReadBack(p, tail);
  }

  /**
   A password verifies against its own hash exactly when the salt is not ambiguous: the salts
   left out are those whose result would be read back as a rounds specification.
   */
  lemma ShaFixpoint(v: Variant, h: Hash, key: seq<byte>, salt: seq<byte>)
    requires IsVariant(v) && HasSize(h, v.size)
    ensures CryptSha(v, h, key, CryptSha(v, h, key, salt)) == CryptSha(v, h, key, salt)
       <==> !Ambiguous(v.prefix, salt)
  {
    hide *;
    if Ambiguous(v.prefix, salt) {
      AmbiguousGrows(v, h, key, salt);
    } else {
      PlainRepeats(v, h, key, salt);
    }
  }

  lemma PlainRepeats(v: Variant, h: Hash, key: seq<byte>, salt: seq<byte>)
    requires IsVariant(v) && HasSize(h, v.size) && !Ambiguous(v.prefix, salt)
    ensures CryptSha(v, h, key, CryptSha(v, h, key, salt)) == CryptSha(v, h, key, salt)
  {
    hide IsVariant, Parse, PackedSha, Head, Ambiguous;
    ShaReparsed(v, h, key, salt);
  }

  lemma AmbiguousGrows(v: Variant, h: Hash, key: seq<byte>, salt: seq<byte>)
    requires IsVariant(v) && HasSize(h, v.size) && Ambiguous(v.prefix, salt)
    ensures |CryptSha(v, h, key, CryptSha(v, h, key, salt))| > |CryptSha(v, h, key, salt)|
  {
    var first := CryptSha(v, h, key, salt);
    ShaReparsed(v, h, key, salt);
    ShaLength(v, h, key, salt);
    ShaLength(v, h, key, first);
    AmbiguousTail(v, h, key, salt);
    hide IsVariant, ParseBody, CryptSha, LooksLikeRounds, Decimal, Length;
  }

  /** In the ambiguous case the second parse takes its salt from the packed digest, sixteen characters of it. */
  lemma AmbiguousTail(v: Variant, h: Hash, key: seq<byte>, salt: seq<byte>)
    requires IsVariant(v) && HasSize(h, v.size) && Ambiguous(v.prefix, salt)
    ensures |Parse(v.prefix, CryptSha(v, h, key, salt)).text| == 16
  {
    hide IsVariant, PackedSha, LooksLikeRounds, ParseBody;
    var p := Parse(v.prefix, salt);
    var tail := PackedSha(v, h, key, p);
    var s := p.text + [DOLLAR] + tail;
    assert CryptSha(v, h, key, salt) == v.prefix + s;
    PrefixSkipped(v.prefix, s);
    RoundsInText(p.text, tail);
  }

  lemma RoundsInText(text: seq<byte>, tail: seq<byte>)
    requires LooksLikeRounds(text) && DOLLAR !in text && DOLLAR !in tail && |tail| >= 16
    ensures |ParseBody(text + [DOLLAR] + tail).text| == 16
  {
    hide *;
    PlainHasRounds(text, tail);
    RoundsWithNumber(text);
    var s, x := text + [DOLLAR] + tail, text[|ROUNDS_PREFIX|..];
    assert s[|ROUNDS_PREFIX|..] == x + [DOLLAR] + tail;
    StrtoulBeforeDollar(x, tail);
    CustomText(s);
    assert (x + [DOLLAR] + tail)[|x| + 1..] == tail;
    WholeSaltText(tail);
  }

  lemma RoundsWithNumber(text: seq<byte>)
    requires LooksLikeRounds(text)
    ensures |text| >= |ROUNDS_PREFIX| && Strtoul(text[|ROUNDS_PREFIX|..]).length == |text[|ROUNDS_PREFIX|..]|
  {
    hide Strtoul;
  }

  lemma CustomText(s: seq<byte>)
    requires HasRounds(s)
    ensures |s| >= |ROUNDS_PREFIX|
    ensures var num := s[|ROUNDS_PREFIX|..];
            Strtoul(num).length < |num| && ParseBody(s).text == SaltText(num[Strtoul(num).length + 1..])
  {
    hide Strtoul, SaltText;
  }

  lemma WholeSaltText(tail: seq<byte>)
    requires DOLLAR !in tail && |tail| >= 16
    ensures |SaltText(tail)| == 16
  {
    SpanWhole(tail);
  }

  lemma {:induction false} SpanWhole(s: seq<byte>)
    requires DOLLAR !in s
    ensures Span(s) == |s|
    decreases |s|
  {
    if s != [] {
      SpanWhole(s[1..]);
    }
  }

  /** Two digests that print alike are equal. */
  lemma ShaPackedDeterminesDigest(v: Variant, d: seq<byte>, e: seq<byte>)
    requires IsVariant(v) && |d| == |e| == v.size
    ensures forall i :: 0 <= i < |v.groups| ==> Fits(v.groups[i], v.size)
    ensures Pack(v.groups, d) == Pack(v.groups, e) <==> d == e
  {
    VariantFits(v);
    hide Pack, Length;
    if Pack(v.groups, d) != Pack(v.groups, e) {
    } else if v == SHA256 {
      Sha256Follows();
      FollowsInverse(v.groups, 10, false, 32);
      PackInjective(v.groups, Places(32, 10, false), d, e);
    } else {
      Sha512Follows();
      FollowsInverse(v.groups, 21, true, 64);
      PackInjective(v.groups, Places(64, 21, true), d, e);
    }
  }

  lemma HeadCancels(head: seq<byte>, a: seq<byte>, b: seq<byte>)
    requires head + a == head + b
    ensures a == b
  {
    assert (head + a)[|head|..] == a && (head + b)[|head|..] == b;
  }

  /**
   Checking a password against a stored result: the check passes exactly when the digests agree,
   whatever the two passwords are, for every salt whose result reads back.
   */
  lemma ShaVerifies(v: Variant, h: Hash, key: seq<byte>, other: seq<byte>, salt: seq<byte>)
    requires IsVariant(v) && HasSize(h, v.size) && v.size > 0 && !Ambiguous(v.prefix, salt)
    ensures var p := Parse(v.prefix, salt);
            CryptSha(v, h, other, CryptSha(v, h, key, salt)) == CryptSha(v, h, key, salt)
            <==> ShaDigest(h, v.size, other, p.text, p.rounds) == ShaDigest(h, v.size, key, p.text, p.rounds)
  {
    hide Parse, Head, Ambiguous, ShaDigest, HasSize, Pack;
    ShaReparsed(v, h, key, salt);
    VariantFits(v);
    var p := Parse(v.prefix, salt);
    var stored, again := CryptSha(v, h, key, salt), CryptSha(v, h, other, CryptSha(v, h, key, salt));
    hide IsVariant;
    if again == stored {
      HeadCancels(Head(v.prefix, p), PackedSha(v, h, other, p), PackedSha(v, h, key, p));
      ShaPackedDeterminesDigest(v, ShaDigest(h, v.size, other, p.text, p.rounds), ShaDigest(h, v.size, key, p.text, p.rounds));
    }
  }

  lemma Md5Reparsed(h: Hash, pw: seq<byte>, salt: seq<byte>)
    requires HasSize(h, MD5_SIZE)
    ensures Md5Salt(CryptMd5(h, pw, salt)) == Md5Salt(salt)
  {
    var text := Md5Salt(salt);
    var tail := PackedMd5(h, pw, text);
    hide PackedMd5;
    assert CryptMd5(h, pw, salt) == MD5_MAGIC + (text + [DOLLAR] + tail);
    PrefixSkipped(MD5_MAGIC, text + [DOLLAR] + tail);
    SpanAt(text, tail);
    assert (text + [DOLLAR] + tail)[..|text|] == text;
  }

  /** The same for MD5, for every salt. */
  lemma Md5Verifies(h: Hash, pw: seq<byte>, other: seq<byte>, salt: seq<byte>)
    requires HasSize(h, MD5_SIZE)
    ensures CryptMd5(h, other, CryptMd5(h, pw, salt)) == CryptMd5(h, pw, salt)
       <==> Md5Digest(h, other, Md5Salt(salt)) == Md5Digest(h, pw, Md5Salt(salt))
  {
    Md5Reparsed(h, pw, salt);
    hide Md5Salt, Md5Digest, Pack, HasSize;
    var text := Md5Salt(salt);
    if CryptMd5(h, other, CryptMd5(h, pw, salt)) == CryptMd5(h, pw, salt) {
      HeadCancels(MD5_MAGIC + text + [DOLLAR], PackedMd5(h, other, text), PackedMd5(h, pw, text));
      Md5Inverse();
      PackInjective(MD5_GROUPS, MD5_PLACES, Md5Digest(h, other, text), Md5Digest(h, pw, text));
    }
  }

  /** A family of ambiguous salts: rounds without a dollar sign behind them, such as "$5$rounds=1000". */
  lemma AmbiguousFamily(v: Variant, n: nat)
    requires IsVariant(v) && n <= ROUNDS_MAX
    ensures Ambiguous(v.prefix, v.prefix + (ROUNDS_PREFIX + Decimal(n)))
  {
    hide IsVariant, Strtoul;
    var d := Decimal(n);
    var s := ROUNDS_PREFIX + d;
    PrefixSkipped(v.prefix, s);
    NoDollarInDigits(d);
    PrintedNumber(n, []);
    assert d + [DOLLAR] + [] == d + [DOLLAR];
    StrtoulBeforeDollar(d, []);
    assert s[|ROUNDS_PREFIX|..] == d;
    NineDigits(n);
    SpanWhole(s);
    assert s[..|s|] == s;
  }

  lemma NineDigits(n: nat)
    requires n <= ROUNDS_MAX
    ensures |Decimal(n)| <= 9
  {
    assert Pow10(3) == 10 * Pow10(2) && Pow10(2) == 100;
    assert Pow10(6) == 1000 * Pow10(3);
    assert Pow10(9) == 1000 * Pow10(6);
    DecimalLength(n, 9);
  }

  lemma NoDollarInDigits(d: seq<byte>)
    requires forall i :: 0 <= i < |d| ==> IsDigit(d[i])
    ensures DOLLAR !in d && DOLLAR !in ROUNDS_PREFIX + d
  {
  }

  /** The MD5 salt by character: behind "$1$", if that is there, to the first dollar sign, eight characters at most. */
  lemma Md5SaltMeans(s: seq<byte>)
    ensures Spells(MD5_MAGIC, "$1$")
    ensures var t, body := Md5Salt(s), if MD5_MAGIC <= s then s[3..] else s;
            t <= body && '$' as int !in t && |t| <= 8 && (|t| == 8 || t == body || body[|t|] == '$' as int)
  {
    hide Span;
    var body := SkipPrefix(MD5_MAGIC, s);
    var n := Min(Span(body), MD5_SALT_MAX);
    assert body[..|body|] == body;
    assert body[..n] == body[..Span(body)][..n];
  }

  /** The prefixes of the SHA formats, and the sizes of their digests. */
  lemma VariantsAre()
    ensures Spells(SHA256.prefix, "$5$") && SHA256.size == 32 && Spells(SHA512.prefix, "$6$") && SHA512.size == 64
  {
  }

  /** A SHA result by character: prefix, rounds as the salt gave them, salt text, dollar sign, packed digest. */
  lemma ShaResultIs(v: Variant, h: Hash, key: seq<byte>, salt: seq<byte>)
    requires IsVariant(v) && HasSize(h, v.size) && v.size > 0
    ensures var p := Parse(v.prefix, salt);
            && (forall i :: 0 <= i < |v.groups| ==> Fits(v.groups[i], v.size))
            && Spells(ROUNDS_PREFIX, "rounds=")
            && CryptSha(v, h, key, salt)
               == v.prefix + (if p.custom then ROUNDS_PREFIX + Decimal(p.rounds) + ['$' as int] else []) + p.text + ['$' as int]
                  + Pack(v.groups, ShaDigest(h, v.size, key, p.text, p.rounds))
  {
    VariantFits(v);
    hide IsVariant, Parse, Pack, ShaDigest, Decimal;
  }
}
