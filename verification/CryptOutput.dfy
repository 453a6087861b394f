/**
 How the crypt formats of cpukit/libcrypt fill the caller's buffer of 256 bytes: b64_from_24bit and
 _crypt_to64 in misc.c, and the string building of crypt_sha256_r, crypt_sha512_r and crypt_md5_r.
 A pointer into the buffer is an index.
 */
module CryptOutput {
  import opened Bytes
  import opened CryptDigest
  import opened CryptFormats
  import opened CryptPack
  import opened CryptResult
  import opened CryptSalt
  import opened Decimals

  /** The buffer, read as a C string, is `s`. */
  predicate Holds(buffer: seq<byte>, s: seq<byte>) {
    |s| < |buffer| && buffer[..|s|] == s && buffer[|s|] == 0 && 0 !in s
  }

  function Max(a: int, b: int): int { if a < b then b else a }

  // ------------------------------------------------------------- library functions

  /** stpncpy: as much of `src` as fits, and zeros up to `n`; the result is the end of the copy. */
  method Stpncpy(buffer: array<byte>, at: nat, src: seq<byte>, n: nat) returns (end: nat)
    requires at + n <= buffer.Length
    modifies buffer
    ensures end == at + Min(|src|, n)
    ensures buffer[..end] == old(buffer[..at]) + src[..Min(|src|, n)]
    ensures forall i :: end <= i < at + n ==> buffer[i] == 0
  {
    var k := Min(|src|, n);
    end := at + k;
    Copy(buffer, at, src[..k]);
    var i := end;
    while i < at + n
      invariant end <= i <= at + n
      invariant buffer[..end] == old(buffer[..at]) + src[..k]
      invariant forall j :: end <= j < i ==> buffer[j] == 0
    {
      buffer[i] := 0;
      i := i + 1;
    }
  }

  /** snprintf of a text: at most `size - 1` characters of it and a zero; the result is the length of the whole text. */
  method Snprintf(buffer: array<byte>, at: nat, size: nat, text: seq<byte>) returns (n: nat)
    requires at + size <= buffer.Length
    modifies buffer
    ensures n == |text|
    ensures size > 0 ==> var k := Min(|text|, size - 1);
                         buffer[..at + k] == old(buffer[..at]) + text[..k] && buffer[at + k] == 0
    ensures size == 0 ==> buffer[..] == old(buffer[..])
  {
    n := |text|;
    if size > 0 {
      var k := Min(n, size - 1);
      Copy(buffer, at, text[..k]);
      buffer[at + k] := 0;
    }
  }

  method Strlen(buffer: array<byte>, ghost s: seq<byte>) returns (n: nat)
    requires Holds(buffer[..], s)
    ensures n == |s|
  {
    n := 0;
    while buffer[n] != 0
      invariant n <= |s|
      decreases |s| - n
    {
      assert n < |s|;
      n := n + 1;
    }
  }

  /** strncat: appends `src` behind the string in the buffer. */
  method Strncat(buffer: array<byte>, ghost s: seq<byte>, src: seq<byte>)
    requires Holds(buffer[..], s) && |s| + |src| < buffer.Length && 0 !in src
    modifies buffer
    ensures Holds(buffer[..], s + src)
    ensures forall j :: |s| + |src| < j < buffer.Length ==> buffer[j] == old(buffer[j])
  {
    var n := Strlen(buffer, s);
    assert buffer[..n] == buffer[..][..n];
    Copy(buffer, n, src);
    assert buffer[..n + |src|] == s + src;
    buffer[n + |src|] := 0;
    assert buffer[..][..n + |src|] == buffer[..n + |src|];
  }

  // ------------------------------------------------------------- the packers

  lemma {:induction false} To64Front(w: nat, n: nat, k: nat)
    requires k <= n
    ensures To64(w, n)[..k] == To64(w, k)
  {
    if k != 0 {
      To64Front(w / 64, n - 1, k - 1);
      assert To64(w, n)[..k] == [Itoa64(w % 64)] + To64(w / 64, n - 1)[..k - 1];
    }
  }

  lemma OrIsMerged(b2: byte, b1: byte, b0: byte)
    ensures Or(Or(b2 * 65536, b1 * 256), b0) == Merged(b2, b1, b0)
  {
    assert Pow2(4) == 16;
    assert Pow2(8) == 16 * Pow2(4);
    assert Pow2(12) == 16 * Pow2(8);
    assert Pow2(16) == 16 * Pow2(12);
    hide Or, Pow2;
    OrDisjoint(b2, b1 * 256, 16);
    OrDisjoint(b2 * 256 + b1, b0, 8);
  }

  /** _crypt_to64 */
  method CryptTo64(buffer: array<byte>, at: nat, v: nat, n: nat)
    requires at + n <= buffer.Length
    modifies buffer
    ensures buffer[..at + n] == old(buffer[..at]) + To64(v, n)
  {
    hide To64;
    var left, s, w := n - 1, at, v;
    assert To64(v, n)[0..] == To64(v, n);
    while left >= 0
      invariant -1 <= left < n && s == at + (n - 1 - left)
      invariant buffer[..s] == old(buffer[..at]) + To64(v, n)[..s - at]
      invariant To64(v, n)[s - at..] == To64(w, left + 1)
    {
      To64Step(w, left + 1);
      assert To64(v, n)[s - at] == To64(v, n)[s - at..][0];
      assert To64(v, n)[s - at + 1..] == To64(v, n)[s - at..][1..];
      buffer[s] := Itoa64(w % 64);
      s := s + 1;
      w := w / 64;
      left := left - 1;
    }
  }

  /**
   How many characters b64_from_24bit writes: its test comes after the store and looks for a
   counter below zero, so it stops two characters behind the space that is left, not at its end.
   */
  function Written(n: nat, buflen: int): (k: nat)
    ensures k <= n && (buflen >= n ==> k == n)
  {
    Min(n, Max(buflen, -1) + 2)
  }

  /** b64_from_24bit */
  method B64From24bit(buffer: array<byte>, b2: byte, b1: byte, b0: byte, n: nat, buflen: int, cp: nat)
      returns (buflen': int, cp': nat)
    requires cp + Written(n, buflen) <= buffer.Length
    modifies buffer
    ensures cp' == cp + Written(n, buflen) && buflen' == buflen - Written(n, buflen)
    ensures buffer[..cp'] == old(buffer[..cp]) + To64(Merged(b2, b1, b0), Written(n, buflen))
  {
    OrIsMerged(b2, b1, b0);
    hide To64, Or, Merged;
    var w := Or(Or(b2 * 65536, b1 * 256), b0);
    ghost var text := To64(w, n);
    assert text[0..] == text;
    buflen', cp' := buflen, cp;
    var i := 0;
    while i < n
      invariant 0 <= i <= Written(n, buflen) && cp' == cp + i && buflen' == buflen - i
      invariant i == 0 || i <= buflen + 1
      invariant buffer[..cp'] == old(buffer[..cp]) + text[..i]
      invariant text[i..] == To64(w, n - i)
    {
      To64Step(w, n - i);
      assert text[i] == text[i..][0] && text[i + 1..] == text[i..][1..];
      buffer[cp'] := Itoa64(w % 64);
      cp' := cp' + 1;
      buflen' := buflen' - 1;
      if buflen' + 1 < 0 {
        i := i + 1;
        break;
      }
      w := w / 64;
      i := i + 1;
    }
    To64Front(Merged(b2, b1, b0), n, Written(n, buflen));
  }

  // ------------------------------------------------------------- the SHA formats

  /** The parser at the head of crypt_sha256_r and crypt_sha512_r: where the salt starts and how long it is. */
  method ParseSalt(prefix: seq<byte>, salt: seq<byte>) returns (rest: seq<byte>, saltLen: nat, rounds: nat, custom: bool)
    ensures rest == SaltStart(prefix, salt)
    ensures saltLen <= |rest| && saltLen <= SALT_LEN_MAX && Salt(rest[..saltLen], rounds, custom) == Parse(prefix, salt)
    ensures 0 !in salt ==> 0 !in rest
  {
    ParseParts(prefix, salt);
    ghost var body := SkipPrefix(prefix, salt);
    hide Strtoul, ParseBody, Parse, SaltText, Clamp;
    rounds, custom, rest := ROUNDS_DEFAULT, false, salt;
    if prefix <= rest {
      rest := rest[|prefix|..];
    }
    assert rest == body;
    if ROUNDS_PREFIX <= rest {
      var num := rest[|ROUNDS_PREFIX|..];
      var srounds := Strtoul(num);
      if srounds.length < |num| && num[srounds.length] == DOLLAR {
        rest := num[srounds.length + 1..];
        rounds := Max(ROUNDS_MIN, Min(srounds.value, ROUNDS_MAX));
        custom := true;
        ClampIs(srounds.value);
      }
    }
    SaltTextIs(rest);
    saltLen := Min(Span(rest), SALT_LEN_MAX);
  }

  lemma ClampIs(rounds: nat)
    ensures Clamp(rounds) == Max(ROUNDS_MIN, Min(rounds, ROUNDS_MAX))
  {
  }

  lemma SaltTextIs(s: seq<byte>)
    ensures 0 <= Min(Span(s), SALT_LEN_MAX) <= |s| && SaltText(s) == s[..Min(Span(s), SALT_LEN_MAX)]
  {
    hide Span;
  }

  /** The packed digest, group by group, in `buflen` characters of space. */
  method PrintGroups(groups: seq<Group>, d: seq<byte>, buffer: array<byte>, buflen: int, cp: nat) returns (buflen': int, cp': nat)
    requires forall i :: 0 <= i < |groups| ==> Fits(groups[i], |d|)
    requires cp + buflen <= buffer.Length && buflen > Length(groups)
    modifies buffer
    ensures cp' == cp + Length(groups) && buflen' == buflen - Length(groups)
    ensures buffer[..cp'] == old(buffer[..cp]) + Pack(groups, d)
  {
    hide *;
    buflen', cp' := buflen, cp;
    var j := 0;
    NoGroups(groups, d);
    assert buffer[..cp] + [] == buffer[..cp];
    while j < |groups|
      invariant 0 <= j <= |groups| && cp' == cp + Length(groups[..j]) && buflen' == buflen - Length(groups[..j])
      invariant Length(groups[..j]) <= Length(groups)
      invariant buffer[..cp'] == old(buffer[..cp]) + Pack(groups[..j], d)
    {
      LengthStep(groups, j);
      buflen', cp' := PrintGroup(groups, j, d, buffer, buflen', cp', old(buffer[..cp]));
      j := j + 1;
    }
    assert groups[..|groups|] == groups;
  }

  lemma NoGroups(groups: seq<Group>, d: seq<byte>)
    ensures groups[..0] == [] && Length([]) == 0 && Pack([], d) == [] && Length(groups) >= 0
  {
  }

  method PrintGroup(groups: seq<Group>, j: nat, d: seq<byte>, buffer: array<byte>, buflen: int, cp: nat, ghost head: seq<byte>)
      returns (buflen': int, cp': nat)
    requires j < |groups| && forall i :: 0 <= i < |groups| ==> Fits(groups[i], |d|)
    requires cp + buflen <= buffer.Length && buflen >= groups[j].n && buffer[..cp] == head + Pack(groups[..j], d)
    modifies buffer
    ensures cp' == cp + groups[j].n && buflen' == buflen - groups[j].n
    ensures buffer[..cp'] == head + Pack(groups[..j + 1], d)
  {
    hide To64, Merged, Written, Pack, Fits, ByteAt;
    PackStep(groups, d, j);
    var g := groups[j];
    FitsBounds(g, |d|);
    buflen', cp' := B64From24bit(buffer, ByteAt(d, g.b2), ByteAt(d, g.b1), ByteAt(d, g.b0), g.n, buflen, cp);
    assert buffer[..cp'] == head + Pack(groups[..j], d) + PackGroup(g, d);
    assert head + Pack(groups[..j], d) + PackGroup(g, d) == head + (Pack(groups[..j], d) + PackGroup(g, d));
  }

  lemma FitsBounds(g: Group, size: nat)
    requires Fits(g, size)
    ensures g.b2 < size && g.b1 < size && 0 <= g.b0 < size
  {
  }

  lemma {:induction false} LengthStep(groups: seq<Group>, j: nat)
    requires j < |groups|
    ensures Length(groups[..j + 1]) == Length(groups[..j]) + groups[j].n <= Length(groups)
    decreases |groups|
  {
    assert groups[..j + 1][..j] == groups[..j];
    var n := |groups| - 1;
    if j < n {
      assert groups[..n][..j] == groups[..j] && groups[..n][..j + 1] == groups[..j + 1];
      LengthStep(groups[..n], j);
    } else {
      assert groups[..j + 1] == groups;
    }
  }

  lemma PackStep(groups: seq<Group>, d: seq<byte>, j: nat)
    requires j < |groups| && forall i :: 0 <= i < |groups| ==> Fits(groups[i], |d|)
    ensures Pack(groups[..j + 1], d) == Pack(groups[..j], d) + PackGroup(groups[j], d)
  {
    assert groups[..j + 1][..j] == groups[..j];
  }

  /** Prefix and, if the salt named them, rounds. The counter of the space that is left is exact, and a zero follows. */
  method PrintPrefix(prefix: seq<byte>, rounds: nat, custom: bool, buffer: array<byte>, ghost salt: Salt) returns (cp: nat, buflen: int)
    requires |prefix| == 3 && buffer.Length == BUFFER_SIZE && ROUNDS_MIN <= rounds <= ROUNDS_MAX
    requires salt.rounds == rounds && salt.custom == custom
    modifies buffer
    ensures cp == 3 + |RoundsText(salt)| && buflen == BUFFER_SIZE - cp && 236 <= buflen
    ensures buffer[..cp] == prefix + RoundsText(salt) && buffer[cp] == 0
  {
    hide Decimal;
    buflen := BUFFER_SIZE;
    cp := Stpncpy(buffer, 0, prefix, Max(0, buflen));
    buflen := buflen - |prefix|;
    assert buffer[..cp] == prefix;
    if custom {
      RoundsDigits(rounds);
      var n := Snprintf(buffer, cp, Max(0, buflen), ROUNDS_PREFIX + Decimal(rounds) + [DOLLAR]);
      cp := cp + n;
      buflen := buflen - n;
    }
  }

  method PrintDollar(buffer: array<byte>, at: nat, space: int) returns (cp: nat, buflen: int)
    requires at < buffer.Length && space > 0
    modifies buffer
    ensures cp == at + 1 && buflen == space - 1 && buffer[..cp] == old(buffer[..at]) + [DOLLAR]
  {
    cp, buflen := at, space;
    if buflen > 0 {
      buffer[cp] := DOLLAR;
      cp := cp + 1;
      buflen := buflen - 1;
    }
  }

  /** The head of the result: prefix, rounds if the salt named them, salt, dollar sign. */
  method PrintHead(prefix: seq<byte>, rest: seq<byte>, saltLen: nat, rounds: nat, custom: bool, buffer: array<byte>)
      returns (cp: nat, buflen: int)
    requires |prefix| == 3 && buffer.Length == BUFFER_SIZE
    requires saltLen <= |rest| && saltLen <= SALT_LEN_MAX && ROUNDS_MIN <= rounds <= ROUNDS_MAX
    modifies buffer
    ensures var head := Head(prefix, Salt(rest[..saltLen], rounds, custom));
            cp == |head| && buflen == BUFFER_SIZE - cp && 219 <= buflen && buffer[..cp] == head
  {
    hide RoundsText;
    ghost var salt := Salt(rest[..saltLen], rounds, custom);
    cp, buflen := PrintPrefix(prefix, rounds, custom, buffer, salt);
    var k := Min(Max(0, buflen), saltLen);
    cp := Stpncpy(buffer, cp, rest, k);
    buflen := buflen - k;
    assert buffer[..cp] == prefix + RoundsText(salt) + salt.text;
    cp, buflen := PrintDollar(buffer, cp, buflen);
  }

  /** crypt_sha256_r and crypt_sha512_r: the result is always there (`ok`; NULL in the source otherwise) and complete. */
  method CryptShaR(v: Variant, h: Hash, key: seq<byte>, salt: seq<byte>, buffer: array<byte>) returns (ok: bool)
    requires IsVariant(v) && HasSize(h, v.size) && buffer.Length == BUFFER_SIZE && 0 !in salt
    modifies buffer
    ensures ok && Holds(buffer[..], CryptSha(v, h, key, salt))
  {
    VariantFits(v);
    var rest, saltLen, rounds, custom := ParseSalt(v.prefix, salt);
    hide IsVariant, Parse, ShaDigest, HasSize, Head, Pack, Length;
    ghost var p := Parse(v.prefix, salt);
    InRange(v.prefix, salt);
    var altResult := ComputeSha(h, v.size, key, rest[..saltLen], rounds);
    var cp, buflen := PrintHead(v.prefix, rest, saltLen, rounds, custom, buffer);
    buflen, cp := PrintGroups(v.groups, altResult, buffer, buflen, cp);
    assert buffer[..cp] == CryptSha(v, h, key, salt);
    ok := buflen > 0;
    if ok {
      buffer[cp] := 0;
    }
    assert buffer[..][..cp] == buffer[..cp];
    ShaNoZero(v, h, key, salt);
  }

  lemma InRange(prefix: seq<byte>, salt: seq<byte>)
    ensures ROUNDS_MIN <= Parse(prefix, salt).rounds <= ROUNDS_MAX
  {
    hide ParseBody;
  }

  lemma ShaNoZero(v: Variant, h: Hash, key: seq<byte>, salt: seq<byte>)
    requires IsVariant(v) && HasSize(h, v.size) && 0 !in salt
    ensures 0 !in CryptSha(v, h, key, salt)
  {
    var p := Parse(v.prefix, salt);
    assert 0 !in p.text by {
      hide Strtoul;
    }
    assert 0 !in v.prefix;
    hide IsVariant, PackedSha, Parse;
    assert 0 !in ROUNDS_PREFIX && 0 !in Decimal(p.rounds);
  }

  // ------------------------------------------------------------- the MD5 format

  /** The scan for the end of the salt. */
  method ScanMd5Salt(sp: seq<byte>) returns (sl: nat)
    ensures sl == Min(Span(sp), MD5_SALT_MAX)
  {
    sl := 0;
    while sl < |sp| && sp[sl] != DOLLAR && sl < MD5_SALT_MAX
      invariant sl <= |sp| && sl <= MD5_SALT_MAX && Span(sp) == sl + Span(sp[sl..])
    {
      assert sp[sl..][1..] == sp[sl + 1..];
      sl := sl + 1;
    }
  }

  /** The six calls of _crypt_to64. */
  method PutGroups(groups: seq<Group>, d: seq<byte>, buffer: array<byte>, p: nat) returns (p': nat)
    requires forall i :: 0 <= i < |groups| ==> Fits(groups[i], |d|)
    requires p + Length(groups) <= buffer.Length
    modifies buffer
    ensures p' == p + Length(groups) && buffer[..p'] == old(buffer[..p]) + Pack(groups, d)
  {
    hide *;
    p' := p;
    var j := 0;
    NoGroups(groups, d);
    assert buffer[..p] + [] == buffer[..p];
    while j < |groups|
      invariant 0 <= j <= |groups| && p' == p + Length(groups[..j]) && Length(groups[..j]) <= Length(groups)
      invariant buffer[..p'] == old(buffer[..p]) + Pack(groups[..j], d)
    {
      LengthStep(groups, j);
      PutGroup(groups, j, d, buffer, p', old(buffer[..p]));
      p' := p' + groups[j].n;
      j := j + 1;
    }
    assert groups[..|groups|] == groups;
  }

  method PutGroup(groups: seq<Group>, j: nat, d: seq<byte>, buffer: array<byte>, p: nat, ghost head: seq<byte>)
    requires j < |groups| && forall i :: 0 <= i < |groups| ==> Fits(groups[i], |d|)
    requires p + groups[j].n <= buffer.Length && buffer[..p] == head + Pack(groups[..j], d)
    modifies buffer
    ensures buffer[..p + groups[j].n] == head + Pack(groups[..j + 1], d)
  {
    hide To64, Merged, Pack, Fits, ByteAt;
    PackStep(groups, d, j);
    var g := groups[j];
    FitsBounds(g, |d|);
    OrIsMerged(ByteAt(d, g.b2), ByteAt(d, g.b1), ByteAt(d, g.b0));
    var l := Or(Or(ByteAt(d, g.b2) * 65536, ByteAt(d, g.b1) * 256), ByteAt(d, g.b0));
    CryptTo64(buffer, p, l, g.n);
    assert buffer[..p + g.n] == head + Pack(groups[..j], d) + PackGroup(g, d);
    assert head + Pack(groups[..j], d) + PackGroup(g, d) == head + (Pack(groups[..j], d) + PackGroup(g, d));
  }

  /** crypt_md5_r */
  method CryptMd5R(h: Hash, pw: seq<byte>, salt: seq<byte>, buffer: array<byte>)
    requires HasSize(h, MD5_SIZE) && buffer.Length == BUFFER_SIZE && 0 !in salt
    modifies buffer
    ensures Holds(buffer[..], CryptMd5(h, pw, salt))
  {
    hide Md5Digest, HasSize, Pack;
    var sp := salt;
    if MD5_MAGIC <= sp {
      sp := sp[|MD5_MAGIC|..];
    }
    var sl := ScanMd5Salt(sp);
    var text := sp[..sl];
    assert text == Md5Salt(salt);
    var final := ComputeMd5Start(h, pw, text);
    PrintMd5Head(text, buffer);
    final := RunRounds(h, final, pw, text, 1000);
    Md5DigestIs(h, pw, text);
    FinishMd5(final, buffer, MD5_MAGIC + text + [DOLLAR]);
  }

  lemma Md5DigestIs(h: Hash, pw: seq<byte>, salt: seq<byte>)
    requires HasSize(h, MD5_SIZE)
    ensures h(pw + salt + pw) != [] && Md5Digest(h, pw, salt) == Rounds(h, Md5Start(h, pw, salt), pw, salt, 1000)
    ensures Md5Fitting() && PackedMd5(h, pw, salt) == Pack(MD5_GROUPS, Md5Digest(h, pw, salt))
  {
    Md5Fits();
    hide Rounds, Pack;
  }

  ghost predicate Md5Fitting() {
    forall i :: 0 <= i < |MD5_GROUPS| ==> Fits(MD5_GROUPS[i], MD5_SIZE)
  }

  /** The packed digest behind the head, and the terminator. */
  method FinishMd5(final: seq<byte>, buffer: array<byte>, ghost head: seq<byte>)
    requires Md5Fitting() && |final| == MD5_SIZE && Holds(buffer[..], head) && |head| + 22 < buffer.Length
    modifies buffer
    ensures Holds(buffer[..], head + Pack(MD5_GROUPS, final))
  {
    hide Pack, Length;
    Md5Fits();
    var p := Strlen(buffer, head);
    assert buffer[..p] == buffer[..][..p] == head;
    p := PutGroups(MD5_GROUPS, final, buffer, p);
    buffer[p] := 0;
    assert buffer[..][..p] == buffer[..p];
  }

  method PrintMd5Head(text: seq<byte>, buffer: array<byte>)
    requires buffer.Length == BUFFER_SIZE && 0 !in text && |text| <= MD5_SALT_MAX
    modifies buffer
    ensures Holds(buffer[..], MD5_MAGIC + text + [DOLLAR])
  {
    Copy(buffer, 0, MD5_MAGIC + [0]);
    assert buffer[..4] == MD5_MAGIC + [0];
    assert buffer[..][..3] == buffer[..4][..3] && buffer[3] == buffer[..4][3];
    Strncat(buffer, MD5_MAGIC, text);
    Strncat(buffer, MD5_MAGIC + text, [DOLLAR]);
  }
}
