/**
 The list of crypt formats and the dispatch of crypt_r (cpukit/libcrypt/crypt.c), and what crypt_r
 promises over every list that crypt_add_format builds from the MD5, SHA-256 and SHA-512 formats.
 */
module Crypt {
  import opened Alphabets
  import opened Bytes
  import opened CryptDigest
  import opened CryptFormats
  import opened CryptInPlace
  import opened CryptOutput
  import opened CryptResult
  import opened CryptSalt

  /** Which function a format calls. */
  datatype Kind = Default | Md5 | Sha256 | Sha512

  datatype Hashes = Hashes(md5: Hash, sha256: Hash, sha512: Hash)

  ghost predicate HaveSizes(hs: Hashes) {
    HasSize(hs.md5, MD5_SIZE) && HasSize(hs.sha256, SHA256.size) && HasSize(hs.sha512, SHA512.size)
  }

  function Magic(k: Kind): seq<byte>
    requires k != Default
  {
    match k
    case Md5 => MD5_MAGIC
    case Sha256 => SHA256.prefix
    case Sha512 => SHA512.prefix
  }

  predicate Claims(k: Kind, salt: seq<byte>) {
    k != Default && Magic(k) <= salt
  }

  /** The first format in the list that claims the salt. */
  function FirstClaim(kinds: seq<Kind>, salt: seq<byte>): (i: nat)
    ensures i <= |kinds| && (i < |kinds| ==> Claims(kinds[i], salt))
    ensures forall j :: 0 <= j < i ==> !Claims(kinds[j], salt)
  {
    if kinds == [] || Claims(kinds[0], salt) then 0 else 1 + FirstClaim(kinds[1..], salt)
  }

  /** The first format that claims the salt, or the head of the list. */
  function Chosen(kinds: seq<Kind>, salt: seq<byte>): Kind
    requires kinds != []
  {
    var i := FirstClaim(kinds, salt);
    if i < |kinds| then kinds[i] else kinds[0]
  }

  function Truncated(pw: seq<byte>): seq<byte> {
    pw[..Min(|pw|, BUFFER_SIZE - 1)]
  }

  ghost function CryptAs(k: Kind, hs: Hashes, pw: seq<byte>, salt: seq<byte>): seq<byte>
    requires HaveSizes(hs)
  {
    match k
    case Default => Truncated(pw)
    case Md5 => CryptMd5(hs.md5, pw, salt)
    case Sha256 => CryptSha(SHA256, hs.sha256, pw, salt)
    case Sha512 => CryptSha(SHA512, hs.sha512, pw, salt)
  }

  /** What crypt_r computes with a list of formats. */
  ghost function Crypt(kinds: seq<Kind>, hs: Hashes, pw: seq<byte>, salt: seq<byte>): seq<byte>
    requires HaveSizes(hs) && kinds != []
  {
    CryptAs(Chosen(kinds, salt), hs, pw, salt)
  }

  /** The salts, for the format that gets them, that the result does not carry over. */
  predicate Lossy(k: Kind, salt: seq<byte>) {
    (k == Sha256 && Ambiguous(SHA256.prefix, salt)) || (k == Sha512 && Ambiguous(SHA512.prefix, salt))
  }

  /** The salt text that a result carries. */
  function SaltTextFor(k: Kind, salt: seq<byte>): seq<byte> {
    match k
    case Default => []
    case Md5 => Md5Salt(salt)
    case Sha256 => Parse(SHA256.prefix, salt).text
    case Sha512 => Parse(SHA512.prefix, salt).text
  }

  /** What a call leaves whose salt, a stored result, lies in the result buffer. */
  ghost function InPlace(k: Kind, hs: Hashes, pw: seq<byte>, stored: seq<byte>): seq<byte>
    requires HaveSizes(hs)
  {
    match k
    case Default => Truncated(pw)
    case Md5 => InPlaceMd5(hs.md5, pw, stored)
    case Sha256 => InPlaceSha(SHA256, hs.sha256, pw, stored)
    case Sha512 => InPlaceSha(SHA512, hs.sha512, pw, stored)
  }

  /** What the formats need of a salt that lies in the result buffer; every stored result of theirs has it. */
  predicate Storable(k: Kind, stored: seq<byte>) {
    match k
    case Default => true
    case Md5 => MD5_MAGIC <= stored && |stored| <= 34
    case Sha256 => Canonical(SHA256.prefix, stored)
    case Sha512 => Canonical(SHA512.prefix, stored)
  }

  // ------------------------------------------------------------- the list

  class Format {
    const kind: Kind
    var next: Format?

    constructor (kind: Kind)
      ensures this.kind == kind && next == null
    {
      this.kind := kind;
      next := null;
    }
  }

  /** cf_head and cf_default. */
  class Registry {
    var head: Format
    ghost var nodes: seq<Format>

    /** The list is linked in order, ends in the default format, and has no format twice. */
    ghost predicate Valid()
      reads this, nodes
    {
      && nodes != [] && head == nodes[0]
      && (forall i :: 0 <= i < |nodes| - 1 ==> nodes[i].next == nodes[i + 1] && nodes[i].kind != Default)
      && nodes[|nodes| - 1].next == null && nodes[|nodes| - 1].kind == Default
      && (forall i, j :: 0 <= i < j < |nodes| ==> nodes[i] != nodes[j])
    }

    ghost function Kinds(): (ks: seq<Kind>)
      reads this, nodes
      ensures |ks| == |nodes| && forall i :: 0 <= i < |ks| ==> ks[i] == nodes[i].kind
    {
      seq(|nodes|, i requires 0 <= i < |nodes| reads this, nodes => nodes[i].kind)
    }

    constructor ()
      ensures Valid() && Kinds() == [Default] && Registered(Kinds()) && fresh(nodes)
    {
      var cfDefault := new Format(Default);
      head := cfDefault;
      nodes := [cfDefault];
    }

    /** crypt_add_format. The default format is private to the source, so no caller can add it. */
    method AddFormat(cf: Format)
      requires Valid() && cf.kind != Default && (cf in nodes || cf.next == null)
      modifies this, cf
      ensures Valid() && nodes == if cf in old(nodes) then old(nodes) else [cf] + old(nodes)
      ensures Registered(Kinds()) && Kinds() == if cf in old(nodes) then old(Kinds()) else [cf.kind] + old(Kinds())
      ensures cf.next != null && (cf in old(nodes) ==> cf.next == old(cf.next))
    {
      if cf in nodes {
        ghost var i :| 0 <= i < |nodes| && nodes[i] == cf;
        assert i < |nodes| - 1 && cf.next == nodes[i + 1];
      }
      if cf.next == null {
        cf.next := head;
        head := cf;
        nodes := [cf] + nodes;
      }
    }

    /** The walk of crypt_r through the list. */
    method Choose(salt: seq<byte>) returns (k: Kind)
      requires Valid()
      ensures Kinds() != [] && k == Chosen(Kinds(), salt)
    {
      hide FirstClaim;
      var cf: Format? := head;
      ghost var i := 0;
      while cf != null
        invariant 0 <= i <= |nodes| && cf == (if i < |nodes| then nodes[i] else null)
        invariant forall j :: 0 <= j < i ==> !Claims(nodes[j].kind, salt)
        decreases |nodes| - i
      {
        if cf.kind != Default && Magic(cf.kind) <= salt {
          return cf.kind;
        }
        cf := cf.next;
        i := i + 1;
      }
      k := head.kind;
    }

    /** crypt_r: the result string is in the buffer, and is never NULL. */
    method CryptR(hs: Hashes, passwd: seq<byte>, salt: seq<byte>, buffer: array<byte>) returns (ok: bool)
      requires Valid() && HaveSizes(hs) && buffer.Length == BUFFER_SIZE && 0 !in passwd && 0 !in salt
      modifies buffer
      ensures ok && Holds(buffer[..], Crypt(Kinds(), hs, passwd, salt))
    {
      hide *;
      var k := Choose(salt);
      KindMeanings(k, Kinds(), hs, passwd, salt);
      match k
      case Default =>
        CopyDefault(passwd, buffer);
        ok := true;
      case Md5 =>
        CryptMd5R(hs.md5, passwd, salt, buffer);
        ok := true;
      case Sha256 =>
        ok := CryptShaR(SHA256, hs.sha256, passwd, salt, buffer);
      case Sha512 =>
        ok := CryptShaR(SHA512, hs.sha512, passwd, salt, buffer);
    }

    /** crypt_r with a stored result in the result buffer as its salt. */
    method CryptRInPlace(hs: Hashes, passwd: seq<byte>, buffer: array<byte>, ghost stored: seq<byte>) returns (ok: bool)
      requires Valid() && HaveSizes(hs) && buffer.Length == BUFFER_SIZE && 0 !in passwd && Holds(buffer[..], stored)
      requires Kinds() != [] && Storable(Chosen(Kinds(), stored), stored)
      modifies buffer
      ensures ok && Holds(buffer[..], InPlace(Chosen(Kinds(), stored), hs, passwd, stored))
    {
      hide *;
      var n := Strlen(buffer, stored);
      Reads(buffer[..], stored);
      assert buffer[..n] == buffer[..][..n];
      var k := Choose(buffer[..n]);
      InPlaceMeanings(k, hs, passwd, stored);
      match k
      case Default =>
        CopyDefault(passwd, buffer);
        ok := true;
      case Md5 =>
        CryptMd5InPlace(hs.md5, passwd, buffer, stored);
        ok := true;
      case Sha256 =>
        ok := CryptShaInPlace(SHA256, hs.sha256, passwd, buffer, stored);
      case Sha512 =>
        ok := CryptShaInPlace(SHA512, hs.sha512, passwd, buffer, stored);
    }
  }

  lemma Reads(buffer: seq<byte>, s: seq<byte>)
    requires Holds(buffer, s)
    ensures |s| < |buffer| && buffer[..|s|] == s
  {
  }

  lemma InPlaceMeanings(k: Kind, hs: Hashes, pw: seq<byte>, stored: seq<byte>)
    requires HaveSizes(hs) && Storable(k, stored)
    ensures IsVariant(SHA256) && HasSize(hs.sha256, SHA256.size) && IsVariant(SHA512) && HasSize(hs.sha512, SHA512.size)
    ensures HasSize(hs.md5, MD5_SIZE)
    ensures k == Md5 ==> MD5_MAGIC <= stored && |stored| + MD5_SALT_MAX < BUFFER_SIZE
    ensures k == Sha256 ==> Canonical(SHA256.prefix, stored)
    ensures k == Sha512 ==> Canonical(SHA512.prefix, stored)
    ensures InPlace(k, hs, pw, stored) == match k
                                          case Default => Truncated(pw)
                                          case Md5 => InPlaceMd5(hs.md5, pw, stored)
                                          case Sha256 => InPlaceSha(SHA256, hs.sha256, pw, stored)
                                          case Sha512 => InPlaceSha(SHA512, hs.sha512, pw, stored)
  {
    hide HasSize, InPlaceSha, InPlaceMd5, Truncated, Canonical;
  }

  lemma KindMeanings(k: Kind, kinds: seq<Kind>, hs: Hashes, pw: seq<byte>, salt: seq<byte>)
    requires HaveSizes(hs) && kinds != [] && k == Chosen(kinds, salt)
    ensures IsVariant(SHA256) && HasSize(hs.sha256, SHA256.size) && IsVariant(SHA512) && HasSize(hs.sha512, SHA512.size)
    ensures HasSize(hs.md5, MD5_SIZE)
    ensures Crypt(kinds, hs, pw, salt) == match k
                                          case Default => Truncated(pw)
                                          case Md5 => CryptMd5(hs.md5, pw, salt)
                                          case Sha256 => CryptSha(SHA256, hs.sha256, pw, salt)
                                          case Sha512 => CryptSha(SHA512, hs.sha512, pw, salt)
  {
    hide HasSize, CryptMd5, CryptSha, Truncated, Chosen;
  }

  /** cf_default_func: strncpy of at most 255 characters and a zero in the last place. */
  method CopyDefault(pw: seq<byte>, buffer: array<byte>)
    requires buffer.Length == BUFFER_SIZE && 0 !in pw
    modifies buffer
    ensures Holds(buffer[..], Truncated(pw))
  {
    var end := Stpncpy(buffer, 0, pw, BUFFER_SIZE - 1);
    assert buffer[..end] == Truncated(pw);
    buffer[BUFFER_SIZE - 1] := 0;
    assert buffer[..][..end] == buffer[..end];
  }

  /** The magic strings of the formats, and what the default format keeps of a password. */
  lemma FormatsAre(pw: seq<byte>)
    ensures Spells(Magic(Md5), "$1$") && Spells(Magic(Sha256), "$5$") && Spells(Magic(Sha512), "$6$")
    ensures |Truncated(pw)| == (if |pw| > 255 then 255 else |pw|) && Truncated(pw) <= pw
  {
    VariantsAre();
    Md5SaltMeans([]);
    hide SHA256, SHA512, MD5_MAGIC;
  }

  // ------------------------------------------------------------- over any list

  /** A list as crypt_add_format leaves it: only the last format is the default. */
  predicate Registered(kinds: seq<Kind>) {
    kinds != [] && kinds[|kinds| - 1] == Default && forall i :: 0 <= i < |kinds| - 1 ==> kinds[i] != Default
  }

  lemma MagicsDiffer(j: Kind, k: Kind, s: seq<byte>)
    requires j != Default && k != Default && Magic(j) <= s && Magic(k) <= s
    ensures j == k
  {
    assert s[1] == Magic(j)[1] == Magic(k)[1];
  }

  /** A result goes back to the format that made it. */
  lemma ResultFindsFormat(kinds: seq<Kind>, k: Kind, s: seq<byte>)
    requires k in kinds && k != Default && Magic(k) <= s
    ensures Chosen(kinds, s) == k
  {
    hide FirstClaim;
    var i := FirstClaim(kinds, s);
    assert Claims(k, s);
    assert i < |kinds|;
    MagicsDiffer(kinds[i], k, s);
  }

  lemma ResultHasMagic(k: Kind, hs: Hashes, pw: seq<byte>, salt: seq<byte>)
    requires HaveSizes(hs) && k != Default
    ensures Magic(k) <= CryptAs(k, hs, pw, salt)
  {
    hide HasSize, Parse, PackedSha, PackedMd5, Md5Salt, RoundsText;
  }

  lemma ChosenInList(kinds: seq<Kind>, salt: seq<byte>)
    requires Registered(kinds)
    ensures Chosen(kinds, salt) in kinds && (Chosen(kinds, salt) == Default <==> kinds == [Default])
  {
    hide FirstClaim;
  }

  /** The result of a run of crypt_r as the salt of the next: which format then runs, whatever the password. */
  lemma SecondRun(kinds: seq<Kind>, hs: Hashes, pw: seq<byte>, other: seq<byte>, salt: seq<byte>)
    requires HaveSizes(hs) && Registered(kinds)
    ensures Crypt(kinds, hs, other, Crypt(kinds, hs, pw, salt))
         == CryptAs(Chosen(kinds, salt), hs, other, Crypt(kinds, hs, pw, salt))
  {
    hide Chosen, CryptAs;
    SecondChoice(kinds, hs, pw, salt);
  }

  lemma SecondChoice(kinds: seq<Kind>, hs: Hashes, pw: seq<byte>, salt: seq<byte>)
    requires HaveSizes(hs) && Registered(kinds)
    ensures Chosen(kinds, Crypt(kinds, hs, pw, salt)) == Chosen(kinds, salt)
  {
    var k := Chosen(kinds, salt);
    ChosenInList(kinds, salt);
    if k == Default {
      ChosenInList(kinds, Crypt(kinds, hs, pw, salt));
    } else {
      ResultHasMagic(k, hs, pw, salt);
      ResultFindsFormat(kinds, k, Crypt(kinds, hs, pw, salt));
    }
  }

  /**
   A password verifies against its own result, for every list of formats, password and salt except
   the lossy ones, and for those it never does.
   */
  lemma Fixpoint(kinds: seq<Kind>, hs: Hashes, pw: seq<byte>, salt: seq<byte>)
    requires HaveSizes(hs) && Registered(kinds)
    ensures Crypt(kinds, hs, pw, Crypt(kinds, hs, pw, salt)) == Crypt(kinds, hs, pw, salt)
       <==> !Lossy(Chosen(kinds, salt), salt)
  {
    hide HasSize, Chosen, Truncated, CryptMd5, CryptSha, Ambiguous;
    SecondRun(kinds, hs, pw, pw, salt);
    match Chosen(kinds, salt)
    case Default =>
    case Md5 => Md5Verifies(hs.md5, pw, pw, salt);
    case Sha256 => ShaFixpoint(SHA256, hs.sha256, pw, salt);
    case Sha512 => ShaFixpoint(SHA512, hs.sha512, pw, salt);
  }

  /** The digest that decides whether two passwords pass for the same. */
  ghost function DigestFor(k: Kind, hs: Hashes, pw: seq<byte>, salt: seq<byte>): seq<byte>
    requires HaveSizes(hs)
  {
    match k
    case Default => Truncated(pw)
    case Md5 => Md5Digest(hs.md5, pw, Md5Salt(salt))
    case Sha256 =>
      var p := Parse(SHA256.prefix, salt);
      ShaDigest(hs.sha256, SHA256.size, pw, p.text, p.rounds)
    case Sha512 =>
      var p := Parse(SHA512.prefix, salt);
      ShaDigest(hs.sha512, SHA512.size, pw, p.text, p.rounds)
  }

  /** The check of a password against a stored result passes exactly when the digests agree. */
  lemma Verifies(kinds: seq<Kind>, hs: Hashes, pw: seq<byte>, other: seq<byte>, salt: seq<byte>)
    requires HaveSizes(hs) && Registered(kinds) && !Lossy(Chosen(kinds, salt), salt)
    ensures var k := Chosen(kinds, salt);
            Crypt(kinds, hs, other, Crypt(kinds, hs, pw, salt)) == Crypt(kinds, hs, pw, salt)
            <==> DigestFor(k, hs, other, salt) == DigestFor(k, hs, pw, salt)
  {
    hide HasSize, Chosen, Truncated, CryptMd5, CryptSha, Ambiguous, Parse, ShaDigest, Md5Digest;
    SecondRun(kinds, hs, pw, other, salt);
    match Chosen(kinds, salt)
    case Default =>
    case Md5 => Md5Verifies(hs.md5, pw, other, salt);
    case Sha256 => ShaVerifies(SHA256, hs.sha256, pw, other, salt);
    case Sha512 => ShaVerifies(SHA512, hs.sha512, pw, other, salt);
  }

  /**
   A stored result that is checked in place, in the buffer it was left in: the call is defined unless
   the salt was lossy, goes to the format that made the result, and gives the result back exactly if
   its salt text is empty.
   */
  lemma InPlaceFixpoint(kinds: seq<Kind>, hs: Hashes, pw: seq<byte>, salt: seq<byte>)
    requires HaveSizes(hs) && Registered(kinds) && !Lossy(Chosen(kinds, salt), salt)
    ensures var k, stored := Chosen(kinds, salt), Crypt(kinds, hs, pw, salt);
            && Chosen(kinds, stored) == k && Storable(k, stored)
            && (InPlace(k, hs, pw, stored) == stored <==> SaltTextFor(k, salt) == [])
  {
    hide HasSize, Chosen, Truncated, CryptMd5, CryptSha, Ambiguous, Parse, InPlaceSha, InPlaceMd5, Canonical, Md5Salt;
    SecondChoice(kinds, hs, pw, salt);
    match Chosen(kinds, salt)
    case Default =>
    case Md5 => Md5InPlaceFixpoint(hs.md5, pw, salt);
    case Sha256 => ShaInPlaceFixpoint(SHA256, hs.sha256, pw, salt);
    case Sha512 => ShaInPlaceFixpoint(SHA512, hs.sha512, pw, salt);
  }
}
