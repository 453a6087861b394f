/**
 The result strings of the crypt formats (crypt_sha256_r, crypt_sha512_r and crypt_md5_r in
 cpukit/libcrypt), written into the caller's buffer of 256 bytes.
 */
module CryptFormats {
  import opened Bytes
  import opened CryptDigest
  import opened CryptPack

  const BUFFER_SIZE := 256

  /** What sets the SHA-256 and the SHA-512 format apart. */
  datatype Variant = Variant(prefix: seq<byte>, size: nat, groups: seq<Group>)

  const SHA256 := Variant([36, 53, 36], 32, [
    Group(0, 10, 20, 4), Group(21, 1, 11, 4), Group(12, 22, 2, 4), Group(3, 13, 23, 4),
    Group(24, 4, 14, 4), Group(15, 25, 5, 4), Group(6, 16, 26, 4), Group(27, 7, 17, 4),
    Group(18, 28, 8, 4), Group(9, 19, 29, 4), Group(-1, 31, 30, 3)])

  const SHA512 := Variant([36, 54, 36], 64, [
    Group(0, 21, 42, 4), Group(22, 43, 1, 4), Group(44, 2, 23, 4), Group(3, 24, 45, 4),
    Group(25, 46, 4, 4), Group(47, 5, 26, 4), Group(6, 27, 48, 4), Group(28, 49, 7, 4),
    Group(50, 8, 29, 4), Group(9, 30, 51, 4), Group(31, 52, 10, 4), Group(53, 11, 32, 4),
    Group(12, 33, 54, 4), Group(34, 55, 13, 4), Group(56, 14, 35, 4), Group(15, 36, 57, 4),
    Group(37, 58, 16, 4), Group(59, 17, 38, 4), Group(18, 39, 60, 4), Group(40, 61, 19, 4),
    Group(62, 20, 41, 4), Group(-1, -1, 63, 2)])

  const MD5_GROUPS := [
    Group(0, 6, 12, 4), Group(1, 7, 13, 4), Group(2, 8, 14, 4), Group(3, 9, 15, 4),
    Group(4, 10, 5, 4), Group(-1, -1, 11, 2)]

  ghost predicate IsVariant(v: Variant) {
    v == SHA256 || v == SHA512
  }

  // ------------------------------------------------------------- every digest byte once

  function Part(j: nat, m: nat, p: nat): nat {
    if p == 0 then j else if p == 1 then j + m else j + 2 * m
  }

  function Following(k: nat): nat {
    if k == 2 then 0 else k + 1
  }

  /** How far group `j` is rotated: one step a group, in one direction or the other. */
  function Turn(j: nat, up: bool): nat {
    if up || j % 3 == 0 then j % 3 else 3 - j % 3
  }

  /** Group `j` takes bytes j, j + m and j + 2m, rotated. */
  function Rotated(j: nat, m: nat, up: bool): Group {
    var k := Turn(j, up);
    Group(Part(j, m, k), Part(j, m, Following(k)), Part(j, m, Following(Following(k))), 4)
  }

  /** The place of part `p` of group `j`. */
  function PlaceInGroup(j: nat, p: nat, up: bool): Place {
    var k := Turn(j, up);
    Place(j, if p == k then 2 else if p == Following(k) then 1 else 0)
  }

  function PlaceOf(i: nat, m: nat, up: bool): Place {
    if i >= 3 * m then Place(m, i - 3 * m)
    else if i < m then PlaceInGroup(i, 0, up)
    else if i < 2 * m then PlaceInGroup(i - m, 1, up)
    else PlaceInGroup(i - 2 * m, 2, up)
  }

  function Places(n: nat, m: nat, up: bool): (places: seq<Place>)
    ensures |places| == n && forall i :: 0 <= i < n ==> places[i] == PlaceOf(i, m, up)
  {
    seq(n, i requires 0 <= i < n => PlaceOf(i, m, up))
  }

  /** Groups that follow the rotation, and a last one for the one or two bytes that are left. */
  ghost predicate Follows(groups: seq<Group>, m: nat, up: bool, n: nat) {
    && m > 0 && |groups| == m + 1 && (n == 3 * m + 1 || n == 3 * m + 2)
    && (forall j :: 0 <= j < m ==> groups[j] == Rotated(j, m, up))
    && groups[m] == Group(-1, if n == 3 * m + 2 then 3 * m + 1 else -1, 3 * m, n - 3 * m + 1)
  }

  lemma RotatedPlaces(j: nat, m: nat, up: bool)
    requires j < m
    ensures var g := Rotated(j, m, up);
            && PlaceOf(g.b0, m, up) == Place(j, 0) && PlaceOf(g.b1, m, up) == Place(j, 1) && PlaceOf(g.b2, m, up) == Place(j, 2)
            && 0 <= g.b0 < 3 * m && 0 <= g.b1 < 3 * m && 0 <= g.b2 < 3 * m
  {
  }

  lemma PlacesRotated(i: nat, m: nat, up: bool)
    requires i < 3 * m
    ensures var p := PlaceOf(i, m, up);
            && p.group < m && p.slot < 3
            && var g := Rotated(p.group, m, up);
               i == if p.slot == 0 then g.b0 else if p.slot == 1 then g.b1 else g.b2
  {
  }

  lemma FollowsInverse(groups: seq<Group>, m: nat, up: bool, n: nat)
    requires Follows(groups, m, up, n)
    ensures Inverse(groups, Places(n, m, up)) && Length(groups) == 4 * m + (n - 3 * m + 1)
  {
    hide Rotated, PlaceInGroup;
    var places := Places(n, m, up);
    forall j | 0 <= j < |groups|
      ensures Fits(groups[j], n)
      ensures places[groups[j].b0] == Place(j, 0)
      ensures groups[j].b1 >= 0 ==> places[groups[j].b1] == Place(j, 1)
      ensures groups[j].b2 >= 0 ==> places[groups[j].b2] == Place(j, 2)
    {
      if j < m {
        RotatedPlaces(j, m, up);
        FourLong(j, m, up);
      }
    }
    forall i | 0 <= i < n
      ensures places[i].group < |groups| && places[i].slot < 3 && IndexAt(groups, places[i]) == i
    {
      if i < 3 * m {
        PlacesRotated(i, m, up);
      }
    }
    forall j | 0 <= j < m
      ensures groups[j].n == 4
    {
      FourLong(j, m, up);
    }
    FullGroups(groups, m);
    assert groups[..m] == groups[..|groups| - 1];
  }

  lemma FourLong(j: nat, m: nat, up: bool)
    ensures Rotated(j, m, up).n == 4
  {
  }

  lemma {:induction false} FullGroups(groups: seq<Group>, m: nat)
    requires m <= |groups| && forall j :: 0 <= j < m ==> groups[j].n == 4
    ensures Length(groups[..m]) == 4 * m
  {
    if m > 0 {
      assert groups[..m][..m - 1] == groups[..m - 1];
      FullGroups(groups, m - 1);
    }
  }

  lemma Sha256Follows()
    ensures Follows(SHA256.groups, 10, false, 32)
  {
    var g := SHA256.groups;
    assert g[0] == Rotated(0, 10, false) && g[1] == Rotated(1, 10, false) && g[2] == Rotated(2, 10, false)
           && g[3] == Rotated(3, 10, false) && g[4] == Rotated(4, 10, false) && g[5] == Rotated(5, 10, false)
           && g[6] == Rotated(6, 10, false) && g[7] == Rotated(7, 10, false) && g[8] == Rotated(8, 10, false)
           && g[9] == Rotated(9, 10, false);
  }

  lemma Sha512First()
    ensures |SHA512.groups| == 22
    ensures var g := SHA512.groups;
            && g[0] == Rotated(0, 21, true) && g[1] == Rotated(1, 21, true) && g[2] == Rotated(2, 21, true)
            && g[3] == Rotated(3, 21, true)
  {
  }

  lemma Sha512Second()
    ensures |SHA512.groups| == 22
    ensures var g := SHA512.groups;
            && g[4] == Rotated(4, 21, true) && g[5] == Rotated(5, 21, true) && g[6] == Rotated(6, 21, true)
            && g[7] == Rotated(7, 21, true)
  {
  }

  lemma Sha512Third()
    ensures |SHA512.groups| == 22
    ensures var g := SHA512.groups;
            && g[8] == Rotated(8, 21, true) && g[9] == Rotated(9, 21, true) && g[10] == Rotated(10, 21, true)
            && g[11] == Rotated(11, 21, true)
  {
  }

  lemma Sha512Fourth()
    ensures |SHA512.groups| == 22
    ensures var g := SHA512.groups;
            && g[12] == Rotated(12, 21, true) && g[13] == Rotated(13, 21, true) && g[14] == Rotated(14, 21, true)
            && g[15] == Rotated(15, 21, true)
  {
  }

  lemma Sha512Fifth()
    ensures |SHA512.groups| == 22
    ensures var g := SHA512.groups;
            && g[16] == Rotated(16, 21, true) && g[17] == Rotated(17, 21, true) && g[18] == Rotated(18, 21, true)
            && g[19] == Rotated(19, 21, true) && g[20] == Rotated(20, 21, true)
  {
  }

  lemma Sha512Follows()
    ensures Follows(SHA512.groups, 21, true, 64)
  {
    hide Rotated;
    Sha512First();
    Sha512Second();
    Sha512Third();
    Sha512Fourth();
    Sha512Fifth();
    assert SHA512.groups[21] == Group(-1, -1, 63, 2);
  }

  const MD5_PLACES := [
    Place(0, 2), Place(1, 2), Place(2, 2), Place(3, 2), Place(4, 2), Place(4, 0), Place(0, 1), Place(1, 1),
    Place(2, 1), Place(3, 1), Place(4, 1), Place(5, 0), Place(0, 0), Place(1, 0), Place(2, 0), Place(3, 0)]

  lemma Md5Places()
    ensures |MD5_GROUPS| == 6 && |MD5_PLACES| == MD5_SIZE
    ensures forall i :: 0 <= i < MD5_SIZE ==>
              MD5_PLACES[i].group < 6 && MD5_PLACES[i].slot < 3 && IndexAt(MD5_GROUPS, MD5_PLACES[i]) == i
  {
  }

  /** MD5 group j takes bytes j, j + 6 and j + 12, but the last full one byte 5; byte 11 is left. */
  lemma Md5Follows(j: nat)
    requires j < 5
    ensures |MD5_GROUPS| == 6 && MD5_GROUPS[j] == Group(j, j + 6, if j == 4 then 5 else j + 12, 4)
    ensures MD5_GROUPS[5] == Group(-1, -1, 11, 2)
  {
    assert j == 0 || j == 1 || j == 2 || j == 3 || j == 4;
  }

  lemma Md5Fits()
    ensures |MD5_GROUPS| == 6 && forall j :: 0 <= j < 6 ==> Fits(MD5_GROUPS[j], MD5_SIZE)
    ensures Length(MD5_GROUPS) == 22
  {
    FullGroups(MD5_GROUPS, 5);
    assert MD5_GROUPS[..5] == MD5_GROUPS[..|MD5_GROUPS| - 1];
  }

  lemma Md5Inverse()
    ensures Inverse(MD5_GROUPS, MD5_PLACES)
  {
    Md5Fits();
    Md5Places();
    hide Fits, IndexAt;
  }
}
