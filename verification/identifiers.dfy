/** The two names made from a device identifier: the UUID that ends the
    provisioning path and the Android id. */
module Identifiers {
  import opened Words

  /** Sixteen bytes, or the null pointer. */
  type Bytes16 = bs: seq<Byte> | |bs| == 16 witness seq(16, _ => 0)
  type Identifier = Option<Bytes16>

  const LOWER := "0123456789abcdef"
  const UPPER := "0123456789ABCDEF"

  /** Two digits per byte, from a sixteen-digit alphabet. */
  function Hex(digits: string, bs: seq<Byte>): (s: string)
    requires |digits| == 16
    ensures |s| == 2 * |bs|
  {
    if bs == [] then "" else [digits[bs[0] / 16], digits[bs[0] % 16]] + Hex(digits, bs[1..])
  }

  /** `format_uuid_string`. */
  function Uuid(id: Identifier): string {
    match id
    case None => ""
    case Some(bs) =>
      Hex(LOWER, bs[..4]) + "-" + Hex(LOWER, bs[4..6]) + "-" + Hex(LOWER, bs[6..8])
      + "-" + Hex(LOWER, bs[8..10]) + "-" + Hex(LOWER, bs[10..])
  }

  /** `get_android_id_string`: the first eight bytes only. */
  function AndroidId(id: Identifier): string {
    match id
    case None => ""
    case Some(bs) => Hex(UPPER, bs[..8])
  }

  function ProvisioningPath(dir: string, id: Identifier): string {
    dir + "/" + Uuid(id)
  }

  // Reading them back ----------------------------------------------------------------------------

  function Index(digits: string, c: char): (i: Option<nat>)
    ensures i.Some? ==> i.value < |digits| && digits[i.value] == c
    ensures i.None? ==> c !in digits
  {
    if digits == "" then None
    else if digits[0] == c then Some(0)
    else match Index(digits[1..], c)
         case Some(i) => Some(i + 1)
         case None => None
  }

  predicate Distinct(digits: string) {
    forall i, j | 0 <= i < j < |digits| :: digits[i] != digits[j]
  }

  function Unhex(digits: string, s: string): (r: Option<seq<Byte>>)
    requires |digits| == 16
    ensures r.Some? ==> |s| == 2 * |r.value|
  {
    if s == "" then Some([])
    else if |s| == 1 then None
    else
      match (Index(digits, s[0]), Index(digits, s[1]), Unhex(digits, s[2..]))
      case (Some(hi), Some(lo), Some(rest)) => Some([hi * 16 + lo] + rest)
      case _ => None
  }

  lemma IndexOfDigit(digits: string, i: nat)
    requires Distinct(digits) && i < |digits|
    ensures Index(digits, digits[i]) == Some(i)
  {
    assert digits[i] in digits;
    if digits[0] != digits[i] {
      IndexOfDigit(digits[1..], i - 1);
    }
  }

  /** Reading the digits of some bytes gives the bytes; only those digits are read as them. */
  lemma UnhexIffHex(digits: string, s: string, bs: seq<Byte>)
    requires |digits| == 16 && Distinct(digits)
    ensures Unhex(digits, s) == Some(bs) <==> s == Hex(digits, bs)
  {
    hide Unhex, Hex, Distinct;
    UnhexHex(digits, bs);
    if Unhex(digits, s) == Some(bs) {
      HexUnhex(digits, s, bs);
    }
  }

  lemma {:induction false} UnhexHex(digits: string, bs: seq<Byte>)
    requires |digits| == 16 && Distinct(digits)
    ensures Unhex(digits, Hex(digits, bs)) == Some(bs)
  {
    if bs != [] {
      var hi, lo := bs[0] / 16, bs[0] % 16;
      IndexOfDigit(digits, hi);
      IndexOfDigit(digits, lo);
      UnhexHex(digits, bs[1..]);
      hide Distinct, Index;
      assert Hex(digits, bs)[2..] == Hex(digits, bs[1..]);
      assert hi * 16 + lo == bs[0];
      assert bs == [bs[0]] + bs[1..];
    }
  }

  lemma {:induction false} HexUnhex(digits: string, s: string, bs: seq<Byte>)
    requires |digits| == 16 && Unhex(digits, s) == Some(bs)
    ensures s == Hex(digits, bs)
    decreases |s|
  {
    hide Index;
    if s != "" {
      var hi, lo := Index(digits, s[0]).value, Index(digits, s[1]).value;
      HexUnhex(digits, s[2..], bs[1..]);
      assert bs[0] == hi * 16 + lo;
      Nibbles(hi, lo);
      assert s == [s[0], s[1]] + s[2..];
    }
  }

  lemma Nibbles(hi: nat, lo: nat)
    requires hi < 16 && lo < 16
    ensures (hi * 16 + lo) / 16 == hi && (hi * 16 + lo) % 16 == lo
  {
  }

  lemma LowerDistinct()
    ensures Distinct(LOWER)
  {
  }

  lemma UpperDistinct()
    ensures Distinct(UPPER)
  {
  }

  /** The text of a UUID: 8-4-4-4-12 digits of the lower-case alphabet. */
  function ParseUuid(s: string): Option<Bytes16> {
    if |s| != 36 || s[8] != '-' || s[13] != '-' || s[18] != '-' || s[23] != '-' then None
    else
      match Unhex(LOWER, s[..8] + s[9..13] + s[14..18] + s[19..23] + s[24..])
      case Some(bs) => Some(bs)
      case None => None
  }

  lemma HexAppend(digits: string, a: seq<Byte>, b: seq<Byte>)
    requires |digits| == 16
    ensures Hex(digits, a + b) == Hex(digits, a) + Hex(digits, b)
  {
    if a == [] {
      assert a + b == b;
    } else {
      assert (a + b)[0] == a[0] && (a + b)[1..] == a[1..] + b;
      HexAppend(digits, a[1..], b);
    }
  }

  lemma HexParts(bs: Bytes16)
    ensures Hex(LOWER, bs) == Hex(LOWER, bs[..4]) + Hex(LOWER, bs[4..6]) + Hex(LOWER, bs[6..8])
                              + Hex(LOWER, bs[8..10]) + Hex(LOWER, bs[10..])
  {
    HexAppend(LOWER, bs[..4], bs[4..6]);
    HexAppend(LOWER, bs[..6], bs[6..8]);
    HexAppend(LOWER, bs[..8], bs[8..10]);
    HexAppend(LOWER, bs[..10], bs[10..]);
    assert bs[..6] == bs[..4] + bs[4..6] && bs[..8] == bs[..6] + bs[6..8];
    assert bs[..10] == bs[..8] + bs[8..10] && bs == bs[..10] + bs[10..];
  }

  /** Main result: a text is the UUID of an identifier exactly when it reads back as it. */
  lemma UuidIffParsed(s: string, bs: Bytes16)
    ensures s == Uuid(Some(bs)) <==> ParseUuid(s) == Some(bs)
  {
    HexParts(bs);
    LowerDistinct();
    var p, q, r, t, u := Hex(LOWER, bs[..4]), Hex(LOWER, bs[4..6]), Hex(LOWER, bs[6..8]), Hex(LOWER, bs[8..10]),
      Hex(LOWER, bs[10..]);
    Dashed(s, p, q, r, t, u);
    if |s| == 36 {
      UnhexIffHex(LOWER, s[..8] + s[9..13] + s[14..18] + s[19..23] + s[24..], bs);
    }
    hide Hex, Unhex, LOWER;
  }

  lemma Dashed(s: string, p: string, q: string, r: string, t: string, u: string)
    requires |p| == 8 && |q| == 4 && |r| == 4 && |t| == 4 && |u| == 12
    ensures s == p + "-" + q + "-" + r + "-" + t + "-" + u <==>
            && |s| == 36 && s[8] == '-' && s[13] == '-' && s[18] == '-' && s[23] == '-'
            && s[..8] + s[9..13] + s[14..18] + s[19..23] + s[24..] == p + q + r + t + u
  {
    if |s| == 36 && s[8] == '-' && s[13] == '-' && s[18] == '-' && s[23] == '-' {
      var parts := s[..8] + s[9..13] + s[14..18] + s[19..23] + s[24..];
      assert s == s[..8] + "-" + s[9..13] + "-" + s[14..18] + "-" + s[19..23] + "-" + s[24..];
      if parts == p + q + r + t + u {
        assert s[..8] == parts[..8] == p && s[9..13] == parts[8..12] == q && s[14..18] == parts[12..16] == r;
        assert s[19..23] == parts[16..20] == t && s[24..] == parts[20..] == u;
      }
    }
    if s == p + "-" + q + "-" + r + "-" + t + "-" + u {
      assert s[..8] == p && s[9..13] == q && s[14..18] == r && s[19..23] == t && s[24..] == u;
    }
  }

  lemma UuidInjective(a: Identifier, b: Identifier)
    requires Uuid(a) == Uuid(b)
    ensures a == b
  {
    hide Uuid, ParseUuid;
    UuidLength(a);
    UuidLength(b);
    if a.Some? && b.Some? {
      UuidIffParsed(Uuid(a), a.value);
      UuidIffParsed(Uuid(a), b.value);
    }
  }

  lemma UuidLength(id: Identifier)
    ensures |Uuid(id)| == if id.Some? then 36 else 0
  {
  }

  lemma UuidHasNoSlash(id: Identifier)
    ensures '/' !in Uuid(id)
  {
    if id.Some? {
      var bs := id.value;
      NoSlash(bs[..4]);
      NoSlash(bs[4..6]);
      NoSlash(bs[6..8]);
      NoSlash(bs[8..10]);
      NoSlash(bs[10..]);
    }
  }

  lemma NoSlash(bs: seq<Byte>)
    ensures '/' !in Hex(LOWER, bs)
  {
    if bs != [] {
      NoSlash(bs[1..]);
    }
  }

  /** Main result: no two pairs of a directory and an identifier share a path. */
  lemma PathInjective(dir1: string, id1: Identifier, dir2: string, id2: Identifier)
    ensures ProvisioningPath(dir1, id1) == ProvisioningPath(dir2, id2) <==> dir1 == dir2 && id1 == id2
  {
    hide Uuid;
    if ProvisioningPath(dir1, id1) == ProvisioningPath(dir2, id2) {
      UuidHasNoSlash(id1);
      UuidHasNoSlash(id2);
      LastSlash(dir1, Uuid(id1), dir2, Uuid(id2));
      UuidInjective(id1, id2);
    }
  }

  lemma LastSlash(d1: string, u1: string, d2: string, u2: string)
    requires d1 + "/" + u1 == d2 + "/" + u2 && '/' !in u1 && '/' !in u2
    ensures d1 == d2 && u1 == u2
  {
    var s := d1 + "/" + u1;
    SlashPlace(s, d1, u1);
    SlashPlace(s, d2, u2);
    assert d1 == s[..|d1|] && d2 == s[..|d2|];
    assert u1 == s[|d1| + 1..] && u2 == s[|d2| + 1..];
  }

  lemma SlashPlace(s: string, d: string, u: string)
    requires s == d + "/" + u && '/' !in u
    ensures |d| < |s| && s[|d|] == '/' && forall k | |d| < k < |s| :: s[k] != '/'
  {
    assert forall k | |d| < k < |s| :: s[k] == u[k - |d| - 1];
  }

  /** Two identifiers share an Android id exactly when their first eight bytes agree. */
  lemma AndroidIdIffPrefix(a: Bytes16, b: Bytes16)
    ensures AndroidId(Some(a)) == AndroidId(Some(b)) <==> a[..8] == b[..8]
  {
    UpperDistinct();
    UnhexIffHex(UPPER, AndroidId(Some(a)), a[..8]);
    UnhexIffHex(UPPER, AndroidId(Some(a)), b[..8]);
  }

  /** So the Android id does not determine the path: these two differ only past the eighth byte. */
  lemma SharedAndroidId()
    ensures exists a: Bytes16, b: Bytes16 ::
              a != b && AndroidId(Some(a)) == AndroidId(Some(b)) && Uuid(Some(a)) != Uuid(Some(b))
  {
    var a: Bytes16, b: Bytes16 := seq(16, _ => 0), seq(16, i => if i == 15 then 1 else 0);
    assert a[15] != b[15];
    assert a[..8] == b[..8];
    AndroidIdIffPrefix(a, b);
    if Uuid(Some(a)) == Uuid(Some(b)) {
      UuidInjective(Some(a), Some(b));
    }
  }

  lemma EmptyNames(id: Identifier)
    ensures AndroidId(id) == "" <==> id.None?
  {
  }

  // The texts, digit by digit ------------------------------------------------------------------------------

  /** The hexadecimal digit of a value, ten and more as letters from `a` on. */
  function DigitOf(n: nat, a: char): char
    requires n < 16 && (a == 'a' || a == 'A')
  {
    if n < 10 then ('0' as int + n) as char else (a as int + (n - 10)) as char
  }

  lemma DigitsAre(n: nat)
    requires n < 16
    ensures LOWER[n] == DigitOf(n, 'a') && UPPER[n] == DigitOf(n, 'A')
  {
  }

  /** Two digits of byte `i`, the high half first. */
  predicate SpellsByte(s: string, at: nat, b: Byte, a: char)
    requires a == 'a' || a == 'A'
  {
    at + 2 <= |s| && s[at] == DigitOf(b / 16, a) && s[at + 1] == DigitOf(b % 16, a)
  }

  lemma {:induction false} HexAt(digits: string, bs: seq<Byte>, i: nat)
    requires |digits| == 16 && i < |bs|
    ensures Hex(digits, bs)[2 * i] == digits[bs[i] / 16] && Hex(digits, bs)[2 * i + 1] == digits[bs[i] % 16]
  {
    if i > 0 {
      HexAt(digits, bs[1..], i - 1);
    }
  }

  lemma AlphabetSpells(digits: string, bs: seq<Byte>, i: nat, a: char)
    requires |digits| == 16 && i < |bs| && (a == 'a' || a == 'A')
    requires forall n | 0 <= n < 16 :: digits[n] == DigitOf(n, a)
    ensures SpellsByte(Hex(digits, bs), 2 * i, bs[i], a)
  {
    hide Hex, DigitOf;
    HexAt(digits, bs, i);
  }

  lemma HexSpells(bs: seq<Byte>, i: nat)
    requires i < |bs|
    ensures SpellsByte(Hex(LOWER, bs), 2 * i, bs[i], 'a') && SpellsByte(Hex(UPPER, bs), 2 * i, bs[i], 'A')
  {
    hide Hex, DigitOf, SpellsByte;
    forall n | 0 <= n < 16
      ensures LOWER[n] == DigitOf(n, 'a') && UPPER[n] == DigitOf(n, 'A')
    {
      DigitsAre(n);
    }
    hide LOWER, UPPER;
    AlphabetSpells(LOWER, bs, i, 'a');
    AlphabetSpells(UPPER, bs, i, 'A');
  }

  /** The Android id is sixteen upper-case digits: those of the first eight bytes. */
  lemma AndroidIdText(bs: Bytes16)
    ensures var s := AndroidId(Some(bs));
            |s| == 16 && forall i | 0 <= i < 8 :: SpellsByte(s, 2 * i, bs[i], 'A')
  {
    hide Hex, SpellsByte;
    forall i | 0 <= i < 8
      ensures SpellsByte(AndroidId(Some(bs)), 2 * i, bs[i], 'A')
    {
      HexSpells(bs[..8], i);
    }
  }

  /** Where byte `i` stands in a UUID, each dash moving the later ones on. */
  function UuidPlace(i: nat): nat {
    2 * i + (if i < 4 then 0 else if i < 6 then 1 else if i < 8 then 2 else if i < 10 then 3 else 4)
  }

  /** The UUID is 36 characters: lower-case digits of all bytes, and dashes
      behind the fourth, sixth, eighth and tenth. */
  lemma UuidText(bs: Bytes16)
    ensures var s := Uuid(Some(bs));
            && |s| == 36 && s[8] == '-' && s[13] == '-' && s[18] == '-' && s[23] == '-'
            && forall i | 0 <= i < 16 :: SpellsByte(s, UuidPlace(i), bs[i], 'a')
  {
    hide Hex, DigitOf;
    forall i | 0 <= i < 16
      ensures SpellsByte(Uuid(Some(bs)), UuidPlace(i), bs[i], 'a')
    {
      OneUuidByte(bs, i);
    }
  }

  lemma OneUuidByte(bs: Bytes16, i: nat)
    requires i < 16
    ensures SpellsByte(Uuid(Some(bs)), UuidPlace(i), bs[i], 'a')
  {
    hide Hex, DigitOf;
    var start := if i < 4 then 0 else if i < 6 then 4 else if i < 8 then 6 else if i < 10 then 8 else 10;
    var end := if i < 4 then 4 else if i < 6 then 6 else if i < 8 then 8 else if i < 10 then 10 else 16;
    HexSpells(bs[start..end], i - start);
    assert bs[10..] == bs[10..16] && bs[..4] == bs[0..4];
  }

  /** The path is the directory, one slash and the UUID, which is empty for a null identifier. */
  lemma PathText(dir: string, id: Identifier)
    ensures var s := ProvisioningPath(dir, id);
            && |s| == |dir| + (if id.Some? then 37 else 1)
            && s[..|dir|] == dir && s[|dir|] == '/' && s[|dir| + 1..] == Uuid(id)
  {
    UuidLength(id);
    hide Uuid;
  }
}
