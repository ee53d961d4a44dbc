/**
 * The two kinds of identifier in the store.
 *
 * Users and communities carry an external `id` (a string issued by the identity
 * provider) and an internal `_id` (a MongoDB ObjectId). Reference fields
 * (`createdBy`, `members`, `communities`, `author`, `parentThread`, `community`,
 * `threadId`, `likedBy`) hold internal ids only. A string used where an ObjectId
 * field is queried is first cast by Mongoose; `CastObjectId` is that cast, and it
 * is the only place where a string turns into an internal id.
 */
module Ids {
  import opened Wrappers

  /** The identity provider's id of a user or a community (the `id` field). */
  type ExternalId = string

  predicate IsHexDigit(c: char) {
    '0' <= c <= '9' || 'a' <= c <= 'f' || 'A' <= c <= 'F'
  }

  predicate IsLowerHexDigit(c: char) {
    '0' <= c <= '9' || 'a' <= c <= 'f'
  }

  /** The strings Mongoose accepts as an ObjectId: exactly 24 hexadecimal digits. */
  predicate IsHexText(s: string) {
    |s| == 24 && forall i :: 0 <= i < |s| ==> IsHexDigit(s[i])
  }

  predicate IsCanonicalHex(s: string) {
    |s| == 24 && forall i :: 0 <= i < |s| ==> IsLowerHexDigit(s[i])
  }

  datatype ObjectIdText = ObjectIdText(hex: string)

  /** An internal id: twelve bytes, kept as their canonical lower-case hexadecimal text. */
  type ObjectId = o: ObjectIdText | IsCanonicalHex(o.hex)
    witness ObjectIdText("000000000000000000000000")

  function LowerChar(c: char): char {
    if 'A' <= c <= 'Z' then (c as int + 32) as char else c
  }

  /** ASCII lower-casing, character by character. */
  function Lower(s: string): string {
    seq(|s|, i requires 0 <= i < |s| => LowerChar(s[i]))
  }

  /** `ObjectId.toHexString()`, which `$toString` also yields. */
  function HexString(o: ObjectId): string {
    o.hex
  }

  /**
   * Mongoose's cast of a string query value against an ObjectId path: 24
   * hexadecimal digits in either case give the ObjectId with those bytes;
   * anything else is a CastError (None).
   */
  function CastObjectId(s: string): (r: Option<ObjectId>)
    ensures r.Some? <==> IsHexText(s)
  {
    if IsHexText(s) then Some(ObjectIdText(Lower(s))) else None
  }

  /** Casting an id's own hexadecimal text gives the id back. */
  lemma CastHexString(o: ObjectId)
    ensures CastObjectId(HexString(o)) == Some(o)
  {
    var s := HexString(o);
    assert IsHexText(s) by {
      forall i | 0 <= i < |s| ensures IsHexDigit(s[i]) {
        assert IsLowerHexDigit(o.hex[i]);
      }
    }
    assert Lower(s) == s by {
      forall i | 0 <= i < |s| ensures Lower(s)[i] == s[i] {
        assert IsLowerHexDigit(o.hex[i]);
      }
    }
  }

  /** Two strings cast to the same id exactly when they agree up to letter case. */
  lemma CastSameId(s: string, t: string)
    requires CastObjectId(s).Some? && CastObjectId(t).Some?
    ensures CastObjectId(s) == CastObjectId(t) <==> Lower(s) == Lower(t)
  {
  }

  /** A string that is not 24 hexadecimal digits names no internal id at all. */
  lemma NonHexNamesNoId(s: string, o: ObjectId)
    requires !IsHexText(s)
    ensures CastObjectId(s) != Some(o) && s != HexString(o)
  {
    CastHexString(o);
  }
}
