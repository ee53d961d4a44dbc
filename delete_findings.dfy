/**
 * What `deleteCommunity` leaves behind, and the deletion it evidently intends.
 *
 * As written it finds the community by its external id and then uses that same
 * string against fields that hold internal ids, and the per-user `$pull`
 * queries are never executed. The corrected transition deletes the threads and
 * strips the references of the community it actually deleted.
 */
module DeleteFindings {
  import opened Wrappers
  import opened Ids
  import opened Seqs
  import opened Documents
  import opened CommunityOps

  /** Every community reference held by a user or a thread names a stored community. */
  predicate NoDanglingReferences(db: Db) {
    && (forall ui, j :: 0 <= ui < |db.users| && 0 <= j < |db.users[ui].communities| ==>
          CommunityByKey(db, db.users[ui].communities[j]).Some?)
    && (forall t :: t in db.threads && t.community.Some? ==> CommunityByKey(db, t.community.value).Some?)
  }

  // ---------------------------------------------------------------------------
  // As written

  /**
   * An external id that is not 24 hexadecimal digits (an identity-provider id
   * such as "org_2a...") makes `Thread.deleteMany` throw a CastError, so the
   * transaction is aborted and the community is never deleted.
   */
  lemma DeleteByProviderIdNeverDeletes(db: Db, communityId: ExternalId)
    requires CommunityById(db, communityId).Some? && !IsHexText(communityId)
    ensures DeleteCommunity(db, communityId) == Outcome(db, Failure(CastError))
  {
  }

  /**
   * When the deletion goes through, the deleted community's own threads survive
   * unless its internal id happens to spell the external id, and every user
   * keeps whatever references to it they held.
   */
  lemma DeleteLeavesThreadsAndReferences(db: Db, communityId: ExternalId)
    requires DeleteCommunity(db, communityId).result.Success?
    ensures var out := DeleteCommunity(db, communityId);
      var c := out.result.value;
      && out.db.users == db.users
      && (HexString(c.oid) != Lower(communityId) ==>
            forall t :: t in db.threads && t.community == Some(c.oid) ==> t in out.db.threads)
  {
    var out := DeleteCommunity(db, communityId);
    var c := out.result.value;
    var k := CastObjectId(communityId).value;
    if HexString(c.oid) != Lower(communityId) {
      assert k.hex == Lower(communityId);
      assert k != c.oid;
    }
  }

  /**
   * The references left behind dangle: under the unique `_id` index no
   * community has the deleted id any more, yet a user that listed it still does.
   */
  lemma DeleteLeavesDanglingReference(db: Db, communityId: ExternalId, ui: nat)
    requires WellFormed(db)
    requires DeleteCommunity(db, communityId).result.Success?
    requires ui < |db.users| && DeleteCommunity(db, communityId).result.value.oid in db.users[ui].communities
    ensures var out := DeleteCommunity(db, communityId);
      && out.result.value.oid in out.db.users[ui].communities
      && CommunityByKey(out.db, out.result.value.oid).None?
      && !NoDanglingReferences(out.db)
  {
    var out := DeleteCommunity(db, communityId);
    var ci := CommunityById(db, communityId).value;
    var k := db.communities[ci].oid;
    OthersKeepTheirKeys(db, ci);
    var j :| 0 <= j < |db.users[ui].communities| && db.users[ui].communities[j] == k;
    assert out.db.users[ui].communities[j] == k;
  }

  /** A concrete store on which the deletion by an identity-provider id is refused. */
  lemma ProviderIdExample()
    ensures var owner := ObjectIdText("0000000000000000000000aa");
      var key := ObjectIdText("0000000000000000000000cc");
      var db := Db([User(owner, "user_1", "Ann", "a.png", [key])],
                   [Community(key, "org_1", "Club", "club", "c.png", "", owner, [], 0)],
                   [Thread(ObjectIdText("0000000000000000000000dd"), "hi", owner, None, Some(key), 1)],
                   []);
      DeleteCommunity(db, "org_1") == Outcome(db, Failure(CastError))
  {
    var owner := ObjectIdText("0000000000000000000000aa");
    var key := ObjectIdText("0000000000000000000000cc");
    var db := Db([User(owner, "user_1", "Ann", "a.png", [key])],
                 [Community(key, "org_1", "Club", "club", "c.png", "", owner, [], 0)],
                 [Thread(ObjectIdText("0000000000000000000000dd"), "hi", owner, None, Some(key), 1)],
                 []);
    assert CommunityHasId("org_1")(db.communities[0]);
    assert !IsHexText("org_1");
  }

  // ---------------------------------------------------------------------------
  // Corrected

  function WithoutReference(us: seq<User>, k: ObjectId): (r: seq<User>)
    ensures |r| == |us|
    ensures forall i :: 0 <= i < |us| ==> r[i] == us[i].(communities := Pull(us[i].communities, k))
  {
    seq(|us|, i requires 0 <= i < |us| => us[i].(communities := Pull(us[i].communities, k)))
  }

  /**
   * The deletion the action evidently intends: remove the community found by
   * external id, the threads whose `community` is its internal id, and that
   * internal id from every user's `communities`.
   */
  function DeleteCommunityCorrected(db: Db, communityId: ExternalId): (r: Outcome<Community>)
    ensures r.result.Failure? ==> r.db == db
    ensures r.result.Success? ==>
      && r.result.value in db.communities
      && |r.db.communities| + 1 == |db.communities|
      && (exists i :: 0 <= i < |db.communities| && db.communities[i] == r.result.value &&
            r.db.communities == db.communities[..i] + db.communities[i + 1..])
      && |r.db.users| == |db.users| && |r.db.threads| <= |db.threads|
      && (forall i :: 0 <= i < |db.users| ==> r.db.users[i].oid == db.users[i].oid)
      && (forall t :: t in r.db.threads ==> t in db.threads)
      && r.db.likes == db.likes
  {
    match CommunityById(db, communityId)
    case None => Outcome(db, Failure(CommunityNotFound))
    case Some(ci) =>
      var c := db.communities[ci];
      Outcome(Db(WithoutReference(db.users, c.oid),
                 db.communities[..ci] + db.communities[ci + 1..],
                 Filter(db.threads, NotInCommunity(c.oid)),
                 db.likes),
              Success(c))
  }

  /**
   * The corrected deletion fails, changing nothing, only when no community has
   * the external id; otherwise it returns that community, and afterwards no
   * community, thread or user has or refers to its `_id`.
   */
  lemma CorrectedDeleteLeavesNoReference(db: Db, communityId: ExternalId)
    requires WellFormed(db)
    ensures var out := DeleteCommunityCorrected(db, communityId);
      && (out.result.Failure? <==> CommunityById(db, communityId).None?)
      && (out.result.Failure? ==> out.db == db)
      && (out.result.Success? ==>
            var k := out.result.value.oid;
            && out.result.value == db.communities[CommunityById(db, communityId).value]
            && CommunityByKey(out.db, k).None?
            && (forall t :: t in out.db.threads ==> t.community != Some(k))
            && (forall ui :: 0 <= ui < |out.db.users| ==> k !in out.db.users[ui].communities))
  {
    var out := DeleteCommunityCorrected(db, communityId);
    if out.result.Success? {
      OthersKeepTheirKeys(db, CommunityById(db, communityId).value);
    }
  }

  /** The corrected deletion keeps a store free of dangling references. */
  lemma CorrectedDeleteKeepsReferencesValid(db: Db, communityId: ExternalId)
    requires WellFormed(db) && NoDanglingReferences(db)
    ensures NoDanglingReferences(DeleteCommunityCorrected(db, communityId).db)
  {
    var out := DeleteCommunityCorrected(db, communityId);
    if out.result.Success? {
      var ci := CommunityById(db, communityId).value;
      var k := db.communities[ci].oid;
      forall ui, j | 0 <= ui < |out.db.users| && 0 <= j < |out.db.users[ui].communities|
        ensures CommunityByKey(out.db, out.db.users[ui].communities[j]).Some?
      {
        var x := out.db.users[ui].communities[j];
        PullKeepsOthers(db.users[ui].communities, k, x);
        KeptKeyStillFound(db, ci, x);
      }
      forall t | t in out.db.threads && t.community.Some?
        ensures CommunityByKey(out.db, t.community.value).Some?
      {
        KeptKeyStillFound(db, ci, t.community.value);
      }
    }
  }

  /** Under the unique `_id` index, removing the community at `ci` leaves no community with its `_id`. */
  lemma OthersKeepTheirKeys(db: Db, ci: nat)
    requires WellFormed(db) && ci < |db.communities|
    ensures var rest := db.communities[..ci] + db.communities[ci + 1..];
      forall j :: 0 <= j < |rest| ==> rest[j].oid != db.communities[ci].oid
  {
    var rest := db.communities[..ci] + db.communities[ci + 1..];
    forall j | 0 <= j < |rest| ensures rest[j].oid != db.communities[ci].oid {
      var j' := if j < ci then j else j + 1;
      assert rest[j] == db.communities[j'];
      assert CommunityKey(db.communities[j']) != CommunityKey(db.communities[ci]) by { assert j' < ci || ci < j'; }
    }
  }

  /** The corrected deletion keeps the unique `_id` indexes: users keep their `_id`s. */
  lemma CorrectedDeleteWellFormed(db: Db, communityId: ExternalId)
    requires WellFormed(db)
    ensures WellFormed(DeleteCommunityCorrected(db, communityId).db)
  {
    var out := DeleteCommunityCorrected(db, communityId);
    if out.result.Success? {
      var ci := CommunityById(db, communityId).value;
      var us := out.db.users;
      forall a, b | 0 <= a < b < |us| ensures UserKey(us[a]) != UserKey(us[b]) {
        assert UserKey(us[a]) == UserKey(db.users[a]) && UserKey(us[b]) == UserKey(db.users[b]);
      }
      RemoveAtUnique(db.communities, ci, CommunityKey);
      FilterUnique(db.threads, NotInCommunity(db.communities[ci].oid), ThreadKey);
    }
  }

  /** A key other than the deleted community's, found before the removal, is found after it. */
  lemma KeptKeyStillFound(db: Db, ci: nat, x: ObjectId)
    requires ci < |db.communities| && x != db.communities[ci].oid && CommunityByKey(db, x).Some?
    ensures FindFirst(db.communities[..ci] + db.communities[ci + 1..], CommunityHasKey(x)).Some?
  {
    var j := CommunityByKey(db, x).value;
    var rest := db.communities[..ci] + db.communities[ci + 1..];
    var j' := if j < ci then j else j - 1;
    assert j != ci;
    assert rest[j'] == db.communities[j];
    assert CommunityHasKey(x)(rest[j']);
  }
}
