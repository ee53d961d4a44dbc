/**
 * The mutating community actions as transitions of a store snapshot: each takes
 * the collections before the call and gives the collections after it together
 * with what the call returns (Success) or throws (Failure). A failure always
 * leaves the snapshot as it was: every action checks before it writes.
 */
module CommunityOps {
  import opened Wrappers
  import opened Ids
  import opened Seqs
  import opened Documents
  import opened CommunityReads

  /** The store after an action, and what the action returned or threw. */
  datatype Outcome<T> = Outcome(db: Db, result: Result<T, Error>)

  // ---------------------------------------------------------------------------
  // createCommunity

  /**
   * `createCommunity(id, name, username, image, bio, createdById)`. `newKey` is
   * the `_id` the driver generates for the new document and `now` its creation
   * time; saving a document whose `_id` is taken fails on the unique index.
   */
  function CreateCommunity(db: Db, newKey: ObjectId, now: int, id: ExternalId, name: string,
                           username: string, image: string, bio: string, createdById: ExternalId)
    : (r: Outcome<Community>)
    ensures r.result.Failure? ==> r.db == db
    ensures r.result.Success? ==>
      && r.db.communities == db.communities + [r.result.value]
      && |r.db.users| == |db.users| && r.db.threads == db.threads && r.db.likes == db.likes
  {
    match UserById(db, createdById)
    case None => Outcome(db, Failure(UserNotFound))
    case Some(ui) =>
      if CommunityByKey(db, newKey).Some? then Outcome(db, Failure(DuplicateKey))
      else
        var user := db.users[ui];
        var c := Community(newKey, id, name, username, image, bio, user.oid, [], now);
        var user' := user.(communities := user.communities + [c.oid]);
        Outcome(db.(communities := db.communities + [c], users := db.users[ui := user']), Success(c))
  }

  /**
   * Without a user whose external id is `createdById` nothing is stored, and
   * neither is anything when `newKey` is already a community's `_id`; otherwise
   * the creation succeeds. On success the new community is appended, its creator is that user's internal
   * id, it has no members, and the user's `communities` is the old list with the
   * new community at the end; threads, likes and every other document are untouched.
   */
  lemma CreateCommunityEffect(db: Db, newKey: ObjectId, now: int, id: ExternalId, name: string,
                              username: string, image: string, bio: string, createdById: ExternalId)
    ensures var out := CreateCommunity(db, newKey, now, id, name, username, image, bio, createdById);
      && (out.result == Failure(UserNotFound) <==> forall j :: 0 <= j < |db.users| ==> db.users[j].id != createdById)
      && (out.result == Failure(DuplicateKey) <==>
            UserById(db, createdById).Some? && CommunityByKey(db, newKey).Some?)
      && (out.result.Success? <==> UserById(db, createdById).Some? && CommunityByKey(db, newKey).None?)
      && (out.result.Failure? ==> out.db == db)
      && (out.result.Success? ==>
            var ui := UserById(db, createdById).value;
            var c := out.result.value;
            && c == Community(newKey, id, name, username, image, bio, db.users[ui].oid, [], now)
            && c.createdBy == db.users[ui].oid
            && c.members == []
            && out.db.communities == db.communities + [c]
            && |out.db.users| == |db.users|
            && out.db.users[ui].communities == db.users[ui].communities + [c.oid]
            && out.db.users[ui] == db.users[ui].(communities := out.db.users[ui].communities)
            && (forall j :: 0 <= j < |db.users| && j != ui ==> out.db.users[j] == db.users[j])
            && out.db.threads == db.threads && out.db.likes == db.likes)
  {
  }

  /** The unique `_id` indexes survive a creation. */
  lemma CreateCommunityWellFormed(db: Db, newKey: ObjectId, now: int, id: ExternalId, name: string,
                                  username: string, image: string, bio: string, createdById: ExternalId)
    requires WellFormed(db)
    ensures WellFormed(CreateCommunity(db, newKey, now, id, name, username, image, bio, createdById).db)
  {
    var out := CreateCommunity(db, newKey, now, id, name, username, image, bio, createdById);
    if out.result.Success? {
      var cs := out.db.communities;
      forall i, j | 0 <= i < j < |cs| ensures CommunityKey(cs[i]) != CommunityKey(cs[j]) {
        if j == |cs| - 1 {
          assert !CommunityHasKey(newKey)(db.communities[i]);
        } else {
          assert CommunityKey(db.communities[i]) != CommunityKey(db.communities[j]);
        }
      }
      var ui := UserById(db, createdById).value;
      var us := out.db.users;
      forall i, j | 0 <= i < j < |us| ensures UserKey(us[i]) != UserKey(us[j]) {
        assert UserKey(db.users[i]) != UserKey(db.users[j]);
      }
    }
  }

  /** After a creation, `getUsersCommunities` of the creator lists the new community. */
  lemma CreatedCommunityIsUsers(db: Db, newKey: ObjectId, now: int, id: ExternalId, name: string,
                                username: string, image: string, bio: string, createdById: ExternalId)
    requires CreateCommunity(db, newKey, now, id, name, username, image, bio, createdById).result.Success?
    ensures var out := CreateCommunity(db, newKey, now, id, name, username, image, bio, createdById);
      var creator := db.users[UserById(db, createdById).value];
      var listed := GetUsersCommunities(out.db, HexString(creator.oid));
      listed.Success? && out.result.value in listed.value
  {
    var out := CreateCommunity(db, newKey, now, id, name, username, image, bio, createdById);
    var creator := db.users[UserById(db, createdById).value];
    CastHexString(creator.oid);
    assert out.result.value in out.db.communities;
  }

  // ---------------------------------------------------------------------------
  // addMemberToCommunity

  /** `addMemberToCommunity(communityId, memberId)`; returns the community as saved. */
  function AddMemberToCommunity(db: Db, communityId: ExternalId, memberId: ExternalId): (r: Outcome<Community>)
    ensures r.result.Failure? ==> r.db == db
    ensures r.result.Success? ==>
      && r.result.value in r.db.communities
      && |r.db.communities| == |db.communities| && |r.db.users| == |db.users|
      && r.db.threads == db.threads && r.db.likes == db.likes
  {
    match CommunityById(db, communityId)
    case None => Outcome(db, Failure(CommunityNotFound))
    case Some(ci) =>
      match UserById(db, memberId)
      case None => Outcome(db, Failure(UserNotFound))
      case Some(ui) =>
        var c := db.communities[ci];
        var u := db.users[ui];
        if u.oid in c.members then Outcome(db, Failure(AlreadyMember))
        else
          var c' := c.(members := c.members + [u.oid]);
          var u' := u.(communities := u.communities + [c.oid]);
          assert db.communities[ci := c'][ci] == c';
          Outcome(db.(communities := db.communities[ci := c'], users := db.users[ui := u']), Success(c'))
  }

  /**
   * A missing community, a missing user or an existing membership fails and
   * changes nothing; otherwise `members` gains the user at the end, the user's
   * `communities` gains the community at the end, each list grows by exactly one,
   * and no other field or document changes.
   */
  lemma AddMemberEffect(db: Db, communityId: ExternalId, memberId: ExternalId)
    ensures var out := AddMemberToCommunity(db, communityId, memberId);
      && (out.result.Failure? ==> out.db == db)
      && (out.result == Failure(CommunityNotFound) <==> CommunityById(db, communityId).None?)
      && (out.result == Failure(UserNotFound) <==>
            CommunityById(db, communityId).Some? && UserById(db, memberId).None?)
      && (out.result == Failure(AlreadyMember) <==>
            && CommunityById(db, communityId).Some? && UserById(db, memberId).Some?
            && db.users[UserById(db, memberId).value].oid in db.communities[CommunityById(db, communityId).value].members)
      && (out.result.Success? <==>
            && CommunityById(db, communityId).Some? && UserById(db, memberId).Some?
            && db.users[UserById(db, memberId).value].oid !in db.communities[CommunityById(db, communityId).value].members)
      && (out.result.Success? ==>
            var ci := CommunityById(db, communityId).value;
            var ui := UserById(db, memberId).value;
            && out.result.value == out.db.communities[ci]
            && out.db.communities == db.communities[ci := db.communities[ci].(members := db.communities[ci].members + [db.users[ui].oid])]
            && out.db.users == db.users[ui := db.users[ui].(communities := db.users[ui].communities + [db.communities[ci].oid])]
            && |out.db.communities[ci].members| == |db.communities[ci].members| + 1
            && |out.db.users[ui].communities| == |db.users[ui].communities| + 1
            && out.db.threads == db.threads && out.db.likes == db.likes)
  {
  }

  /** Adding the same member a second time fails as a duplicate and changes nothing more. */
  lemma AddMemberTwiceFails(db: Db, communityId: ExternalId, memberId: ExternalId)
    requires AddMemberToCommunity(db, communityId, memberId).result.Success?
    ensures var once := AddMemberToCommunity(db, communityId, memberId).db;
      AddMemberToCommunity(once, communityId, memberId) == Outcome(once, Failure(AlreadyMember))
  {
    var ci := CommunityById(db, communityId).value;
    var ui := UserById(db, memberId).value;
    var once := AddMemberToCommunity(db, communityId, memberId).db;
    FindFirstUpdate(db.communities, ci, once.communities[ci], CommunityHasId(communityId));
    FindFirstUpdate(db.users, ui, once.users[ui], UserHasId(memberId));
  }

  /** After a successful add, `getUsersCommunities` of the member lists the community. */
  lemma AddedMemberSeesCommunity(db: Db, communityId: ExternalId, memberId: ExternalId)
    requires AddMemberToCommunity(db, communityId, memberId).result.Success?
    ensures var out := AddMemberToCommunity(db, communityId, memberId);
      var member := db.users[UserById(db, memberId).value];
      var listed := GetUsersCommunities(out.db, HexString(member.oid));
      listed.Success? && out.result.value in listed.value
  {
    var out := AddMemberToCommunity(db, communityId, memberId);
    var ci := CommunityById(db, communityId).value;
    var member := db.users[UserById(db, memberId).value];
    CastHexString(member.oid);
    assert out.result.value == out.db.communities[ci];
    assert member.oid in out.result.value.members;
  }

  // ---------------------------------------------------------------------------
  // removeUserFromCommunity

  /** `removeUserFromCommunity(userId, communityId)`: `$pull` on both lists; returns `{ success: true }`. */
  function RemoveUserFromCommunity(db: Db, userId: ExternalId, communityId: ExternalId): (r: Outcome<bool>)
    ensures r.result.Failure? ==> r.db == db
    ensures r.result.Success? ==>
      && r.result.value
      && |r.db.communities| == |db.communities| && |r.db.users| == |db.users|
      && r.db.threads == db.threads && r.db.likes == db.likes
  {
    match UserById(db, userId)
    case None => Outcome(db, Failure(UserNotFound))
    case Some(ui) =>
      match CommunityById(db, communityId)
      case None => Outcome(db, Failure(CommunityNotFound))
      case Some(ci) =>
        var u := db.users[ui];
        var c := db.communities[ci];
        var c' := c.(members := Pull(c.members, u.oid));
        var u' := u.(communities := Pull(u.communities, c.oid));
        Outcome(db.(communities := db.communities[ci := c'], users := db.users[ui := u']), Success(true))
  }

  /**
   * A missing user or community fails and changes nothing. Otherwise the call
   * reports success, every occurrence of each id leaves the other's list, all
   * other entries of both lists keep their multiplicity, and nothing else changes.
   */
  lemma RemoveUserEffect(db: Db, userId: ExternalId, communityId: ExternalId)
    ensures var out := RemoveUserFromCommunity(db, userId, communityId);
      && (out.result.Failure? ==> out.db == db)
      && (out.result.Failure? <==> UserById(db, userId).None? || CommunityById(db, communityId).None?)
      && (out.result.Success? ==>
            var ui := UserById(db, userId).value;
            var ci := CommunityById(db, communityId).value;
            var u := db.users[ui];
            var c := db.communities[ci];
            && out.result.value
            && u.oid !in out.db.communities[ci].members
            && c.oid !in out.db.users[ui].communities
            && (forall k :: k != u.oid ==> multiset(out.db.communities[ci].members)[k] == multiset(c.members)[k])
            && (forall k :: k != c.oid ==> multiset(out.db.users[ui].communities)[k] == multiset(u.communities)[k])
            && out.db.communities == db.communities[ci := c.(members := out.db.communities[ci].members)]
            && out.db.users == db.users[ui := u.(communities := out.db.users[ui].communities)]
            && out.db.threads == db.threads && out.db.likes == db.likes)
  {
  }

  /** Removing a user that is not a member (in either list) is a successful no-op. */
  lemma RemoveNonMemberIsNoOp(db: Db, userId: ExternalId, communityId: ExternalId)
    requires UserById(db, userId).Some? && CommunityById(db, communityId).Some?
    requires db.users[UserById(db, userId).value].oid !in db.communities[CommunityById(db, communityId).value].members
    requires db.communities[CommunityById(db, communityId).value].oid !in db.users[UserById(db, userId).value].communities
    ensures RemoveUserFromCommunity(db, userId, communityId) == Outcome(db, Success(true))
  {
    var ui := UserById(db, userId).value;
    var ci := CommunityById(db, communityId).value;
    PullAbsent(db.communities[ci].members, db.users[ui].oid);
    PullAbsent(db.users[ui].communities, db.communities[ci].oid);
    assert db.communities[ci := db.communities[ci]] == db.communities;
    assert db.users[ui := db.users[ui]] == db.users;
  }

  /** A repeated call changes nothing further and again reports success. */
  lemma RemoveUserIdempotent(db: Db, userId: ExternalId, communityId: ExternalId)
    ensures var once := RemoveUserFromCommunity(db, userId, communityId);
      RemoveUserFromCommunity(once.db, userId, communityId) == once
  {
    var once := RemoveUserFromCommunity(db, userId, communityId);
    if once.result.Success? {
      var ui := UserById(db, userId).value;
      var ci := CommunityById(db, communityId).value;
      FindFirstUpdate(db.users, ui, once.db.users[ui], UserHasId(userId));
      FindFirstUpdate(db.communities, ci, once.db.communities[ci], CommunityHasId(communityId));
      RemoveNonMemberIsNoOp(once.db, userId, communityId);
    }
  }

  // ---------------------------------------------------------------------------
  // updateCommunityInfo

  /** `updateCommunityInfo(communityId, name, username, image)`; returns the document as it was before. */
  function UpdateCommunityInfo(db: Db, communityId: ExternalId, name: string, username: string, image: string)
    : (r: Outcome<Community>)
    ensures r.result.Failure? ==> r.db == db
    ensures r.result.Success? ==>
      && r.result.value in db.communities
      && |r.db.communities| == |db.communities|
      && r.db.users == db.users && r.db.threads == db.threads && r.db.likes == db.likes
  {
    match CommunityById(db, communityId)
    case None => Outcome(db, Failure(CommunityNotFound))
    case Some(ci) =>
      var c := db.communities[ci];
      var c' := c.(name := name, username := username, image := image);
      Outcome(db.(communities := db.communities[ci := c']), Success(c))
  }

  /**
   * Only `name`, `username` and `image` of the first community with that external
   * id change; the call returns the pre-update document and fails, changing
   * nothing, when no community has that id.
   */
  lemma UpdateCommunityInfoEffect(db: Db, communityId: ExternalId, name: string, username: string, image: string)
    ensures var out := UpdateCommunityInfo(db, communityId, name, username, image);
      && (out.result.Failure? <==> CommunityById(db, communityId).None?)
      && (out.result.Failure? ==> out.db == db && out.result.error == CommunityNotFound)
      && (out.result.Success? ==>
            var ci := CommunityById(db, communityId).value;
            var c := db.communities[ci];
            var c' := out.db.communities[ci];
            && out.result.value == c
            && |out.db.communities| == |db.communities|
            && c'.name == name && c'.username == username && c'.image == image
            && c'.oid == c.oid && c'.id == c.id && c'.bio == c.bio
            && c'.createdBy == c.createdBy && c'.members == c.members && c'.createdAt == c.createdAt
            && (forall j :: 0 <= j < |db.communities| && j != ci ==> out.db.communities[j] == db.communities[j])
            && out.db.users == db.users && out.db.threads == db.threads && out.db.likes == db.likes)
  {
  }

  /** Updating twice with the same values leaves the store as one update does; the second call returns the updated document. */
  lemma UpdateCommunityInfoTwice(db: Db, communityId: ExternalId, name: string, username: string, image: string)
    requires UpdateCommunityInfo(db, communityId, name, username, image).result.Success?
    ensures var once := UpdateCommunityInfo(db, communityId, name, username, image);
      var twice := UpdateCommunityInfo(once.db, communityId, name, username, image);
      && twice.db == once.db
      && twice.result == Success(once.db.communities[CommunityById(db, communityId).value])
  {
    var ci := CommunityById(db, communityId).value;
    var once := UpdateCommunityInfo(db, communityId, name, username, image);
    FindFirstUpdate(db.communities, ci, once.db.communities[ci], CommunityHasId(communityId));
    assert once.db.communities[ci := once.db.communities[ci]] == once.db.communities;
  }

  // ---------------------------------------------------------------------------
  // deleteCommunity

  function NotInCommunity(k: ObjectId): Thread -> bool {
    (t: Thread) => t.community != Some(k)
  }

  /**
   * `deleteCommunity(communityId)` as written. The community is found by its
   * external id, but `Thread.deleteMany` and `User.find` filter ObjectId fields
   * with that same string: Mongoose casts it, and a string that is not 24
   * hexadecimal digits makes `deleteMany` throw, which aborts the transaction. The
   * per-user `$pull` queries are built but never awaited, so they never run.
   * Returns the deleted document.
   */
  function DeleteCommunity(db: Db, communityId: ExternalId): (r: Outcome<Community>)
    ensures r.result.Failure? ==> r.db == db
    ensures r.result.Success? ==>
      && r.result.value in db.communities
      && |r.db.communities| + 1 == |db.communities|
      && (exists i :: 0 <= i < |db.communities| && db.communities[i] == r.result.value &&
            r.db.communities == db.communities[..i] + db.communities[i + 1..])
      && |r.db.threads| <= |db.threads|
      && (forall t :: t in r.db.threads ==> t in db.threads)
      && r.db.users == db.users && r.db.likes == db.likes
  {
    match CommunityById(db, communityId)
    case None => Outcome(db, Failure(CommunityNotFound))
    case Some(ci) =>
      match CastObjectId(communityId)
      case None => Outcome(db, Failure(CastError))
      case Some(k) =>
        var communities' := db.communities[..ci] + db.communities[ci + 1..];
        Outcome(db.(communities := communities', threads := Filter(db.threads, NotInCommunity(k))), Success(db.communities[ci]))
  }

  /**
   * All or nothing: without a community of that external id, or when the id is
   * not castable to an ObjectId, the aborted transaction leaves the store as it
   * was. On success the found community is gone, exactly the threads whose
   * `community` equals the cast string are gone, and users and likes are untouched.
   */
  lemma DeleteCommunityEffect(db: Db, communityId: ExternalId)
    ensures var out := DeleteCommunity(db, communityId);
      && (out.result.Failure? <==> CommunityById(db, communityId).None? || !IsHexText(communityId))
      && (out.result.Failure? ==> out.db == db)
      && (out.result.Success? ==>
            var ci := CommunityById(db, communityId).value;
            var k := CastObjectId(communityId).value;
            && out.result.value == db.communities[ci]
            && out.db.communities == db.communities[..ci] + db.communities[ci + 1..]
            && (forall t :: t in out.db.threads <==> t in db.threads && t.community != Some(k))
            && out.db.users == db.users
            && out.db.likes == db.likes)
  {
  }

  /** The unique `_id` indexes survive a deletion. */
  lemma DeleteCommunityWellFormed(db: Db, communityId: ExternalId)
    requires WellFormed(db)
    ensures WellFormed(DeleteCommunity(db, communityId).db)
  {
    var out := DeleteCommunity(db, communityId);
    if out.result.Success? {
      var ci := CommunityById(db, communityId).value;
      var k := CastObjectId(communityId).value;
      RemoveAtUnique(db.communities, ci, CommunityKey);
      FilterUnique(db.threads, NotInCommunity(k), ThreadKey);
    }
  }

  // ---------------------------------------------------------------------------
  // The unique `_id` indexes

  /** The unique `_id` indexes survive adding a member. */
  lemma AddMemberWellFormed(db: Db, communityId: ExternalId, memberId: ExternalId)
    requires WellFormed(db)
    ensures WellFormed(AddMemberToCommunity(db, communityId, memberId).db)
  {
    var add := AddMemberToCommunity(db, communityId, memberId);
    if add.result.Success? {
      var ci := CommunityById(db, communityId).value;
      var ui := UserById(db, memberId).value;
      UpdateUnique(db.communities, ci, add.db.communities[ci], CommunityKey);
      UpdateUnique(db.users, ui, add.db.users[ui], UserKey);
    }
  }

  /** The unique `_id` indexes survive a removal. */
  lemma RemoveUserWellFormed(db: Db, userId: ExternalId, communityId: ExternalId)
    requires WellFormed(db)
    ensures WellFormed(RemoveUserFromCommunity(db, userId, communityId).db)
  {
    var rem := RemoveUserFromCommunity(db, userId, communityId);
    if rem.result.Success? {
      var ci := CommunityById(db, communityId).value;
      var ui := UserById(db, userId).value;
      UpdateUnique(db.communities, ci, rem.db.communities[ci], CommunityKey);
      UpdateUnique(db.users, ui, rem.db.users[ui], UserKey);
    }
  }

  /** The unique `_id` indexes survive an update. */
  lemma UpdateCommunityInfoWellFormed(db: Db, communityId: ExternalId, name: string, username: string, image: string)
    requires WellFormed(db)
    ensures WellFormed(UpdateCommunityInfo(db, communityId, name, username, image).db)
  {
    var upd := UpdateCommunityInfo(db, communityId, name, username, image);
    if upd.result.Success? {
      var ci := CommunityById(db, communityId).value;
      UpdateUnique(db.communities, ci, upd.db.communities[ci], CommunityKey);
    }
  }

  // ---------------------------------------------------------------------------
  // Membership agreement

  /**
   * A user lists a community exactly when the user created it or is among its
   * members: the two reference lists agree, with the creator counted on the
   * user's side only (createCommunity does not add the creator to `members`).
   */
  predicate MembershipAgrees(db: Db) {
    forall ui, ci :: 0 <= ui < |db.users| && 0 <= ci < |db.communities| ==>
      (db.communities[ci].oid in db.users[ui].communities <==>
        db.users[ui].oid in db.communities[ci].members || db.communities[ci].createdBy == db.users[ui].oid)
  }

  /** No user already refers to `k` (it is a fresh key). */
  predicate NoUserRefersTo(db: Db, k: ObjectId) {
    forall ui :: 0 <= ui < |db.users| ==> k !in db.users[ui].communities
  }

  lemma CreateCommunityKeepsAgreement(db: Db, newKey: ObjectId, now: int, id: ExternalId, name: string,
                                      username: string, image: string, bio: string, createdById: ExternalId)
    requires WellFormed(db) && MembershipAgrees(db) && NoUserRefersTo(db, newKey)
    ensures MembershipAgrees(CreateCommunity(db, newKey, now, id, name, username, image, bio, createdById).db)
  {
    var out := CreateCommunity(db, newKey, now, id, name, username, image, bio, createdById);
    if out.result.Success? {
      var ui := UserById(db, createdById).value;
      var d := out.db;
      forall a, b | 0 <= a < |d.users| && 0 <= b < |d.communities|
        ensures d.communities[b].oid in d.users[a].communities <==>
          d.users[a].oid in d.communities[b].members || d.communities[b].createdBy == d.users[a].oid
      {
        if b == |db.communities| {
          if a != ui { assert UserKey(db.users[a]) != UserKey(db.users[ui]) by { assert a < ui || ui < a; } }
        } else {
          assert !CommunityHasKey(newKey)(db.communities[b]);
        }
      }
    }
  }

  lemma AddMemberKeepsAgreement(db: Db, communityId: ExternalId, memberId: ExternalId)
    requires WellFormed(db) && MembershipAgrees(db)
    ensures MembershipAgrees(AddMemberToCommunity(db, communityId, memberId).db)
  {
    var out := AddMemberToCommunity(db, communityId, memberId);
    if out.result.Success? {
      var ci := CommunityById(db, communityId).value;
      var ui := UserById(db, memberId).value;
      var d := out.db;
      forall a, b | 0 <= a < |d.users| && 0 <= b < |d.communities|
        ensures d.communities[b].oid in d.users[a].communities <==>
          d.users[a].oid in d.communities[b].members || d.communities[b].createdBy == d.users[a].oid
      {
        if a != ui { assert UserKey(db.users[a]) != UserKey(db.users[ui]) by { assert a < ui || ui < a; } }
        if b != ci { assert CommunityKey(db.communities[b]) != CommunityKey(db.communities[ci]) by { assert b < ci || ci < b; } }
      }
    }
  }

  /** Pulling one value keeps every other value's membership. */
  lemma PullKeepsOthers<T(!new)>(xs: seq<T>, x: T, y: T)
    requires y != x
    ensures y in Pull(xs, x) <==> y in xs
  {
    assert multiset(Pull(xs, x))[y] == multiset(xs)[y];
    assert y in Pull(xs, x) <==> y in multiset(Pull(xs, x));
  }

  /** Removing a member who is not the community's creator keeps the lists in agreement. */
  lemma RemoveUserKeepsAgreement(db: Db, userId: ExternalId, communityId: ExternalId)
    requires WellFormed(db) && MembershipAgrees(db)
    requires UserById(db, userId).Some? && CommunityById(db, communityId).Some?
    requires db.communities[CommunityById(db, communityId).value].createdBy != db.users[UserById(db, userId).value].oid
    ensures MembershipAgrees(RemoveUserFromCommunity(db, userId, communityId).db)
  {
    var ui := UserById(db, userId).value;
    var ci := CommunityById(db, communityId).value;
    var u := db.users[ui];
    var c := db.communities[ci];
    var d := RemoveUserFromCommunity(db, userId, communityId).db;
    forall a, b | 0 <= a < |d.users| && 0 <= b < |d.communities|
      ensures d.communities[b].oid in d.users[a].communities <==>
        d.users[a].oid in d.communities[b].members || d.communities[b].createdBy == d.users[a].oid
    {
      if a != ui { assert UserKey(db.users[a]) != UserKey(u) by { assert a < ui || ui < a; } }
      if b != ci { assert CommunityKey(db.communities[b]) != CommunityKey(c) by { assert b < ci || ci < b; } }
      if a == ui && b != ci { PullKeepsOthers(u.communities, c.oid, db.communities[b].oid); }
      if b == ci && a != ui { PullKeepsOthers(c.members, u.oid, db.users[a].oid); }
    }
  }
}
