/**
 * The store as the community actions use it: four collections that the actions
 * update in place. Each method performs the action's reads and writes in the
 * order the action does and is tied, by its postcondition, to the transition of
 * the same name in CommunityOps, where its properties are proved.
 */
module CommunityStore {
  import opened Wrappers
  import opened Ids
  import opened Seqs
  import opened Documents
  import Ops = CommunityOps
  import Fix = DeleteFindings

  class Store {
    var users: seq<User>
    var communities: seq<Community>
    var threads: seq<Thread>
    var likes: seq<Like>

    /** The collections as a value, for the read actions and the specifications. */
    function Snapshot(): Db
      reads this
    {
      Db(users, communities, threads, likes)
    }

    /** The unique `_id` index of every collection. */
    predicate Valid()
      reads this
    {
      WellFormed(Snapshot())
    }

    /** A store holding the given collections. */
    constructor (db: Db)
      requires WellFormed(db)
      ensures Valid() && Snapshot() == db
    {
      users, communities, threads, likes := db.users, db.communities, db.threads, db.likes;
    }

    /** `createCommunity`: check the creator, save the community, then push onto the creator's list and save. */
    method CreateCommunity(newKey: ObjectId, now: int, id: ExternalId, name: string, username: string,
                           image: string, bio: string, createdById: ExternalId)
      returns (r: Result<Community, Error>)
      requires Valid()
      modifies this
      ensures Valid()
      ensures Ops.Outcome(Snapshot(), r) ==
        Ops.CreateCommunity(old(Snapshot()), newKey, now, id, name, username, image, bio, createdById)
    {
      Ops.CreateCommunityWellFormed(Snapshot(), newKey, now, id, name, username, image, bio, createdById);
      var found := UserById(Snapshot(), createdById);
      if found.None? {
        return Failure(UserNotFound);
      }
      var ui := found.value;
      var user := users[ui];
      if CommunityByKey(Snapshot(), newKey).Some? {
        return Failure(DuplicateKey);
      }
      var created := Community(newKey, id, name, username, image, bio, user.oid, [], now);
      communities := communities + [created];
      user := user.(communities := user.communities + [created.oid]);
      users := users[ui := user];
      r := Success(created);
    }

    /** `addMemberToCommunity`: find both, refuse a duplicate, push onto `members` and save, push onto `communities` and save. */
    method AddMemberToCommunity(communityId: ExternalId, memberId: ExternalId) returns (r: Result<Community, Error>)
      requires Valid()
      modifies this
      ensures Valid()
      ensures Ops.Outcome(Snapshot(), r) == Ops.AddMemberToCommunity(old(Snapshot()), communityId, memberId)
    {
      Ops.AddMemberWellFormed(Snapshot(), communityId, memberId);
      var foundCommunity := CommunityById(Snapshot(), communityId);
      if foundCommunity.None? {
        return Failure(CommunityNotFound);
      }
      var foundUser := UserById(Snapshot(), memberId);
      if foundUser.None? {
        return Failure(UserNotFound);
      }
      var ci, ui := foundCommunity.value, foundUser.value;
      var community, user := communities[ci], users[ui];
      if user.oid in community.members {
        return Failure(AlreadyMember);
      }
      community := community.(members := community.members + [user.oid]);
      communities := communities[ci := community];
      user := user.(communities := user.communities + [community.oid]);
      users := users[ui := user];
      r := Success(community);
    }

    /** `removeUserFromCommunity`: find both, then `$pull` each id from the other's list. */
    method RemoveUserFromCommunity(userId: ExternalId, communityId: ExternalId) returns (r: Result<bool, Error>)
      requires Valid()
      modifies this
      ensures Valid()
      ensures Ops.Outcome(Snapshot(), r) == Ops.RemoveUserFromCommunity(old(Snapshot()), userId, communityId)
    {
      Ops.RemoveUserWellFormed(Snapshot(), userId, communityId);
      var foundUser := UserById(Snapshot(), userId);
      var foundCommunity := CommunityById(Snapshot(), communityId);
      if foundUser.None? {
        return Failure(UserNotFound);
      }
      if foundCommunity.None? {
        return Failure(CommunityNotFound);
      }
      var ui, ci := foundUser.value, foundCommunity.value;
      var userKey, communityKey := users[ui].oid, communities[ci].oid;
      communities := communities[ci := communities[ci].(members := Pull(communities[ci].members, userKey))];
      users := users[ui := users[ui].(communities := Pull(users[ui].communities, communityKey))];
      r := Success(true);
    }

    /** `updateCommunityInfo`: `findOneAndUpdate` by external id, returning the document found. */
    method UpdateCommunityInfo(communityId: ExternalId, name: string, username: string, image: string)
      returns (r: Result<Community, Error>)
      requires Valid()
      modifies this
      ensures Valid()
      ensures Ops.Outcome(Snapshot(), r) == Ops.UpdateCommunityInfo(old(Snapshot()), communityId, name, username, image)
    {
      Ops.UpdateCommunityInfoWellFormed(Snapshot(), communityId, name, username, image);
      var found := CommunityById(Snapshot(), communityId);
      if found.None? {
        return Failure(CommunityNotFound);
      }
      var ci := found.value;
      var before := communities[ci];
      communities := communities[ci := before.(name := name, username := username, image := image)];
      r := Success(before);
    }

    /**
     * `deleteCommunity` inside a transaction: delete the community found by its
     * external id, then delete threads and look up users by that same string;
     * a failure aborts the transaction and restores every collection.
     */
    method DeleteCommunity(communityId: ExternalId) returns (r: Result<Community, Error>)
      requires Valid()
      modifies this
      ensures Valid()
      ensures Ops.Outcome(Snapshot(), r) == Ops.DeleteCommunity(old(Snapshot()), communityId)
    {
      Ops.DeleteCommunityWellFormed(Snapshot(), communityId);
      var before := Snapshot();
      var found := CommunityById(Snapshot(), communityId);
      if found.None? {
        return Failure(CommunityNotFound);
      }
      var ci := found.value;
      var deleted := communities[ci];
      communities := communities[..ci] + communities[ci + 1..];
      var key := CastObjectId(communityId);
      if key.None? {
        // deleteMany rejects with a CastError; abortTransaction undoes the delete above
        users, communities, threads, likes := before.users, before.communities, before.threads, before.likes;
        return Failure(CastError);
      }
      threads := Filter(threads, Ops.NotInCommunity(key.value));
      // The users found by `User.find({ communities: communityId })` are mapped to
      // `undefined`: each findByIdAndUpdate query is built but never executed,
      // so no user document changes.
      r := Success(deleted);
    }
  
    /**
     * The deletion `deleteCommunity` evidently intends: delete the community
     * found by its external id and its threads, then visit every user that
     * lists it and pull its internal id from that user's `communities`.
     */
    method DeleteCommunityCorrected(communityId: ExternalId) returns (r: Result<Community, Error>)
      requires Valid()
      modifies this
      ensures Valid()
      ensures Ops.Outcome(Snapshot(), r) == Fix.DeleteCommunityCorrected(old(Snapshot()), communityId)
    {
      Fix.CorrectedDeleteWellFormed(Snapshot(), communityId);
      var pre := Snapshot();
      var found := CommunityById(Snapshot(), communityId);
      if found.None? {
        return Failure(CommunityNotFound);
      }
      var ci := found.value;
      var deleted := communities[ci];
      var k := deleted.oid;
      // the users that list the community, one `$pull` each
      var us := users;
      var i := 0;
      while i < |us|
        invariant 0 <= i <= |us| == |pre.users|
        invariant unchanged(this)
        invariant forall j :: 0 <= j < i ==> us[j] == pre.users[j].(communities := Pull(pre.users[j].communities, k))
        invariant forall j :: i <= j < |us| ==> us[j] == pre.users[j]
      {
        var u := us[i];
        if k in u.communities {
          us := us[i := u.(communities := Pull(u.communities, k))];
        } else {
          PullAbsent(u.communities, k);
        }
        i := i + 1;
      }
      assert us == Fix.WithoutReference(pre.users, k);
      communities := pre.communities[..ci] + pre.communities[ci + 1..];
      threads := Filter(pre.threads, Ops.NotInCommunity(k));
      users := us;
      r := Success(deleted);
    }
  }
}
