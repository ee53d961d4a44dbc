/**
 * The four collections the community actions touch, reduced to the fields they
 * read or write, and the lookups they perform (`findOne` by external id, a
 * `$lookup` by internal id). Every table is a sequence in natural order.
 */
module Documents {
  import opened Wrappers
  import opened Ids
  import opened Seqs

  /** A user; `communities` holds internal ids of communities. */
  datatype User = User(
    oid: ObjectId,
    id: ExternalId,
    name: string,
    image: string,
    communities: seq<ObjectId>)

  /** A community; `createdBy` and `members` hold internal ids of users. */
  datatype Community = Community(
    oid: ObjectId,
    id: ExternalId,
    name: string,
    username: string,
    image: string,
    bio: string,
    createdBy: ObjectId,
    members: seq<ObjectId>,
    createdAt: int)

  /** A thread; a reply has a `parentThread`, a root thread has none (null or missing). */
  datatype Thread = Thread(
    oid: ObjectId,
    text: string,
    author: ObjectId,
    parentThread: Option<ObjectId>,
    community: Option<ObjectId>,
    createdAt: int)

  /** One like of one thread by one user; nothing stops the same pair from appearing twice. */
  datatype Like = Like(oid: ObjectId, threadId: ObjectId, likedBy: ObjectId)

  /** A snapshot of the four collections. */
  datatype Db = Db(users: seq<User>, communities: seq<Community>, threads: seq<Thread>, likes: seq<Like>)

  /** Why an action fails. */
  datatype Error =
    | UserNotFound
    | CommunityNotFound
    | AlreadyMember
    | CastError      // a string that is not an ObjectId was used against an ObjectId field
    | DuplicateKey   // an insert reused an existing `_id`
    | BadPagination  // a negative `$skip`, or a `$limit` below one in an aggregation

  function UserKey(u: User): ObjectId { u.oid }
  function CommunityKey(c: Community): ObjectId { c.oid }
  function ThreadKey(t: Thread): ObjectId { t.oid }
  function LikeKey(l: Like): ObjectId { l.oid }

  /** Every collection has MongoDB's unique index on `_id`. */
  predicate WellFormed(db: Db) {
    && UniqueBy(db.users, UserKey)
    && UniqueBy(db.communities, CommunityKey)
    && UniqueBy(db.threads, ThreadKey)
    && UniqueBy(db.likes, LikeKey)
  }

  function UserHasId(id: ExternalId): User -> bool { (u: User) => u.id == id }
  function CommunityHasId(id: ExternalId): Community -> bool { (c: Community) => c.id == id }
  function UserHasKey(k: ObjectId): User -> bool { (u: User) => u.oid == k }
  function CommunityHasKey(k: ObjectId): Community -> bool { (c: Community) => c.oid == k }

  /** `User.findOne({ id })`: the first user with that external id. */
  function UserById(db: Db, id: ExternalId): (r: Option<nat>)
    ensures r.Some? ==> r.value < |db.users| && db.users[r.value].id == id
    ensures r.Some? ==> forall j :: 0 <= j < r.value ==> db.users[j].id != id
    ensures r.None? <==> forall j :: 0 <= j < |db.users| ==> db.users[j].id != id
  {
    FindFirst(db.users, UserHasId(id))
  }

  /** `Community.findOne({ id })`: the first community with that external id. */
  function CommunityById(db: Db, id: ExternalId): (r: Option<nat>)
    ensures r.Some? ==> r.value < |db.communities| && db.communities[r.value].id == id
    ensures r.Some? ==> forall j :: 0 <= j < r.value ==> db.communities[j].id != id
    ensures r.None? <==> forall j :: 0 <= j < |db.communities| ==> db.communities[j].id != id
  {
    FindFirst(db.communities, CommunityHasId(id))
  }

  /** A `$lookup` from `users` on `_id`. */
  function UserByKey(db: Db, k: ObjectId): Option<nat> {
    FindFirst(db.users, UserHasKey(k))
  }

  /** A `$lookup` from `communities` on `_id`. */
  function CommunityByKey(db: Db, k: ObjectId): Option<nat> {
    FindFirst(db.communities, CommunityHasKey(k))
  }

  /** Under the unique `_id` index, the document found by key is the only one with that key. */
  lemma KeyLookupIsTheOnlyMatch(db: Db, k: ObjectId)
    requires WellFormed(db)
    ensures UserByKey(db, k).Some? ==>
      forall j :: 0 <= j < |db.users| && db.users[j].oid == k ==> j == UserByKey(db, k).value
    ensures CommunityByKey(db, k).Some? ==>
      forall j :: 0 <= j < |db.communities| && db.communities[j].oid == k ==> j == CommunityByKey(db, k).value
  {
  }
}
