/**
 * The read-only community actions: the paged thread aggregation of a community,
 * the root-thread count, the paged community search and the communities of a user.
 * Each reads one snapshot of the store (the separate count query and the page
 * query see the same data).
 */
module CommunityReads {
  import opened Wrappers
  import opened Ids
  import opened Seqs
  import opened Paging
  import opened Documents

  /** An author as the `$project` stages keep it: id, name, image. */
  datatype AuthorView = AuthorView(id: ObjectId, name: string, image: string)

  /** A reply as the replies lookup keeps it: its id and its author, and no replies of its own. */
  datatype ReplyView = ReplyView(id: ObjectId, author: AuthorView)

  /** A community as the community lookup keeps it. */
  datatype CommunityView = CommunityView(id: ObjectId, name: string, image: string)

  /** One thread of `fetchCommunityThreads`'s result. */
  datatype ThreadView = ThreadView(
    id: ObjectId,
    text: string,
    likes: seq<ObjectId>,
    replies: seq<ReplyView>,
    author: AuthorView,
    community: Option<CommunityView>,
    createdAt: int)

  // ---------------------------------------------------------------------------
  // fetchCommunityThreads

  /** The `author` lookup: the user with that `_id`, projected; None when the unwind would drop the document. */
  function AuthorOf(db: Db, k: ObjectId): Option<AuthorView> {
    match UserByKey(db, k)
    case None => None
    case Some(i) => Some(AuthorView(db.users[i].oid, db.users[i].name, db.users[i].image))
  }

  /** One document of the replies lookup: a child of `parent` that has an author. */
  function ReplyOf(db: Db, parent: ObjectId): Thread -> Option<ReplyView> {
    (t: Thread) =>
      if t.parentThread != Some(parent) then None
      else match AuthorOf(db, t.author)
        case None => None
        case Some(a) => Some(ReplyView(t.oid, a))
  }

  /** The `replies` of thread `k`: one level of children, each with its author. */
  function RepliesOf(db: Db, k: ObjectId): seq<ReplyView> {
    FilterMap(db.threads, ReplyOf(db, parent := k))
  }

  function LikerOf(k: ObjectId): Like -> Option<ObjectId> {
    (l: Like) => if l.threadId == k then Some(l.likedBy) else None
  }

  /** The `likes` of thread `k`: each like row of the thread mapped to its `likedBy`. */
  function LikesOf(db: Db, k: ObjectId): seq<ObjectId> {
    FilterMap(db.likes, LikerOf(k))
  }

  /** The community lookup with `preserveNullAndEmptyArrays`: null when nothing matches. */
  function CommunityOf(db: Db, k: Option<ObjectId>): Option<CommunityView> {
    match k
    case None => None
    case Some(key) =>
      match CommunityByKey(db, key)
      case None => None
      case Some(i) => Some(CommunityView(db.communities[i].oid, db.communities[i].name, db.communities[i].image))
  }

  /** The whole per-thread pipeline; None when the author unwind drops the thread. */
  function ViewOf(db: Db): Thread -> Option<ThreadView> {
    (t: Thread) =>
      match AuthorOf(db, t.author)
      case None => None
      case Some(a) =>
        Some(ThreadView(t.oid, t.text, LikesOf(db, t.oid), RepliesOf(db, t.oid), a, CommunityOf(db, t.community), t.createdAt))
  }

  function InCommunity(k: ObjectId): Thread -> bool {
    (t: Thread) => t.community == Some(k)
  }

  function ViewCreatedAt(v: ThreadView): int { v.createdAt }

  /** Every thread of the community, joined, newest first (before skip and limit). */
  function CommunityTimeline(db: Db, k: ObjectId): seq<ThreadView> {
    SortNewestFirst(FilterMap(Filter(db.threads, InCommunity(k)), ViewOf(db)), ViewCreatedAt)
  }

  /**
   * `fetchCommunityThreads(communityId, pageNumber, pageSize)`. The count and the
   * match both take every thread of the community, replies included; only the
   * author unwind removes threads from the page, never from the count.
   */
  function FetchCommunityThreads(db: Db, communityId: string, pageNumber: int, pageSize: int)
    : (r: Result<Page<ThreadView>, Error>)
    ensures r.Failure? <==> !IsHexText(communityId) || SkipOf(pageNumber, pageSize) < 0 || pageSize < 1
    ensures r.Success? ==> |r.value.items| <= pageSize
  {
    match CastObjectId(communityId)
    case None => Failure(CastError)
    case Some(k) =>
      var total := |Filter(db.threads, InCommunity(k))|;
      var skip := SkipOf(pageNumber, pageSize);
      if skip < 0 || pageSize < 1 then Failure(BadPagination)
      else
        var items := Window(CommunityTimeline(db, k), skip, pageSize);
        Success(Page(items, IsNext(total, skip, |items|)))
  }

  /** A window of a sorted sequence is sorted. */
  lemma WindowNewestFirst<T>(xs: seq<T>, skip: nat, limit: nat, key: T -> int)
    requires NewestFirst(xs, key)
    ensures NewestFirst(Window(xs, skip, limit), key)
  {
    var w := Window(xs, skip, limit);
    forall i, j | 0 <= i < j < |w| ensures key(w[i]) >= key(w[j]) {
      assert w[i] == xs[skip + i] && w[j] == xs[skip + j];
    }
  }

  /**
   * A page of `fetchCommunityThreads` holds at most `pageSize` views, newest
   * first: the slice of the community's newest-first timeline that starts at `skip`.
   */
  lemma FetchCommunityThreadsOrder(db: Db, communityId: string, pageNumber: int, pageSize: int)
    requires IsHexText(communityId) && SkipOf(pageNumber, pageSize) >= 0 && pageSize >= 1
    ensures var items := FetchCommunityThreads(db, communityId, pageNumber, pageSize).value.items;
      var timeline := CommunityTimeline(db, CastObjectId(communityId).value);
      var skip := SkipOf(pageNumber, pageSize);
      && |items| <= pageSize
      && |items| == (if skip >= |timeline| then 0 else Min(pageSize, |timeline| - skip))
      && NewestFirst(items, ViewCreatedAt)
      && (forall i :: 0 <= i < |items| ==> items[i] == timeline[skip + i])
  {
    var timeline := CommunityTimeline(db, CastObjectId(communityId).value);
    WindowNewestFirst(timeline, SkipOf(pageNumber, pageSize), pageSize, ViewCreatedAt);
  }

  /** Every view of a page comes from a thread of the community that has an author. */
  lemma FetchCommunityThreadsOrigin(db: Db, communityId: string, pageNumber: int, pageSize: int)
    requires IsHexText(communityId) && SkipOf(pageNumber, pageSize) >= 0 && pageSize >= 1
    ensures var items := FetchCommunityThreads(db, communityId, pageNumber, pageSize).value.items;
      var k := CastObjectId(communityId).value;
      forall v :: v in items ==>
        exists t :: t in db.threads && t.community == Some(k) && AuthorOf(db, t.author).Some? && ViewOf(db)(t) == Some(v)
  {
    var k := CastObjectId(communityId).value;
    var matched := Filter(db.threads, InCommunity(k));
    var joined := FilterMap(matched, ViewOf(db));
    var timeline := CommunityTimeline(db, k);
    forall v | v in FetchCommunityThreads(db, communityId, pageNumber, pageSize).value.items
      ensures exists t :: t in db.threads && t.community == Some(k) && AuthorOf(db, t.author).Some? && ViewOf(db)(t) == Some(v)
    {
      assert v in timeline;
      assert v in multiset(timeline);
      assert v in joined;
      FilterMapIn(matched, ViewOf(db), v);
      var t :| t in matched && ViewOf(db)(t) == Some(v);
    }
  }

  /**
   * `isNext` compares the count of all the community's threads with `skip`
   * plus the page length, so when every thread of the community has an author
   * it holds exactly when later threads remain.
   */
  lemma FetchCommunityThreadsIsNext(db: Db, communityId: string, pageNumber: int, pageSize: int)
    requires IsHexText(communityId) && SkipOf(pageNumber, pageSize) >= 0 && pageSize >= 1
    ensures var page := FetchCommunityThreads(db, communityId, pageNumber, pageSize).value;
      var k := CastObjectId(communityId).value;
      var skip := SkipOf(pageNumber, pageSize);
      && (page.isNext <==> |Filter(db.threads, InCommunity(k))| > skip + |page.items|)
      && ((forall t :: t in db.threads && t.community == Some(k) ==> AuthorOf(db, t.author).Some?) ==>
            (page.isNext <==> skip + pageSize < |Filter(db.threads, InCommunity(k))|))
  {
    var k := CastObjectId(communityId).value;
    var matched := Filter(db.threads, InCommunity(k));
    var joined := FilterMap(matched, ViewOf(db));
    var timeline := CommunityTimeline(db, k);
    if forall t :: t in db.threads && t.community == Some(k) ==> AuthorOf(db, t.author).Some? {
      AllJoined(matched, db);
      assert |timeline| == |multiset(timeline)| == |joined| == |matched|;
      IsNextIffMoreRemain(timeline, SkipOf(pageNumber, pageSize), pageSize);
    }
  }

  /** When every thread has an author, the join keeps every thread. */
  lemma {:induction false} AllJoined(ts: seq<Thread>, db: Db)
    requires forall t :: t in ts ==> AuthorOf(db, t.author).Some?
    ensures |FilterMap(ts, ViewOf(db))| == |ts|
    decreases |ts|
  {
    if |ts| > 0 {
      AllJoined(ts[1..], db);
      assert ts[0] in ts;
    }
  }

  /** A reply of thread `k`: a direct child that has an author, with that author. */
  predicate IsReplyViewOf(db: Db, k: ObjectId, rv: ReplyView) {
    exists c :: c in db.threads && c.parentThread == Some(k) && AuthorOf(db, c.author) == Some(rv.author) && rv.id == c.oid
  }

  /** `replies` holds exactly the direct children of the thread that have an author. */
  lemma RepliesExactly(db: Db, k: ObjectId)
    ensures forall rv :: rv in RepliesOf(db, k) <==> IsReplyViewOf(db, k, rv)
  {
    forall rv ensures rv in RepliesOf(db, k) <==> IsReplyViewOf(db, k, rv) {
      FilterMapIn(db.threads, ReplyOf(db, k), rv);
      if rv in RepliesOf(db, k) {
        var c :| c in db.threads && ReplyOf(db, k)(c) == Some(rv);
      }
      if IsReplyViewOf(db, k, rv) {
        var c :| c in db.threads && c.parentThread == Some(k) && AuthorOf(db, c.author) == Some(rv.author) && rv.id == c.oid;
        assert ReplyOf(db, k)(c) == Some(rv);
      }
    }
  }

  /** A thread that survives the author unwind becomes exactly these fields. */
  lemma ViewOfFields(db: Db, t: Thread, v: ThreadView)
    requires ViewOf(db)(t) == Some(v)
    ensures AuthorOf(db, t.author).Some?
    ensures v == ThreadView(t.oid, t.text, LikesOf(db, t.oid), RepliesOf(db, t.oid),
      AuthorOf(db, t.author).value, CommunityOf(db, t.community), t.createdAt)
  {
  }

  /**
   * The shape of one thread of the result: its author is the user the thread
   * names, its replies are exactly its direct children that have an author,
   * it carries one like entry per like row of the thread, and its community is
   * null exactly when no community has the thread's community id.
   */
  lemma ThreadViewShape(db: Db, t: Thread, v: ThreadView)
    requires ViewOf(db)(t) == Some(v)
    ensures v.id == t.oid && v.createdAt == t.createdAt && v.text == t.text
    ensures exists i :: (0 <= i < |db.users| && db.users[i].oid == t.author &&
      v.author == AuthorView(db.users[i].oid, db.users[i].name, db.users[i].image))
    ensures forall rv :: rv in v.replies <==> IsReplyViewOf(db, t.oid, rv)
    ensures forall u :: multiset(v.likes)[u] == |Filter(db.likes, LikeRow(t.oid, u))|
    ensures v.community.None? <==> t.community.None? || CommunityByKey(db, t.community.value).None?
  {
    ViewOfFields(db, t, v);
    var i := UserByKey(db, t.author).value;
    assert v.author == AuthorView(db.users[i].oid, db.users[i].name, db.users[i].image);
    RepliesExactly(db, t.oid);
    forall u ensures multiset(v.likes)[u] == |Filter(db.likes, LikeRow(t.oid, u))| {
      LikesCounted(db.likes, t.oid, u);
    }
  }

  function LikeRow(k: ObjectId, u: ObjectId): Like -> bool {
    (l: Like) => l.threadId == k && l.likedBy == u
  }

  /** A user appears in a thread's `likes` once per like row, so duplicate rows show twice. */
  lemma {:induction false} LikesCounted(ls: seq<Like>, k: ObjectId, u: ObjectId)
    ensures multiset(FilterMap<Like, ObjectId>(ls, LikerOf(k)))[u] == |Filter(ls, LikeRow(k, u))|
    decreases |ls|
  {
    if |ls| > 0 {
      LikesCounted(ls[1..], k, u);
    }
  }

  // ---------------------------------------------------------------------------
  // getCommunityThreadsCount

  function IsRoot(t: Thread): bool { t.parentThread.None? }
  function IsReply(t: Thread): bool { t.parentThread.Some? }

  function RootIn(k: ObjectId): Thread -> bool {
    (t: Thread) => t.community == Some(k) && t.parentThread.None?
  }

  /** `getCommunityThreadsCount`: threads of the community whose `parentThread` is null or missing. */
  function GetCommunityThreadsCount(db: Db, communityId: string): (r: Result<nat, Error>)
    ensures r.Failure? <==> !IsHexText(communityId)
    ensures r.Success? ==> r.value <= |db.threads|
  {
    match CastObjectId(communityId)
    case None => Failure(CastError)
    case Some(k) => Success(|Filter(db.threads, RootIn(k))|)
  }

  /**
   * The root-thread count and the replies of the community together make up the
   * total that `fetchCommunityThreads` compares against for `isNext`.
   */
  lemma ThreadsCountPlusRepliesIsTotal(db: Db, communityId: string)
    requires IsHexText(communityId)
    ensures var k := CastObjectId(communityId).value;
      GetCommunityThreadsCount(db, communityId).value + |Filter(Filter(db.threads, InCommunity(k)), IsReply)|
        == |Filter(db.threads, InCommunity(k))|
  {
    var k := CastObjectId(communityId).value;
    var matched := Filter(db.threads, InCommunity(k));
    FilterTwice(db.threads, InCommunity(k), IsRoot, RootIn(k));
    FilterSplit(matched, IsRoot, IsReply);
  }

  // ---------------------------------------------------------------------------
  // searchCommunities

  datatype SortOrder = Ascending | Descending

  /** The characters `String.prototype.trim` removes: white space and line terminators. */
  predicate IsJsWhitespace(c: char) {
    var n := c as int;
    n == 0x09 || n == 0x0A || n == 0x0B || n == 0x0C || n == 0x0D || n == 0x20 ||
    n == 0xA0 || n == 0x1680 || 0x2000 <= n <= 0x200A || n == 0x2028 || n == 0x2029 ||
    n == 0x202F || n == 0x205F || n == 0x3000 || n == 0xFEFF
  }

  /** `String.prototype.trimStart`: drop the leading white space. */
  function TrimStart(s: string): (r: string)
    ensures |r| <= |s|
    ensures r == [] <==> forall i :: 0 <= i < |s| ==> IsJsWhitespace(s[i])
    ensures r != [] ==> !IsJsWhitespace(r[0])
    decreases |s|
  {
    if |s| == 0 then s
    else if IsJsWhitespace(s[0]) then
      assert forall i :: 1 <= i < |s| ==> s[i] == s[1..][i - 1];
      TrimStart(s[1..])
    else s
  }

  /** `String.prototype.trimEnd`: drop the trailing white space. */
  function TrimEnd(s: string): (r: string)
    ensures |r| <= |s|
    ensures |s| > 0 && !IsJsWhitespace(s[0]) ==> r != []
    ensures s == [] ==> r == []
    decreases |s|
  {
    if |s| == 0 then s
    else if IsJsWhitespace(s[|s| - 1]) then TrimEnd(s[..|s| - 1])
    else s
  }

  /** `String.prototype.trim`. */
  function Trim(s: string): string {
    TrimEnd(TrimStart(s))
  }

  /** `s.trim() === ""`: exactly the strings made only of white space and line terminators. */
  predicate IsBlank(s: string)
    ensures IsBlank(s) <==> forall i :: 0 <= i < |s| ==> IsJsWhitespace(s[i])
  {
    Trim(s) == ""
  }

  predicate OccursAt(hay: string, needle: string, i: nat)
    requires i + |needle| <= |hay|
  {
    Lower(hay[i..i + |needle|]) == Lower(needle)
  }

  /** `needle` occurs in `hay`, ignoring ASCII letter case. */
  predicate ContainsIgnoringCase(hay: string, needle: string) {
    exists i: nat | i <= |hay| - |needle| :: OccursAt(hay, needle, i)
  }

  /**
   * The `$or` of the two case-insensitive matches on `username` and `name`: a
   * match needs a field at least as long as the search string, and a field
   * equal to it up to letter case always matches.
   */
  function MatchesSearch(s: string): (m: Community -> bool)
    ensures forall c: Community :: m(c) ==> |s| <= |c.username| || |s| <= |c.name|
    ensures forall c: Community :: Lower(c.username) == Lower(s) || Lower(c.name) == Lower(s) ==> m(c)
  {
    var m := (c: Community) => ContainsIgnoringCase(c.username, s) || ContainsIgnoringCase(c.name, s);
    assert forall c: Community :: Lower(c.username) == Lower(s) ==> OccursAt(c.username, s, 0) by {
      forall c: Community | Lower(c.username) == Lower(s) ensures OccursAt(c.username, s, 0) {
        assert |c.username| == |Lower(c.username)| == |Lower(s)| == |s|;
        assert c.username[0..|s|] == c.username;
      }
    }
    assert forall c: Community :: Lower(c.name) == Lower(s) ==> OccursAt(c.name, s, 0) by {
      forall c: Community | Lower(c.name) == Lower(s) ensures OccursAt(c.name, s, 0) {
        assert |c.name| == |Lower(c.name)| == |Lower(s)| == |s|;
        assert c.name[0..|s|] == c.name;
      }
    }
    m
  }

  /** The query filter: every stored community for a blank search string, else those that match. */
  function SearchMatches(db: Db, searchString: string): (r: seq<Community>)
    ensures |r| <= |db.communities|
    ensures forall c :: c in r <==> c in db.communities && (IsBlank(searchString) || MatchesSearch(searchString)(c))
  {
    if IsBlank(searchString) then db.communities else Filter(db.communities, MatchesSearch(searchString))
  }

  function CreatedAt(c: Community): int { c.createdAt }
  function NegCreatedAt(c: Community): int { -c.createdAt }

  function SortKey(sortBy: SortOrder): Community -> int {
    if sortBy == Descending then CreatedAt else NegCreatedAt
  }

  /**
   * `searchCommunities({searchString, pageNumber, pageSize, sortBy})`.
   * `limit(0)` means no limit and a negative limit returns that many in one batch.
   */
  function SearchCommunities(db: Db, searchString: string, pageNumber: int, pageSize: int, sortBy: SortOrder)
    : (r: Result<Page<Community>, Error>)
    ensures r.Failure? <==> SkipOf(pageNumber, pageSize) < 0
    ensures r.Success? && pageSize != 0 ==> |r.value.items| <= if pageSize < 0 then -pageSize else pageSize
  {
    var skip := SkipOf(pageNumber, pageSize);
    if skip < 0 then Failure(BadPagination)
    else
      var matched := SearchMatches(db, searchString);
      var sorted := SearchSorted(db, searchString, sortBy);
      var limit := if pageSize == 0 then |sorted| else if pageSize < 0 then -pageSize else pageSize;
      var items := Window(sorted, skip, limit);
      Success(Page(items, IsNext(|matched|, skip, |items|)))
  }

  /** A blank or whitespace-only search string is the same as no search string. */
  lemma BlankSearchIsUnfiltered(db: Db, s: string, pageNumber: int, pageSize: int, sortBy: SortOrder)
    requires IsBlank(s)
    ensures SearchCommunities(db, s, pageNumber, pageSize, sortBy) == SearchCommunities(db, "", pageNumber, pageSize, sortBy)
    ensures SearchMatches(db, s) == db.communities
  {
  }

  /** The sorted matches a search pages through. */
  function SearchSorted(db: Db, s: string, sortBy: SortOrder): (r: seq<Community>)
    ensures multiset(r) == multiset(SearchMatches(db, s))
    ensures NewestFirst(r, SortKey(sortBy))
  {
    SortNewestFirst(SearchMatches(db, s), SortKey(sortBy))
  }

  /** Every item of a search page is a stored community, and matches a non-blank search. */
  lemma SearchItemsMatch(db: Db, s: string, pageNumber: int, pageSize: int, sortBy: SortOrder)
    requires SkipOf(pageNumber, pageSize) >= 0
    ensures var page := SearchCommunities(db, s, pageNumber, pageSize, sortBy).value;
      && (forall c :: c in page.items ==> c in db.communities)
      && (!IsBlank(s) ==> forall c :: c in page.items ==> MatchesSearch(s)(c))
  {
    var sorted := SearchSorted(db, s, sortBy);
    forall c | c in SearchCommunities(db, s, pageNumber, pageSize, sortBy).value.items
      ensures c in SearchMatches(db, s)
    {
      assert c in multiset(sorted);
    }
  }

  /** The items of a search page are in `createdAt` order, in the requested direction. */
  lemma SearchItemsOrdered(db: Db, s: string, pageNumber: int, pageSize: int, sortBy: SortOrder)
    requires SkipOf(pageNumber, pageSize) >= 0
    ensures var items := SearchCommunities(db, s, pageNumber, pageSize, sortBy).value.items;
      && (sortBy == Descending ==> forall i, j :: 0 <= i < j < |items| ==> items[i].createdAt >= items[j].createdAt)
      && (sortBy == Ascending ==> forall i, j :: 0 <= i < j < |items| ==> items[i].createdAt <= items[j].createdAt)
  {
    var sorted := SearchSorted(db, s, sortBy);
    var limit := if pageSize == 0 then |sorted| else if pageSize < 0 then -pageSize else pageSize;
    WindowNewestFirst(sorted, SkipOf(pageNumber, pageSize), limit, SortKey(sortBy));
  }

  /**
   * `isNext` of a search page holds exactly when matching communities remain
   * after it; with `limit(0)` the page holds every match and `isNext` is false.
   */
  lemma SearchIsNext(db: Db, s: string, pageNumber: int, pageSize: int, sortBy: SortOrder)
    requires SkipOf(pageNumber, pageSize) >= 0
    ensures var page := SearchCommunities(db, s, pageNumber, pageSize, sortBy).value;
      var skip := SkipOf(pageNumber, pageSize);
      && (pageSize != 0 ==>
            (page.isNext <==> skip + (if pageSize < 0 then -pageSize else pageSize) < |SearchMatches(db, s)|))
      && (pageSize == 0 ==> !page.isNext)
      && (pageSize == 0 ==> multiset(page.items) == multiset(SearchMatches(db, s)))
  {
    var sorted := SearchSorted(db, s, sortBy);
    if pageSize == 0 {
      assert SkipOf(pageNumber, pageSize) == 0;
      assert SearchCommunities(db, s, pageNumber, pageSize, sortBy).value.items == sorted;
    }
    assert |sorted| == |multiset(sorted)| == |SearchMatches(db, s)|;
    if pageSize != 0 {
      IsNextIffMoreRemain(sorted, SkipOf(pageNumber, pageSize), if pageSize < 0 then -pageSize else pageSize);
    }
  }

  // ---------------------------------------------------------------------------
  // getUsersCommunities

  function BelongsTo(k: ObjectId): Community -> bool {
    (c: Community) => c.createdBy == k || k in c.members
  }

  /**
   * `getUsersCommunities(userId)`: exactly the stored communities the user
   * created or is a member of, in natural order.
   */
  function GetUsersCommunities(db: Db, userId: string): (r: Result<seq<Community>, Error>)
    ensures r.Failure? <==> !IsHexText(userId)
    ensures r.Success? ==> forall c :: c in r.value <==>
      c in db.communities && (c.createdBy == CastObjectId(userId).value || CastObjectId(userId).value in c.members)
  {
    match CastObjectId(userId)
    case None => Failure(CastError)
    case Some(k) => Success(Filter(db.communities, BelongsTo(k)))
  }
}
