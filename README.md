# Community actions of a Threads-style social app, in Dafny

This project models the community data layer of the application: the server
actions in `database/community/community.actions.ts`. They run over four
MongoDB collections: users, communities, threads and likes.

Every document has an internal `_id`, a MongoDB ObjectId. Users and
communities also have an external `id`: the string the identity provider
issued for the user or organisation. Threads and likes have no external id.

Users and communities refer to each other both ways. A user's `communities`
lists the `_id`s of the communities the user belongs to. A community has a
`createdBy` and a `members` list of user `_id`s. Threads point at their
community by its `_id`.

The model keeps internal and external ids as separate types:

- `Ids.ObjectId` is the canonical 24-digit lower-case hexadecimal text of an
  internal id.
- `Ids.ExternalId` is a plain string.

The only bridge between them is `Ids.CastObjectId`. It models Mongoose's cast
of a query string against an ObjectId path: 24 hexadecimal digits in either
case cast, and anything else is a CastError. With this, every place where the
actions compare a string against an ObjectId field is explicit.

Layout:

- `wrappers.dfy`: `Option` and `Result`.
- `ids.dfy`: the two kinds of id and the cast between them.
- `seqs.dfy`: the collection operations the queries use:
  - `findOne` is the first match in natural order;
  - `find` is a filter;
  - `$pull` removes every occurrence of a value;
  - `$lookup` followed by `$unwind` is a filter-map;
  - the unique `_id` index.
- `paging.dfy`: the skip/limit window, the newest-first sort and `isNext`.
- `documents.dfy`: the four document shapes, the store value `Db`, the
  error kinds and the lookups by external id and by `_id`.
- `community_reads.dfy`: the read actions, as functions of a store value:
  - `getUsersCommunities`;
  - `fetchCommunityThreads`, with its aggregation pipeline;
  - `getCommunityThreadsCount`;
  - `searchCommunities`.
- `community_ops.dfy`: the write actions, as transitions from a store value
  to the store after the call plus what the call returned or threw. The
  lemmas about the write actions are here.
- `community_store.dfy`: class `Store`, whose four collection fields the
  write actions update in place. Each method's postcondition says that the
  new state and the result are those of the transition of the same name.
- `delete_findings.dfy`: what `deleteCommunity` leaves behind as written,
  and the corrected deletion.

`fetchCommunityThreads` matches every thread of the community, replies
included, because its `$match` (database/community/community.actions.ts:113-115)
has no `parentThread` condition. Only `getCommunityThreadsCount` restricts
itself to top-level threads.

## Model

| member | source | states |
|---|---|---|
| Ids.CastObjectId | database/community/community.actions.ts:111-116 | a string casts to an ObjectId exactly when it is 24 hexadecimal digits; any other string makes the query throw a CastError |
| Ids.CastHexString | database/community/community.actions.ts:111-116 | casting the hexadecimal text of an ObjectId gives back the same ObjectId |
| Ids.CastSameId | database/community/community.actions.ts:60-69 | two castable strings denote the same ObjectId exactly when they agree up to letter case |
| Ids.NonHexNamesNoId | database/community/community.actions.ts:480 | a string that is not 24 hexadecimal digits, such as a provider id `org_…`, equals no ObjectId and casts to none |
| Seqs.FindFirst | database/community/community.actions.ts:23 | `findOne` returns the first document in natural order that matches; no result means no document matches |
| Seqs.Filter | database/community/community.actions.ts:60-69 | `find` returns exactly the documents that match, never more than the collection holds |
| Seqs.FilterMultiplicity | database/community/community.actions.ts:60-69 | each matching document appears in the result as often as it is stored, and no other document appears |
| Seqs.FilterMapIn | database/community/community.actions.ts:178-199 | a `$lookup` followed by `$unwind` keeps a document exactly when its join finds a partner |
| Seqs.Pull | database/community/community.actions.ts:415-424 | `$pull` removes every occurrence of the value and keeps every other value as often as before |
| Seqs.PullIdempotent | database/community/community.actions.ts:415-424 | a second `$pull` of the same value changes nothing |
| Seqs.FilterUnique | database/community/community.actions.ts:480 | deleting documents keeps the unique `_id` index |
| Paging.SkipOf | database/community/community.actions.ts:105 | with a positive page size the skip is negative exactly for page numbers below 1; page 1, or a page size of 0, skips nothing |
| Paging.IsNext | database/community/community.actions.ts:258 | `isNext` implies that results remain after the skipped ones, and on an empty page it means exactly that |
| Paging.SortNewestFirst | database/community/community.actions.ts:319-323 | sorting by `createdAt` descending gives an ordered permutation of its input |
| Paging.Window | database/community/community.actions.ts:324-325 | `skip` followed by `limit` gives at most `limit` results, the ones that start at position `skip` |
| Paging.IsNextIffMoreRemain | database/community/community.actions.ts:258 | when the total is the number of sorted results, `isNext` holds exactly when results remain after the page |
| Paging.PagesTile | database/community/community.actions.ts:105 | with `skip = (pageNumber - 1) * pageSize`, consecutive windows of one sorted sequence neither overlap nor leave gaps: the first k pages are its first k·pageSize elements |
| Paging.ItemOnItsPage | database/community/community.actions.ts:105 | result number i appears on page i / pageSize + 1, at position i mod pageSize |
| Documents.UserById | database/community/community.actions.ts:23 | `User.findOne({ id })` finds the first user in natural order with that external id, and none exactly when no user has it |
| Documents.CommunityById | database/community/community.actions.ts:351 | `Community.findOne({ id })` finds the first community in natural order with that external id, and none exactly when no community has it |
| Documents.KeyLookupIsTheOnlyMatch | database/community/community.actions.ts:415-418 | under the unique `_id` index, the document found by `_id` is the only one with that `_id` |
| CommunityReads.GetUsersCommunities | database/community/community.actions.ts:56-75 | fails with a CastError exactly when the user id is not an ObjectId string; otherwise returns exactly the stored communities the user created or is a member of |
| CommunityReads.FetchCommunityThreads | database/community/community.actions.ts:98-116 | fails exactly when the community id does not cast, the computed skip is negative or the page size is below 1; a page has at most `pageSize` threads |
| CommunityReads.FetchCommunityThreadsOrder | database/community/community.actions.ts:105-256 | a page has at most `pageSize` threads, newest first, and is the slice of the community's newest-first timeline that starts at `(pageNumber - 1) * pageSize` |
| CommunityReads.FetchCommunityThreadsOrigin | database/community/community.actions.ts:111-199 | every item of a page is the view of a thread of that community that has an author; threads whose author is missing drop out at the unwind |
| CommunityReads.FetchCommunityThreadsIsNext | database/community/community.actions.ts:105-258 | `isNext` compares the count of all the community's threads with skip plus the page length, so it means "more threads remain" whenever every thread has an author |
| CommunityReads.ThreadViewShape | database/community/community.actions.ts:117-256 | each thread of the page has its own id, text and date; its author is the stored user it names; its replies are exactly its direct children that have an author; it lists a liker once per like row; its community is null exactly when no community has that id |
| CommunityReads.RepliesExactly | database/community/community.actions.ts:117-159 | the replies of a thread are exactly its direct children whose author exists, each with that author |
| CommunityReads.LikesCounted | database/community/community.actions.ts:161-177 | a user appears in a thread's likes as many times as there are like rows for that user and thread |
| CommunityReads.GetCommunityThreadsCount | database/community/community.actions.ts:272-285 | fails exactly when the community id does not cast; otherwise counts the threads of the community that have no parent thread |
| CommunityReads.ThreadsCountPlusRepliesIsTotal | database/community/community.actions.ts:276-279 | the top-level count plus the community's replies is the total that `fetchCommunityThreads` uses for `isNext` |
| CommunityReads.IsBlank | database/community/community.actions.ts:311 | `searchString.trim() !== ""` is false exactly for strings made only of JavaScript white space and line terminators |
| CommunityReads.MatchesSearch | database/community/community.actions.ts:304-315 | the `$or` of the two case-insensitive regex matches: a community matches only if its username or name is at least as long as the search string, and always matches when one of them equals it up to letter case |
| CommunityReads.SearchMatches | database/community/community.actions.ts:308-316 | the query filter keeps exactly the stored communities that match, or all of them for a blank search string |
| CommunityReads.SearchCommunities | database/community/community.actions.ts:287-341 | fails exactly when the computed skip is negative; a non-zero page size bounds the page by its magnitude |
| CommunityReads.SearchSorted | database/community/community.actions.ts:319-323 | the matches, sorted by `createdAt` in the requested direction, are a permutation of the matches |
| CommunityReads.SearchItemsMatch | database/community/community.actions.ts:308-326 | every item of a search page is a stored community, and for a non-blank search it matches on username or name |
| CommunityReads.SearchItemsOrdered | database/community/community.actions.ts:319-325 | the items of a search page are in `createdAt` order in the requested direction |
| CommunityReads.SearchIsNext | database/community/community.actions.ts:302-334 | `isNext` holds exactly when matching communities remain after the page; `limit(0)` returns every match, with `isNext` false |
| CommunityReads.BlankSearchIsUnfiltered | database/community/community.actions.ts:311-316 | a search string that trims to empty gives the same result as no search string and applies no filter |
| CommunityOps.CreateCommunity | database/community/community.actions.ts:11-54 | a failure leaves the store unchanged; a success appends exactly the returned community and touches no thread or like |
| CommunityOps.CreateCommunityEffect | database/community/community.actions.ts:11-54 | fails with "user not found" exactly when no user has the creator's id, and with a duplicate key exactly when that user exists and `newKey` is already a community's `_id`, and then nothing changes; it succeeds exactly otherwise, and then the new community, created by that user's `_id` and with no members, is appended, and its `_id` is appended to that user's `communities`; nothing else changes |
| CommunityOps.CreateCommunityWellFormed | database/community/community.actions.ts:29-46 | creating a community keeps every unique `_id` index |
| CommunityOps.CreatedCommunityIsUsers | database/community/community.actions.ts:35-46 | after a creation, `getUsersCommunities` of the creator lists the new community |
| CommunityOps.CreateCommunityKeepsAgreement | database/community/community.actions.ts:29-46 | creating a community keeps users' `communities` in agreement with the communities' creators and members |
| CommunityOps.AddMemberToCommunity | database/community/community.actions.ts:343-391 | a failure leaves the store unchanged; a success returns a community that is stored afterwards, adds and removes no document, and touches no thread or like |
| CommunityOps.AddMemberEffect | database/community/community.actions.ts:343-391 | "community not found", then "user not found", then "already a member" fail and change nothing; the call succeeds exactly when the community and the user exist and the user is not yet a member, and then the user's `_id` is appended to `members`, the community's `_id` to the user's `communities`, and the updated community is returned |
| CommunityOps.AddMemberTwiceFails | database/community/community.actions.ts:364-367 | adding the same member a second time fails as "already a member" and changes nothing |
| CommunityOps.AddedMemberSeesCommunity | database/community/community.actions.ts:369-385 | after a successful add, `getUsersCommunities` of the member lists the returned community |
| CommunityOps.AddMemberKeepsAgreement | database/community/community.actions.ts:369-383 | adding a member keeps the two reference lists in agreement |
| CommunityOps.RemoveUserFromCommunity | database/community/community.actions.ts:393-432 | a failure leaves the store unchanged; a success reports `success: true`, adds and removes no document, and touches no thread or like |
| CommunityOps.RemoveUserEffect | database/community/community.actions.ts:393-432 | a missing user or community fails and changes nothing; otherwise both ids leave each other's lists, all other entries keep their multiplicity, the result is success, and nothing else changes |
| CommunityOps.RemoveNonMemberIsNoOp | database/community/community.actions.ts:414-426 | removing a user who is in neither list succeeds and leaves the store as it was |
| CommunityOps.RemoveUserIdempotent | database/community/community.actions.ts:414-426 | a repeated removal changes nothing further and returns what the first call returned |
| CommunityOps.RemoveUserKeepsAgreement | database/community/community.actions.ts:414-424 | removing a member who is not the community's creator keeps the two reference lists in agreement |
| CommunityOps.UpdateCommunityInfo | database/community/community.actions.ts:434-459 | a failure leaves the store unchanged; a success returns a document that was stored before the call, and changes no user, thread or like |
| CommunityOps.UpdateCommunityInfoEffect | database/community/community.actions.ts:434-459 | fails, changing nothing, exactly when no community has the id; otherwise only name, username and image of that community change, and the document from before the update is returned |
| CommunityOps.UpdateCommunityInfoTwice | database/community/community.actions.ts:444-453 | a second identical update changes nothing and returns the updated document |
| CommunityOps.AddMemberWellFormed | database/community/community.actions.ts:369-385 | adding a member keeps every unique `_id` index |
| CommunityOps.RemoveUserWellFormed | database/community/community.actions.ts:415-424 | removing a user keeps every unique `_id` index |
| CommunityOps.UpdateCommunityInfoWellFormed | database/community/community.actions.ts:444-447 | updating a community keeps every unique `_id` index |
| CommunityOps.DeleteCommunity | database/community/community.actions.ts:461-511 | a failure leaves the store unchanged; a success removes exactly one community, the stored one it returns, removes threads only, and changes no user or like |
| CommunityOps.DeleteCommunityEffect | database/community/community.actions.ts:461-511 | all or nothing: with no community of that id, or an id that does not cast, the aborted transaction leaves the store as it was; otherwise the found community is removed and returned, exactly the threads whose community equals the cast id string are removed, and users and likes do not change |
| CommunityOps.DeleteCommunityWellFormed | database/community/community.actions.ts:466-480 | a deletion keeps every unique `_id` index |
| CommunityStore.Store.constructor | database/community/community.actions.ts:5-7 | a store over the given collections, with unique `_id`s |
| CommunityStore.Store.CreateCommunity | database/community/community.actions.ts:19-48 | updates the collections in place to the state `CommunityOps.CreateCommunity` gives, returns what it returns, and keeps the `_id` indexes |
| CommunityStore.Store.AddMemberToCommunity | database/community/community.actions.ts:347-385 | updates the collections in place to the state `CommunityOps.AddMemberToCommunity` gives, returns what it returns, and keeps the `_id` indexes |
| CommunityStore.Store.RemoveUserFromCommunity | database/community/community.actions.ts:397-426 | updates the collections in place to the state `CommunityOps.RemoveUserFromCommunity` gives, returns what it returns, and keeps the `_id` indexes |
| CommunityStore.Store.UpdateCommunityInfo | database/community/community.actions.ts:440-453 | updates the collections in place to the state `CommunityOps.UpdateCommunityInfo` gives, returns what it returns, and keeps the `_id` indexes |
| CommunityStore.Store.DeleteCommunity | database/community/community.actions.ts:461-511 | deletes in place and restores every collection on abort; ends in the state `CommunityOps.DeleteCommunity` gives and keeps the `_id` indexes |
| CommunityStore.Store.DeleteCommunityCorrected | database/community/community.actions.ts:466-500 | pulls the deleted community's `_id` from each user in turn; ends in the state `DeleteFindings.DeleteCommunityCorrected` gives and keeps the `_id` indexes |
| DeleteFindings.DeleteByProviderIdNeverDeletes | database/community/community.actions.ts:468-480 | when the external id is not 24 hexadecimal digits, the deletion always fails with a CastError and the community stays |
| DeleteFindings.ProviderIdExample | database/community/community.actions.ts:468-480 | a concrete store, with community id `org_1`, on which the deletion is refused and nothing changes |
| DeleteFindings.DeleteLeavesThreadsAndReferences | database/community/community.actions.ts:479-498 | after a successful deletion users are untouched, and the deleted community's own threads all survive unless its `_id` happens to spell its external id |
| DeleteFindings.DeleteLeavesDanglingReference | database/community/community.actions.ts:483-498 | a user who listed the deleted community still lists it, although no community has that `_id` any more |
| DeleteFindings.DeleteCommunityCorrected | database/community/community.actions.ts:466-500 | the corrected deletion: a failure leaves the store unchanged; a success removes exactly one community, the stored one it returns, removes threads only, keeps every user at its position with its `_id` and changes no like |
| DeleteFindings.CorrectedDeleteLeavesNoReference | database/community/community.actions.ts:466-500 | the corrected deletion fails, changing nothing, exactly when no community has the id; otherwise it returns that community, and no community, thread or user has or refers to its `_id` any more |
| DeleteFindings.CorrectedDeleteKeepsReferencesValid | database/community/community.actions.ts:466-500 | after the corrected deletion, every community reference of a user or a thread still names a stored community, if that held before |
| DeleteFindings.CorrectedDeleteWellFormed | database/community/community.actions.ts:466-500 | the corrected deletion keeps every unique `_id` index |

## Left out

- `fetchCommunityDetails` (database/community/community.actions.ts:77-96) is not part of this model. It reads one community by `_id` and populates its creator and members.
- `connectToDB` (lib/mongoose.ts) and the database connection are not modelled. The store is an in-memory value.
- The clock and MongoDB's ObjectId generator are parameters. The new community's `_id` (`newKey`) and `createdAt` (`now`) are passed to `createCommunity`.
- The schema files (`community.model`, `user.model`, `thread.model`) are not part of this model:
  - the only index modelled is the unique `_id` index of each collection;
  - schema defaults and required fields are not checked;
  - the community's `createdAt` is taken to be a stored timestamp.
- Regular expressions: `searchCommunities` compiles the search string with `new RegExp(s, "i")`. The model matches it as a literal substring, ignoring ASCII letter case. Metacharacters and invalid patterns, which throw, are not modelled.
- `populate`, `select` and the `$project` stage's string conversions are not modelled:
  - `getUsersCommunities` returns whole community documents rather than `_id`, `name` and `image`;
  - `searchCommunities` does not populate `members`;
  - `fetchCommunityThreads` views keep ids as ObjectIds.
- Error messages and logging are not modelled. Failures carry an error kind. `createCommunity` and `getUsersCommunities` rethrow a generic message; the model reports the cause instead.
- 12-character ObjectId strings (12 raw bytes), which Mongoose also casts, are not modelled. Only 24-digit hexadecimal strings cast.
- Concurrency is not modelled:
  - each action runs alone on one snapshot;
  - the count and the page of a paginated read see the same data;
  - the two separate writes of `createCommunity`, `addMemberToCommunity` and `removeUserFromCommunity` are one step, so a failure between them cannot leave one side written.
- `deleteCommunity`'s transaction and session are modelled as all-or-nothing. The updates that are built but never awaited are modelled as never executed.
- Seqs.Filter: the model returns the matches in stored order and states only membership (and, in `Seqs.FilterMultiplicity`, multiplicity), because MongoDB promises no order for a `find` without a sort.
- Paging.SortNewestFirst: the model fixes one order among documents with equal `createdAt` (their stored order). MongoDB's `$sort` (database/community/community.actions.ts:227) and `.sort()` (:323) leave the order of equal keys unspecified, so two page queries may order ties differently, and real pages can then overlap or miss a document at a tie. `Paging.PagesTile`, `Paging.ItemOnItsPage` and `CommunityReads.FetchCommunityThreadsOrder` hold for that one fixed order.
- `pageNumber` and `pageSize` are JavaScript numbers. The model takes them as integers: fractions, `NaN`, infinities and precision loss are not modelled.
- `searchCommunities` has default arguments (database/community/community.actions.ts:288-291: `""`, `1`, `20`, `"desc"`). The model passes every argument explicitly.
- CommunityOps.RemoveUserKeepsAgreement: only for a member who is not the creator, because the creator's reference to a community is recorded in `createdBy`, which the removal cannot change.
- Client components and `thread.validation.ts` are callers and input checks outside the data layer, and are not modelled.

## Findings

| source | as written | input that shows it | evidently intended | confidence | as-written member | corrected member |
|---|---|---|---|---|---|---|
| database/community/community.actions.ts:480 | threads are deleted by `community: communityId`, the external id, which is cast to an ObjectId | a community whose external id is `org_1`: the cast fails, the transaction aborts and the community is never deleted; a 24-digit external id deletes the threads of whichever community has that `_id`, not this one's | delete the threads whose `community` is the deleted document's `_id` | high (not executed) | DeleteFindings.DeleteByProviderIdNeverDeletes, DeleteFindings.ProviderIdExample, DeleteFindings.DeleteLeavesThreadsAndReferences | DeleteFindings.CorrectedDeleteLeavesNoReference |
| database/community/community.actions.ts:483-498 | users are found with the external id, and the `map` callback has a block body without `return`, so each `findByIdAndUpdate` query is built but never executed | any successful deletion of a community that a user lists: the user keeps the deleted `_id` in `communities` | pull the deleted community's `_id` from every user's `communities` | high (not executed) | DeleteFindings.DeleteLeavesDanglingReference | CommunityStore.Store.DeleteCommunityCorrected |
