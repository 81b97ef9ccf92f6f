# Friendship relations of the `Friendable` trait, in Dafny

This project models the `Friendable` trait of the Laravel friendship package
and the `Status` class of that package. The trait lets any model send, answer,
block and remove friendship requests.

Every request is one row of the friendships table. A row stores a polymorphic
sender, a polymorphic recipient and an integer status: Pending 0, Accepted 1,
Denied 2 or Blocked 3.

The table is modelled as a sequence of `Friend` rows, in the datastore's
natural order. Each trait method becomes a pure function of that sequence:
- The entity the trait is mixed into (`$this`) is an explicit parameter `me`.
- The model passed to a method is `other`.
- A mutating method returns a `Step`: the new table, plus the value the PHP
  method returns. `None` stands for a bare `return;`.

Modules:
- `Status` holds the four codes.
- `Php` holds the `empty()` test, which decides every optional argument.
- `Seqs` holds generic sequence tools: order-preserving filter, map and an
  offset/limit window.
- `Friendable` holds the trait: the row predicates, the queries and the
  mutations.
- `PairLaws` holds laws of the pair lookups and of the mutations.
- `Listings` holds laws of `findFriendshipsByStatus` and its five public
  wrappers.
- `Scenarios` holds request-then-answer walks.
- `Findings` holds the two discrepancies reported below, with their
  corrected definitions.

Two store invariants recur throughout:
- `UniquePairs`: at most one row per unordered pair. `befriend` aims to keep
  this, and every mutation is proved to keep it.
- `SameKind(s, me)`: every row that involves `me` links two entities of
  `me`'s class. It is the condition under which `$this->find($id)` resolves
  the party across the row.

## Model

| member | source | states |
|---|---|---|
| Status.CodesAreDistinct | src/Status.php:19-22 | The four codes are 0, 1, 2 and 3 and pairwise distinct. A code is valid exactly when it lies in 0..3. |
| Status.OnlyPendingIsEmpty | src/Status.php:19-22 | Of the four codes only Pending counts as PHP-empty, so only Pending is dropped by a `!empty` guard. |
| Friendable.Friends | src/Traits/Friendable.php:14-17 | `friends()` holds exactly the rows `me` sent. |
| Friendable.FindFriendship | src/Traits/Friendable.php:236-251 | The lookup holds exactly the rows linking `me` and `other`, in either direction. |
| Friendable.IsFriendsWith | src/Traits/Friendable.php:59-68 | `isFriendsWith` is positive exactly when `me` sent `other` a row of any status, or `other` sent `me` a row whose status passes the filter. The filter is skipped for a null or 0 argument, and then the count is the pair's row count. |
| Friendable.GetFriendship | src/Traits/Friendable.php:131-134 | The result is absent exactly when no row links the two. Otherwise it is the earliest such row. |
| Friendable.HasBlocked | src/Traits/Friendable.php:196-199 | When the pair has a row, the result is true exactly when the earliest row of the pair is Blocked. |
| Friendable.IsBlockedBy | src/Traits/Friendable.php:206-217 | True exactly when the earliest row sent by `me` to `other` is Blocked. False when `me` sent none. |
| Friendable.GetFriendRequests | src/Traits/Friendable.php:222-229 | The result holds exactly the Pending rows addressed to `me`. |
| Friendable.Matched | src/Traits/Friendable.php:264-278 | The query holds exactly the rows `me` sends or receives that pass the filter. |
| Friendable.Listing | src/Traits/Friendable.php:280-292 | The listing has min(limit, rows after the offset) entries. An empty limit or offset is ignored. |
| Friendable.FindFriendshipsByStatus | src/Traits/Friendable.php:260-295 | The listing is never longer than the table. With status Pending it equals the unfiltered listing. |
| Friendable.Befriend | src/Traits/Friendable.php:24-39 | Any existing row of the pair makes `befriend` a no-op that returns nothing. Otherwise it appends a Pending row from `me` to `other` and returns that row. Valid status codes are kept. |
| Friendable.Unfriend | src/Traits/Friendable.php:44-51 | The rows kept are exactly the rows not linking the two. It returns nothing when there was no row; otherwise it returns the positive number of rows deleted. |
| Friendable.Transition | src/Traits/Friendable.php:73-124 | Every row of the pair takes the new code and every other row is unchanged. Senders, recipients and length are unchanged. It returns nothing when there was no row, else the number of rows updated. |
| Friendable.AcceptFriendRequest | src/Traits/Friendable.php:73-82 | Every row of the pair becomes Accepted, whatever its prior status. Every other row is unchanged. |
| Friendable.DenyFriendRequest | src/Traits/Friendable.php:87-96 | Every row of the pair becomes Denied. Every other row is unchanged. |
| Friendable.BlockFriendRequest | src/Traits/Friendable.php:101-110 | Every row of the pair becomes Blocked. Every other row is unchanged. |
| Friendable.UnblockFriendRequest | src/Traits/Friendable.php:115-124 | Every row of the pair goes back to Pending. Every other row is unchanged. |
| PairLaws.PairLookupsSymmetric | src/Traits/Friendable.php:236-251 | `findFriendship` and `getFriendship` give the same answer for (a, b) and (b, a). So does `isFriendsWith` when its status argument is null or 0. |
| PairLaws.IsFriendsWithSplits | src/Traits/Friendable.php:59-68 | `isFriendsWith` counts every row `me` sent `other` plus the rows `other` sent `me` that pass the filter. A row from `me` to itself is counted once. |
| PairLaws.OwnRowCountsForAnyStatus | src/Traits/Friendable.php:61-64 | Any row `me` sent `other` makes `isFriendsWith(other, $status)` positive, whatever `$status` and the row's status are. |
| PairLaws.HasBlockedSymmetric | src/Traits/Friendable.php:196-199 | `hasBlocked` is symmetric in its two parties. |
| PairLaws.IsBlockedByIsDirectional | src/Traits/Friendable.php:206-217 | One Blocked row from a to b makes a blocked by b, but not b blocked by a. `hasBlocked` still sees it from b's side. |
| PairLaws.PendingFilterIsSkipped | src/Traits/Friendable.php:63-65 | `isFriendsWith(b, PENDING)` equals `isFriendsWith(b)`. |
| PairLaws.NonZeroFilterOnIncomingRows | src/Traits/Friendable.php:61-67 | For a non-zero code, `isFriendsWith(b, code)` is positive exactly when a sent b any row, or b sent a a row of that code. |
| PairLaws.UniqueLookup | src/Traits/Friendable.php:131-134 | With one row per pair, the lookup finds only that row and `getFriendship` returns it. |
| PairLaws.UniquePairsIffSingleRows | src/Traits/Friendable.php:236-251 | The one-row-per-pair invariant holds exactly when no pair's lookup finds two rows. |
| PairLaws.BefriendPreservesUniquePairs | src/Traits/Friendable.php:24-39 | `befriend` keeps one row per pair. |
| PairLaws.FreshRowLookup | src/Traits/Friendable.php:30-38 | A row saved for a pair that had none becomes the pair's only row. `getFriendship` returns it from both sides. |
| PairLaws.BefriendFreshPair | src/Traits/Friendable.php:30-38 | A fresh `befriend` makes the new Pending row the pair's only row, seen from both sides. |
| PairLaws.BefriendEstablishesPair | src/Traits/Friendable.php:24-39 | After `befriend` both sides' `isFriendsWith` are positive. |
| PairLaws.BefriendTwiceIsNoop | src/Traits/Friendable.php:26-28 | A second `befriend` of the same pair, from either side, changes nothing and returns nothing. |
| PairLaws.GetFriendRequestsInStoreOrder | src/Traits/Friendable.php:222-229 | `getFriendRequests` keeps store order: over a concatenation it lists the first part's requests, then the second's. A single row is listed exactly when it is a Pending request to `me`. Together these determine the result for every store. |
| PairLaws.FriendsInStoreOrder | src/Traits/Friendable.php:14-17 | `friends()` keeps store order in the same sense. A single row is listed exactly when `me` sent it. |
| PairLaws.FindFriendshipInStoreOrder | src/Traits/Friendable.php:236-251 | `findFriendship` keeps store order in the same sense. A single row is listed exactly when it links the two parties, in either direction. |
| PairLaws.BefriendAddsToFriends | src/Traits/Friendable.php:30-36 | A fresh `befriend` appends the new row to the sender's `friends()`. |
| PairLaws.BefriendAddsRequest | src/Traits/Friendable.php:30-36 | A fresh `befriend` appends its row to the recipient's `getFriendRequests` and to no one else's. |
| PairLaws.UnfriendRemovesPair | src/Traits/Friendable.php:44-51 | After `unfriend` neither side is friends with the other, and `getFriendship` finds nothing. |
| PairLaws.UnfriendFrame | src/Traits/Friendable.php:50 | `unfriend` leaves every other pair's rows, in order, as they were. |
| PairLaws.UnfriendKeepsOthers | src/Traits/Friendable.php:44-51 | Whether or not the guard fires, the table after `unfriend` is the original minus the pair's rows, in order. |
| PairLaws.UnfriendKeepsOrder | src/Traits/Friendable.php:50 | `unfriend` over a concatenation of tables is the concatenation of `unfriend` over each. |
| PairLaws.UnfriendPreservesUniquePairs | src/Traits/Friendable.php:44-51 | `unfriend` keeps one row per pair. |
| PairLaws.TransitionSetsPair | src/Traits/Friendable.php:79-81 | A transition keeps the pair's row count and gives every pair row the new code. |
| PairLaws.TransitionCountsAsTarget | src/Traits/Friendable.php:79-81 | After a transition to any code, `isFriendsWith(b, code)` equals the pair's former row count: a non-zero code is on every pair row, and code 0 skips the status filter. |
| PairLaws.TransitionClearsRequests | src/Traits/Friendable.php:73-82 | After a transition to a non-Pending code, `me` has no pending request from `other`. |
| PairLaws.TransitionFrame | src/Traits/Friendable.php:79-81 | A transition leaves every other pair's rows as they were. |
| PairLaws.TransitionPreservesUniquePairs | src/Traits/Friendable.php:73-124 | The four transitions keep one row per pair. |
| PairLaws.DirectedWithinPair | src/Traits/Friendable.php:208-214 | The rows `isBlockedBy` queries are the pair's rows that `me` sent. |
| PairLaws.HasBlockedIsEitherDirection | src/Traits/Friendable.php:196-217 | With one row per pair, `hasBlocked(b)` holds exactly when a is blocked by b or b is blocked by a. |
| Listings.ListingSlice | src/Traits/Friendable.php:280-286 | A positive limit with an in-range offset cuts exactly the slice [offset, offset + limit) out of the unpaged listing. |
| Listings.PageOfFullListing | src/Traits/Friendable.php:260-295 | The same slice law holds for `findFriendshipsByStatus`. |
| Listings.SecondAndThirdEntries | src/Traits/Friendable.php:142-145 | `getAllFriendships(2, 1)` is the second and third entries of `getAllFriendships()`. |
| Listings.PendingListsEverything | src/Traits/Friendable.php:142-156 | `getPendingFriendships` lists what `getAllFriendships` lists. This also holds across their different default offsets, 0 and null. |
| Listings.ZeroLimitIsNoLimit | src/Traits/Friendable.php:280-282 | A limit of 0 lists the same as no limit. |
| Listings.MatchedRowsDisjoint | src/Traits/Friendable.php:264-278 | Before the re-fetch, the rows selected by two different non-zero codes are disjoint. |
| Listings.CounterpartIsOtherParty | src/Traits/Friendable.php:289-291 | Under `SameKind`, the entity `find` resolves for a row is the party across that row. |
| Listings.PageSource | src/Traits/Friendable.php:280-292 | Every entry of a page comes from a table row that involves `me` and passes the filter. |
| Listings.RefetchRow | src/Traits/Friendable.php:289-291 | Under `SameKind`, re-fetching a row finds a row involving `me`. With one row per pair, it finds that very row. |
| Listings.ListingResolves | src/Traits/Friendable.php:288-292 | Under `SameKind`, every entry of a listing is a row and involves `me`. |
| Listings.ListingIsMatchedPage | src/Traits/Friendable.php:288-292 | With one row per pair as well, the listing is exactly the matched page. |
| Listings.MatchedPageRow | src/Traits/Friendable.php:264-286 | Every row of a page of the query involves `me` and passes the filter. |
| Listings.ListingCarriesItsFilter | src/Traits/Friendable.php:260-295 | Under both invariants, every entry of a listing filtered by a code has that code and involves `me`. |
| Listings.StatusListingCarriesItsCode | src/Traits/Friendable.php:164-189 | Under both invariants, every entry of the Accepted, Denied or Blocked listing carries that status. |
| Listings.StatusListingsDisjoint | src/Traits/Friendable.php:164-189 | Under both invariants, the Accepted, Denied and Blocked listings share no entry. |
| Listings.SingleMatchListing | src/Traits/Friendable.php:288-292 | When a single row matches, the unpaged listing is that row's re-fetch. |
| Listings.DuplicatePairBreaksDisjointness | src/Traits/Friendable.php:289-291 | Without one row per pair the disjointness fails. With an Accepted and a Denied row for one pair, the Denied listing returns the Accepted row. |
| Scenarios.RequestIsOnlyPairRow | src/Traits/Friendable.php:24-39 | A request between strangers is appended as the pair's only row. |
| Scenarios.BefriendBothWaysOneRow | src/Traits/Friendable.php:26-28 | Befriending from both sides leaves exactly one row for the pair. |
| Scenarios.AnsweredRequest | src/Traits/Friendable.php:73-124 | When b answers a's fresh request, the table is the old one plus a's row, carrying b's answer. |
| Scenarios.AnsweredRequestIsThePairRow | src/Traits/Friendable.php:131-134 | After the answer, both sides' `getFriendship` return the answered row. |
| Scenarios.BefriendThenAccept | src/Traits/Friendable.php:73-82 | After b accepts, the pair's row is Accepted and b has no pending request from a. |
| Scenarios.BefriendThenUnfriend | src/Traits/Friendable.php:44-51 | After a request and an `unfriend` from either side, no row links the two. |
| Scenarios.BefriendThenBlock | src/Traits/Friendable.php:101-110 | After b blocks a's request, a is blocked by b and b has blocked a. |
| Findings.IsFriendsWithIntended | src/Traits/Friendable.php:59-68 | It corrects both the guard and the grouping: the status condition applies to every row between the two, and only null means "any status". The count is positive exactly when a row of the pair has the asked-for status, Pending included. |
| Findings.IntendedCountIsSymmetric | src/Traits/Friendable.php:59-68 | The corrected count is symmetric for every status. It equals the as-written count when no status is asked for. |
| Findings.StatusFilterSkipsOwnRows | src/Traits/Friendable.php:61-64 | As written, one Denied row from user 1 to user 2, asked for Accepted, counts 1 for user 1 and 0 for user 2. The corrected count is 0 from both sides. |
| Findings.FindFriendshipsByStatusIntended | src/Traits/Friendable.php:260-295 | With only null meaning "any status", every entry has the asked-for status, Pending included, under both invariants. |
| Findings.IntendedListingsPartition | src/Traits/Friendable.php:268-277 | Under both invariants (one row per pair, and every row's parties of `me`'s kind), the listings of any two different codes under the intended filter share no entry. |
| Findings.PendingFilterDropped | src/Traits/Friendable.php:63 | On a store that meets every invariant, a single Accepted row is listed under both Pending and Accepted. It is also counted as Pending from both sides, including the recipient's side, where only the `empty(0)` guard explains the count. The corrected definitions count and list nothing. |

## Left out

- A `Ref`'s `kind` stands both for the `sender_type` that `friends()->save()` writes, which is `getMorphClass()`, and for the `get_class` the queries compare. The model assumes the two agree, as they do without a morph map. With a morph map the `befriend` guard would miss rows `me` sent, and a repeated `befriend` would add a second row for the pair.
- Eloquent and the database are not modelled: query building, row ids, timestamps and `save` or `delete` failures. The table is a sequence in its natural order. The model assumes every query returns its matching rows in one fixed order, the table's insertion order, and `first()`, `take` and `skip` follow it. The queries have no `orderBy`, and SQL guarantees no row order without `ORDER BY`, so on a real database `first()` over several rows of one pair (`getFriendship`, `isBlockedBy`, the re-fetch in `findFriendshipsByStatus`), and pages taken by separate calls, may differ from what the model states.
- `$this->find($id)` is modelled as the reference `Ref(me.kind, id)`. It never fails to resolve. Whether it resolves the party across the row depends on `SameKind`, which the `Listings` lemmas require.
- Friendable.HasBlocked: requires a row of the pair to exist. Reading `->status` of a missing row is a PHP warning on null, which Laravel raises as an exception; that error path is not modelled.
- PHP loose comparison (`==` on ids) and type juggling of the status argument are not modelled. Ids are `nat` and status arguments are integers. Strict `===` against `Status::BLOCKED` therefore holds exactly for the integer 3.
- Friendable.HasBlocked, Friendable.IsBlockedBy: assume the stored `status` reads back as a PHP integer, through an attribute cast or a driver that returns native integer types. A driver that returns integer columns as strings would make both `=== Status::BLOCKED` comparisons false, so neither method could return true. pdo_sqlite before PHP 8.1 is such a driver.
- Negative `$limit` or `$offset` and non-integer paging arguments are not modelled; both are `nat`. An offset without a limit is modelled as "skip the first rows". The query builder emits `offset N` with no `limit` there, which MySQL and SQLite reject as a query error, so on those databases `getAllFriendships(null, 5)` raises instead. That error path is not modelled.
- Friendable.Transition: returns the number of rows the update matched. A driver that reports only rows whose values changed could report fewer; the `updated_at` touch that makes every matched row change is not modelled.
- Concurrency is not modelled: two `befriend` calls racing past the `isFriendsWith` guard could create a second row.
- `GetAllFriendships`, `GetPendingFriendships`, `GetAcceptedFriendships`, `GetDeniedFriendships` and `GetBlockedFriendships` carry no contracts of their own. They pass one constant to `findFriendshipsByStatus`; their properties are the `Listings` lemmas.
- src/Contracts/Friendable.php (the interface) and src/FriendshipServiceProvider.php (package registration) hold no logic and are not part of this model.
- The `Friend` Eloquent model class is not part of this model beyond its three attributes.

## Findings

| source | as written | input that shows it | evidently intended | confidence | as-written member | corrected member |
|---|---|---|---|---|---|---|
| src/Traits/Friendable.php:268-277 | `findFriendshipsByStatus` filters by status only when `!empty($status)`. `Status::PENDING` is 0, which is empty, so `getPendingFriendships` lists every relationship. | One Accepted row from user 1 to user 2. User 1's `getPendingFriendships()` and `getAcceptedFriendships()` both return that row. | Only null means "any status", so the Pending listing holds Pending rows only. | high, not executed | Findings.PendingFilterDropped | Findings.FindFriendshipsByStatusIntended |
| src/Traits/Friendable.php:63 | `isFriendsWith($r, $status)` filters only when `!empty($status)`, so asking for `Status::PENDING` counts rows of every status. | The same store: user 2's `isFriendsWith(user1, Status::PENDING)` is 1 although no row is Pending. | Only null means "any status". The corrected member also regroups the where clauses; see the next row. | high, not executed | Findings.PendingFilterDropped | Findings.IsFriendsWithIntended |
| src/Traits/Friendable.php:61-64 | `isFriendsWith` appends its status `where` to `findFriendship`'s `where(A)->orWhere(B)`. The query is `(A) or (B) and status = ?`, and AND binds first, so only rows the recipient sent are filtered. | One Denied row from user 1 to user 2. User 1's `isFriendsWith(user2, Status::ACCEPTED)` is 1, and user 2's `isFriendsWith(user1, Status::ACCEPTED)` is 0. | The status condition applies to every row between the two, so the count is symmetric. | high, not executed | Findings.StatusFilterSkipsOwnRows | Findings.IsFriendsWithIntended |

The trait functions in `Friendable` keep the behaviour as written, since that
is what the package does. The corrected definitions sit beside them in `Findings`, together with
`Findings.IntendedListingsPartition` and `Findings.IntendedCountIsSymmetric`.
