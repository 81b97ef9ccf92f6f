/** The friendship store behind the `Friendable` trait.

    The table of `Friend` rows is a sequence in the datastore's natural
    order. Every trait method becomes a pure function of that sequence; the
    entity the trait is mixed into (`$this`) is the explicit parameter `me`,
    and the model it is handed is `other`. A mutating method returns the new
    table together with what the PHP method returns. */
module Friendable {
  import opened Wrappers
  import opened Seqs
  import Status
  import Php

  /** A polymorphic reference: the class name `get_class` reports and the
      entity's key. */
  datatype Ref = Ref(kind: string, id: nat)

  /** One row of the friendships table; the row id and timestamps are left to
      the datastore. */
  datatype Friend = Friend(sender: Ref, recipient: Ref, status: int)

  type Store = seq<Friend>

  /** The table after a mutating method, and that method's return value
      (`None` for PHP's bare `return;`). */
  datatype Step<R> = Step(store: Store, returned: Option<R>)

  // ---------------------------------------------------------------------
  // Row predicates (the `where` closures)
  // ---------------------------------------------------------------------

  /** The row links `a` and `b`, in either direction. */
  predicate Between(f: Friend, a: Ref, b: Ref) {
    (f.sender == a && f.recipient == b) || (f.sender == b && f.recipient == a)
  }

  function PairWith(a: Ref, b: Ref): Friend -> bool {
    f => Between(f, a, b)
  }

  function NotPairWith(a: Ref, b: Ref): Friend -> bool {
    f => !Between(f, a, b)
  }

  /** The row was sent by `a` to `b`. */
  function Directed(a: Ref, b: Ref): Friend -> bool {
    (f: Friend) => f.sender == a && f.recipient == b
  }

  /** A status filter as it reaches the query: `None` adds no condition. */
  predicate HasStatus(f: Friend, filter: Option<int>) {
    filter.None? || f.status == filter.value
  }

  function WithStatus(filter: Option<int>): Friend -> bool {
    f => HasStatus(f, filter)
  }

  /** The filter the trait actually applies for a `$status` argument: it is
      guarded by `!empty($status)`, so `null` and `0` (Pending) add none. */
  function Effective(status: Option<int>): (r: Option<int>)
    ensures r.None? <==> status.None? || status.value == Status.Pending
    ensures r.Some? ==> r == status
  {
    if Php.Empty(status) then None else status
  }

  /** The two `orWhere` branches of `findFriendshipsByStatus`: `me` is the
      sender, or `me` is the recipient, each with the status filter. */
  predicate Involves(f: Friend, me: Ref, filter: Option<int>) {
    (f.sender == me && HasStatus(f, filter)) || (f.recipient == me && HasStatus(f, filter))
  }

  function InvolvingWith(me: Ref, filter: Option<int>): Friend -> bool {
    f => Involves(f, me, filter)
  }

  function SentBy(me: Ref): Friend -> bool {
    (f: Friend) => f.sender == me
  }

  function RequestTo(me: Ref): Friend -> bool {
    (f: Friend) => f.recipient == me && f.status == Status.Pending
  }

  // ---------------------------------------------------------------------
  // Store invariants
  // ---------------------------------------------------------------------

  /** At most one row per unordered pair of entities. */
  predicate UniquePairs(s: Store) {
    forall i, j :: 0 <= i < j < |s| ==> !Between(s[j], s[i].sender, s[i].recipient)
  }

  /** Every row carries one of the four status codes. */
  predicate ValidStatuses(s: Store) {
    forall i :: 0 <= i < |s| ==> Status.IsStatus(s[i].status)
  }

  /** Every row `me` takes part in links two entities of `me`'s class; this
      is what `$this->find(...)` needs to resolve the other party. */
  predicate SameKind(s: Store, me: Ref) {
    forall i :: 0 <= i < |s| && (s[i].sender == me || s[i].recipient == me) ==>
      s[i].sender.kind == me.kind && s[i].recipient.kind == me.kind
  }

  // ---------------------------------------------------------------------
  // Queries
  // ---------------------------------------------------------------------

  /** `friends()`: the rows `me` has sent. */
  function Friends(s: Store, me: Ref): (r: seq<Friend>)
    ensures forall i :: 0 <= i < |r| ==> r[i] in s && r[i].sender == me
    ensures forall i :: 0 <= i < |s| && s[i].sender == me ==> s[i] in r
  {
    Filter(s, SentBy(me))
  }

  /** `findFriendship`: the rows between `me` and `other`, in either
      direction, in store order. */
  function FindFriendship(s: Store, me: Ref, other: Ref): (r: seq<Friend>)
    ensures forall i :: 0 <= i < |r| ==> r[i] in s && Between(r[i], me, other)
    ensures forall i :: 0 <= i < |s| && Between(s[i], me, other) ==> s[i] in r
  {
    Filter(s, PairWith(me, other))
  }

  /** The rows `isFriendsWith` counts. It adds its status `where` after
      `findFriendship`'s `where(A)->orWhere(B)`, which the query builder emits
      as `(A) or (B) and status = ?`. AND binds tighter than OR, so the status
      condition reaches only the rows `other` sent to `me`; every row `me`
      sent to `other` counts whatever its status. */
  function CountedWith(me: Ref, other: Ref, filter: Option<int>): Friend -> bool {
    (f: Friend) => (f.sender == me && f.recipient == other) ||
                   (f.sender == other && f.recipient == me && HasStatus(f, filter))
  }

  /** `isFriendsWith`: the number of rows that query selects, the status
      condition being skipped when `status` is `null` or `0`. */
  function IsFriendsWith(s: Store, me: Ref, other: Ref, status: Option<int>): (n: nat)
    ensures n <= |s|
    ensures Php.Empty(status) ==> n == |FindFriendship(s, me, other)|
    ensures n > 0 <==>
              exists i :: 0 <= i < |s| &&
                ((s[i].sender == me && s[i].recipient == other) ||
                 (s[i].sender == other && s[i].recipient == me && (Php.Empty(status) || s[i].status == status.value)))
  {
    var r := Filter(s, CountedWith(me, other, Effective(status)));
    assert |r| > 0 ==> r[0] in s;
    assert Php.Empty(status) ==> |r| == |FindFriendship(s, me, other)| by {
      FilterExt(s, CountedWith(me, other, None), PairWith(me, other));
    }
    |r|
  }

  /** `getFriendship`: the first row between `me` and `other`, if any. */
  function GetFriendship(s: Store, me: Ref, other: Ref): (r: Option<Friend>)
    ensures r.None? <==> forall i :: 0 <= i < |s| ==> !Between(s[i], me, other)
    ensures r.Some? ==> exists i :: 0 <= i < |s| && s[i] == r.value && Between(s[i], me, other) &&
                                    forall j :: 0 <= j < i ==> !Between(s[j], me, other)
  {
    var found := FindFriendship(s, me, other);
    if |found| == 0 then None
    else
      FilterHead(s, PairWith(me, other));
      Some(found[0])
  }

  /** `hasBlocked`: whether the first row between the two is Blocked. Reading
      `->status` of a missing row raises, so a row must exist. */
  function HasBlocked(s: Store, me: Ref, other: Ref): (b: bool)
    requires exists i :: 0 <= i < |s| && Between(s[i], me, other)
    ensures b <==> exists i :: 0 <= i < |s| && Between(s[i], me, other) && s[i].status == Status.Blocked &&
                              forall j :: 0 <= j < i ==> !Between(s[j], me, other)
  {
    GetFriendship(s, me, other).value.status == Status.Blocked
  }

  /** `isBlockedBy`: whether the first row sent by `me` to `other` is
      Blocked; false when `me` sent no row to `other`. */
  function IsBlockedBy(s: Store, me: Ref, other: Ref): (b: bool)
    ensures b <==> exists i :: 0 <= i < |s| && s[i].sender == me && s[i].recipient == other &&
                              s[i].status == Status.Blocked &&
                              forall j :: 0 <= j < i ==> !(s[j].sender == me && s[j].recipient == other)
  {
    var found := Filter(s, Directed(me, other));
    if |found| == 0 then false
    else
      FilterHead(s, Directed(me, other));
      found[0].status == Status.Blocked
  }

  /** `getFriendRequests`: the Pending rows addressed to `me`, in store order.
      The Pending condition is a plain `where`, not behind an `empty` guard. */
  function GetFriendRequests(s: Store, me: Ref): (r: seq<Friend>)
    ensures forall i :: 0 <= i < |r| ==> r[i] in s && r[i].recipient == me && r[i].status == Status.Pending
    ensures forall i :: 0 <= i < |s| && s[i].recipient == me && s[i].status == Status.Pending ==> s[i] in r
  {
    Filter(s, RequestTo(me))
  }

  /** The entity `$this->find(...)` resolves for a row: the key of the party
      whose `sender_id` differs from `me`'s key (or the recipient), looked up
      in `me`'s class. */
  function Counterpart(f: Friend, me: Ref): Ref {
    Ref(me.kind, if f.sender.id == me.id then f.recipient.id else f.sender.id)
  }

  /** The loop body of `findFriendshipsByStatus`: `getFriendship` of the
      entity `find` resolves for the row. */
  function Refetch(s: Store, me: Ref): Friend -> Option<Friend> {
    f => GetFriendship(s, me, Counterpart(f, me))
  }

  /** The rows `me` sends or receives that pass `filter`, in store order. */
  function Matched(s: Store, me: Ref, filter: Option<int>): (r: seq<Friend>)
    ensures forall i :: 0 <= i < |r| ==>
              r[i] in s && (r[i].sender == me || r[i].recipient == me) && HasStatus(r[i], filter)
    ensures forall i :: 0 <= i < |s| && (s[i].sender == me || s[i].recipient == me) && HasStatus(s[i], filter) ==>
              s[i] in r
  {
    Filter(s, InvolvingWith(me, filter))
  }

  /** The rows skipped by `skip($offset)`: none when `$offset` is empty. */
  function Skip(offset: Option<nat>): nat {
    if Php.Empty(offset) then 0 else offset.value
  }

  /** The rows taken by `take($limit)`: all when `$limit` is empty. */
  function Take(limit: Option<nat>): Option<nat> {
    if Php.Empty(limit) then None else limit
  }

  /** The query of `findFriendshipsByStatus` with the filter already decided,
      paged, and each row re-fetched through `getFriendship` with the
      resolved other party. */
  function Listing(s: Store, me: Ref, filter: Option<int>, limit: Option<nat>, offset: Option<nat>): (r: seq<Option<Friend>>)
    ensures var n := |Matched(s, me, filter)|;
            var rest := if Skip(offset) <= n then n - Skip(offset) else 0;
            |r| == (if limit.Some? && 0 < limit.value < rest then limit.value else rest)
  {
    Map(Window(Matched(s, me, filter), Skip(offset), Take(limit)), Refetch(s, me))
  }

  /** `findFriendshipsByStatus`, with its `!empty($status)` guard. */
  function FindFriendshipsByStatus(s: Store, me: Ref, status: Option<int>, limit: Option<nat>, offset: Option<nat>): (r: seq<Option<Friend>>)
    ensures |r| <= |s|
    ensures status == Some(Status.Pending) ==> r == Listing(s, me, None, limit, offset)
  {
    Listing(s, me, Effective(status), limit, offset)
  }

  function GetAllFriendships(s: Store, me: Ref, limit: Option<nat>, offset: Option<nat>): seq<Option<Friend>> {
    FindFriendshipsByStatus(s, me, None, limit, offset)
  }

  function GetPendingFriendships(s: Store, me: Ref, limit: Option<nat>, offset: Option<nat>): seq<Option<Friend>> {
    FindFriendshipsByStatus(s, me, Some(Status.Pending), limit, offset)
  }

  function GetAcceptedFriendships(s: Store, me: Ref, limit: Option<nat>, offset: Option<nat>): seq<Option<Friend>> {
    FindFriendshipsByStatus(s, me, Some(Status.Accepted), limit, offset)
  }

  function GetDeniedFriendships(s: Store, me: Ref, limit: Option<nat>, offset: Option<nat>): seq<Option<Friend>> {
    FindFriendshipsByStatus(s, me, Some(Status.Denied), limit, offset)
  }

  function GetBlockedFriendships(s: Store, me: Ref, limit: Option<nat>, offset: Option<nat>): seq<Option<Friend>> {
    FindFriendshipsByStatus(s, me, Some(Status.Blocked), limit, offset)
  }

  // ---------------------------------------------------------------------
  // Mutations
  // ---------------------------------------------------------------------

  /** `befriend`: a no-op returning nothing when any row links the two;
      otherwise appends a Pending row from `me` to `other` and returns it. */
  function Befriend(s: Store, me: Ref, other: Ref): (r: Step<Friend>)
    ensures (exists i :: 0 <= i < |s| && Between(s[i], me, other)) ==> r == Step(s, None)
    ensures (forall i :: 0 <= i < |s| ==> !Between(s[i], me, other)) ==>
              r.store == s + [Friend(me, other, Status.Pending)] &&
              r.returned == Some(Friend(me, other, Status.Pending))
    ensures ValidStatuses(s) ==> ValidStatuses(r.store)
  {
    if IsFriendsWith(s, me, other, None) > 0 then Step(s, None)
    else
      var created := Friend(me, other, Status.Pending);
      Step(s + [created], Some(created))
  }

  /** `unfriend`: deletes every row between the two and returns the number
      deleted; a no-op returning nothing when there is none. */
  function Unfriend(s: Store, me: Ref, other: Ref): (r: Step<nat>)
    ensures forall i :: 0 <= i < |r.store| ==> r.store[i] in s && !Between(r.store[i], me, other)
    ensures forall i :: 0 <= i < |s| && !Between(s[i], me, other) ==> s[i] in r.store
    ensures r.returned.None? <==> forall i :: 0 <= i < |s| ==> !Between(s[i], me, other)
    ensures r.returned.Some? ==> r.returned.value == |s| - |r.store| > 0
    ensures ValidStatuses(s) ==> ValidStatuses(r.store)
  {
    var n := IsFriendsWith(s, me, other, None);
    if n == 0 then Step(s, None)
    else
      FilterAll(FindFriendship(s, me, other), WithStatus(None));
      FilterSplit(s, PairWith(me, other), NotPairWith(me, other));
      Step(Filter(s, NotPairWith(me, other)), Some(n))
  }

  /** Every row between the two with its status replaced by `code`. */
  function Relabel(s: Store, me: Ref, other: Ref, code: int): (r: Store)
    ensures |r| == |s|
    ensures forall i :: 0 <= i < |s| ==> r[i].sender == s[i].sender && r[i].recipient == s[i].recipient
  {
    seq(|s|, i requires 0 <= i < |s| => if Between(s[i], me, other) then s[i].(status := code) else s[i])
  }

  /** The shared shape of the four status transitions: a guarded
      `update(['status' => code])` over every row between the two, which
      returns the number of rows updated. */
  function Transition(s: Store, me: Ref, other: Ref, code: int): (r: Step<nat>)
    ensures |r.store| == |s|
    ensures forall i :: 0 <= i < |s| ==> r.store[i].sender == s[i].sender && r.store[i].recipient == s[i].recipient
    ensures forall i :: 0 <= i < |s| && Between(s[i], me, other) ==> r.store[i].status == code
    ensures forall i :: 0 <= i < |s| && !Between(s[i], me, other) ==> r.store[i] == s[i]
    ensures r.returned.None? <==> forall i :: 0 <= i < |s| ==> !Between(s[i], me, other)
    ensures r.returned.Some? ==> r.returned.value == |FindFriendship(s, me, other)| > 0
    ensures ValidStatuses(s) && Status.IsStatus(code) ==> ValidStatuses(r.store)
  {
    var n := IsFriendsWith(s, me, other, None);
    if n == 0 then Step(s, None)
    else
      FilterAll(FindFriendship(s, me, other), WithStatus(None));
      Step(Relabel(s, me, other, code), Some(n))
  }

  /** `acceptFriendRequest`: every row between the two becomes Accepted,
      whatever its prior status. */
  function AcceptFriendRequest(s: Store, me: Ref, other: Ref): (r: Step<nat>)
    ensures |r.store| == |s|
    ensures forall i :: 0 <= i < |s| && Between(s[i], me, other) ==>
              r.store[i] == s[i].(status := Status.Accepted)
    ensures forall i :: 0 <= i < |s| && !Between(s[i], me, other) ==> r.store[i] == s[i]
  {
    Transition(s, me, other, Status.Accepted)
  }

  /** `denyFriendRequest`: every row between the two becomes Denied. */
  function DenyFriendRequest(s: Store, me: Ref, other: Ref): (r: Step<nat>)
    ensures |r.store| == |s|
    ensures forall i :: 0 <= i < |s| && Between(s[i], me, other) ==>
              r.store[i] == s[i].(status := Status.Denied)
    ensures forall i :: 0 <= i < |s| && !Between(s[i], me, other) ==> r.store[i] == s[i]
  {
    Transition(s, me, other, Status.Denied)
  }

  /** `blockFriendRequest`: every row between the two becomes Blocked. */
  function BlockFriendRequest(s: Store, me: Ref, other: Ref): (r: Step<nat>)
    ensures |r.store| == |s|
    ensures forall i :: 0 <= i < |s| && Between(s[i], me, other) ==>
              r.store[i] == s[i].(status := Status.Blocked)
    ensures forall i :: 0 <= i < |s| && !Between(s[i], me, other) ==> r.store[i] == s[i]
  {
    Transition(s, me, other, Status.Blocked)
  }

  /** `unblockFriendRequest`: every row between the two goes back to
      Pending, whatever its prior status. */
  function UnblockFriendRequest(s: Store, me: Ref, other: Ref): (r: Step<nat>)
    ensures |r.store| == |s|
    ensures forall i :: 0 <= i < |s| && Between(s[i], me, other) ==>
              r.store[i] == s[i].(status := Status.Pending)
    ensures forall i :: 0 <= i < |s| && !Between(s[i], me, other) ==> r.store[i] == s[i]
  {
    Transition(s, me, other, Status.Pending)
  }

}
