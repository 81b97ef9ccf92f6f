/** Two discrepancies in the trait's status filters, each exhibited on a
    concrete store and paired with the evidently intended definition and the
    law it restores.

    The Pending status code is `0`, and the trait guards its status filters
    with `!empty($status)`, which is false for `0`: asking for Pending rows
    asks for no status at all.

    `isFriendsWith` adds its status `where` after `findFriendship`'s
    `where(A)->orWhere(B)`, so the condition binds to the second group only:
    the rows `me` sent count whatever their status. */
module Findings {
  import Status
  import opened Wrappers
  import opened Seqs
  import opened Friendable
  import Listings
  import PairLaws

  /** `isFriendsWith` as intended: the status condition applies to every row
      between the two, and only `null` means "any status". */
  function IsFriendsWithIntended(s: Store, me: Ref, other: Ref, status: Option<int>): (n: nat)
    ensures n <= |s|
    ensures n > 0 <==> exists i :: 0 <= i < |s| && Between(s[i], me, other) &&
                                  (status.None? || s[i].status == status.value)
  {
    var found := FindFriendship(s, me, other);
    var r := Filter(found, WithStatus(status));
    assert |r| > 0 ==> r[0] in found;
    assert (exists i :: 0 <= i < |s| && Between(s[i], me, other) && HasStatus(s[i], status)) ==> |r| > 0 by {
      if i :| 0 <= i < |s| && Between(s[i], me, other) && HasStatus(s[i], status) {
        var k :| 0 <= k < |found| && found[k] == s[i];
        assert found[k] in r;
      }
    }
    |r|
  }

  /** The intended count is symmetric for every status, and agrees with the
      as-written one when no status is asked for. */
  lemma IntendedCountIsSymmetric(s: Store, a: Ref, b: Ref, status: Option<int>)
    ensures IsFriendsWithIntended(s, a, b, status) == IsFriendsWithIntended(s, b, a, status)
    ensures IsFriendsWithIntended(s, a, b, None) == IsFriendsWith(s, a, b, None)
  {
    PairLaws.PairLookupsSymmetric(s, a, b, status);
    FilterAll(FindFriendship(s, a, b), WithStatus(None));
  }

  /** As written, one Denied row from user 1 to user 2 makes
      `isFriendsWith($user2, Status::ACCEPTED)` count 1 for user 1 and 0 for
      user 2; the intended count is 0 from both sides. */
  lemma StatusFilterSkipsOwnRows()
    ensures var a := Ref("User", 1);
            var b := Ref("User", 2);
            var s := [Friend(a, b, Status.Denied)];
            UniquePairs(s) && ValidStatuses(s) &&
            IsFriendsWith(s, a, b, Some(Status.Accepted)) == 1 &&
            IsFriendsWith(s, b, a, Some(Status.Accepted)) == 0 &&
            IsFriendsWithIntended(s, a, b, Some(Status.Accepted)) == 0 &&
            IsFriendsWithIntended(s, b, a, Some(Status.Accepted)) == 0
  {
    var a := Ref("User", 1);
    var b := Ref("User", 2);
    var s := [Friend(a, b, Status.Denied)];
    assert s[1..] == [];
    assert Filter(s, CountedWith(a, b, Some(Status.Accepted))) == [s[0]];
    assert Filter(s, CountedWith(b, a, Some(Status.Accepted))) == [];
  }

  /** `findFriendshipsByStatus` with only `null` meaning "any status": with
      one row per pair and `find` resolving, each entry carries the asked-for
      status, Pending included. */
  function FindFriendshipsByStatusIntended(s: Store, me: Ref, status: Option<int>, limit: Option<nat>, offset: Option<nat>): (r: seq<Option<Friend>>)
    ensures UniquePairs(s) && SameKind(s, me) && status.Some? ==>
              forall i :: 0 <= i < |r| ==> r[i].Some? && r[i].value.status == status.value
  {
    assert UniquePairs(s) && SameKind(s, me) && status.Some? ==>
             var r := Listing(s, me, status, limit, offset);
             forall i :: 0 <= i < |r| ==> r[i].Some? && r[i].value.status == status.value
    by {
      if UniquePairs(s) && SameKind(s, me) && status.Some? {
        Listings.ListingCarriesItsFilter(s, me, status.value, limit, offset);
      }
    }
    Listing(s, me, status, limit, offset)
  }

  /** With the intended filter the four status listings partition: an entry
      appears under its own status only. */
  lemma IntendedListingsPartition(s: Store, me: Ref, c1: int, c2: int, limit: Option<nat>, offset: Option<nat>)
    requires UniquePairs(s) && SameKind(s, me)
    requires Status.IsStatus(c1) && Status.IsStatus(c2) && c1 != c2
    ensures var r1 := FindFriendshipsByStatusIntended(s, me, Some(c1), limit, offset);
            var r2 := FindFriendshipsByStatusIntended(s, me, Some(c2), limit, offset);
            forall i, j :: 0 <= i < |r1| && 0 <= j < |r2| ==> r1[i] != r2[j]
  {}

  /** As written, one Accepted row from user 1 to user 2 is listed by both
      `getPendingFriendships` and `getAcceptedFriendships`, and
      `isFriendsWith(..., Status::PENDING)` counts it from both sides. From
      user 2's side the row is one the status condition does reach, so that
      count is the `empty(0)` guard's doing alone. The intended definitions
      count and list nothing. */
  lemma PendingFilterDropped()
    ensures var a := Ref("User", 1);
            var b := Ref("User", 2);
            var s := [Friend(a, b, Status.Accepted)];
            UniquePairs(s) && SameKind(s, a) && ValidStatuses(s) &&
            IsFriendsWith(s, a, b, Some(Status.Pending)) == 1 &&
            IsFriendsWith(s, b, a, Some(Status.Pending)) == 1 &&
            GetPendingFriendships(s, a, None, None) == [Some(Friend(a, b, Status.Accepted))] &&
            GetAcceptedFriendships(s, a, None, None) == [Some(Friend(a, b, Status.Accepted))] &&
            IsFriendsWithIntended(s, a, b, Some(Status.Pending)) == 0 &&
            FindFriendshipsByStatusIntended(s, a, Some(Status.Pending), None, None) == []
  {
    var a := Ref("User", 1);
    var b := Ref("User", 2);
    var row := Friend(a, b, Status.Accepted);
    var s := [row];
    assert s[1..] == [];
    assert FindFriendship(s, a, b) == [row];
    assert Filter(s, CountedWith(b, a, None)) == [row];
    assert Matched(s, a, None) == [row];
    assert Matched(s, a, Some(Status.Accepted)) == [row];
    assert Matched(s, a, Some(Status.Pending)) == [];
    assert Counterpart(row, a) == b;
  }

}
