/** Laws of `findFriendshipsByStatus` and its five wrappers: how paging
    cuts the full listing, what the `empty` guards do to Pending and to a
    zero offset, and when the re-fetch through `getFriendship` returns the
    very row the query matched. */
module Listings {
  import opened Wrappers
  import opened Seqs
  import Status
  import opened Friendable
  import PairLaws

  // ---------------------------------------------------------------------
  // Paging and the `empty` guards
  // ---------------------------------------------------------------------

  /** A positive limit and an offset within range cut exactly the slice
      `[offset, offset + limit)` out of the unpaged listing. */
  lemma ListingSlice(s: Store, me: Ref, filter: Option<int>, limit: nat, offset: nat)
    requires limit > 0
    requires offset <= |Matched(s, me, filter)|
    ensures var all := Listing(s, me, filter, None, None);
            var end := if offset + limit < |all| then offset + limit else |all|;
            Listing(s, me, filter, Some(limit), Some(offset)) == all[offset..end]
  {
    var m := Matched(s, me, filter);
    var end := if offset + limit < |m| then offset + limit else |m|;
    assert Window(m, Skip(Some(offset)), Take(Some(limit))) == m[offset..end];
    assert Window(m, Skip(None), Take(None)) == m;
    MapSlice(m, Refetch(s, me), offset, end);
  }

  /** The same slice law for `findFriendshipsByStatus`. */
  lemma PageOfFullListing(s: Store, me: Ref, status: Option<int>, limit: nat, offset: nat)
    requires limit > 0
    requires offset <= |Matched(s, me, Effective(status))|
    ensures var all := FindFriendshipsByStatus(s, me, status, None, None);
            var end := if offset + limit < |all| then offset + limit else |all|;
            FindFriendshipsByStatus(s, me, status, Some(limit), Some(offset)) == all[offset..end]
  {
    ListingSlice(s, me, Effective(status), limit, offset);
  }

  /** `getAllFriendships(2, 1)` returns the second and third entries of the
      unpaged listing whenever there are at least three. */
  lemma SecondAndThirdEntries(s: Store, me: Ref)
    requires |Matched(s, me, None)| >= 3
    ensures var all := GetAllFriendships(s, me, None, None);
            |all| >= 3 && GetAllFriendships(s, me, Some(2), Some(1)) == all[1..3]
  {
    var all := GetAllFriendships(s, me, None, None);
    assert |all| == |Matched(s, me, None)|;
    PageOfFullListing(s, me, None, 2, 1);
  }

  /** Pending is `0`, which `!empty` drops, and a zero offset is no offset:
      `getPendingFriendships` lists what `getAllFriendships` lists, also with
      the two methods' different default offsets (`0` and `null`). */
  lemma PendingListsEverything(s: Store, me: Ref, limit: Option<nat>, offset: Option<nat>)
    ensures GetPendingFriendships(s, me, limit, offset) == GetAllFriendships(s, me, limit, offset)
    ensures GetPendingFriendships(s, me, limit, Some(0)) == GetAllFriendships(s, me, limit, None)
  {}

  /** A zero limit is no limit. */
  lemma ZeroLimitIsNoLimit(s: Store, me: Ref, status: Option<int>, offset: Option<nat>)
    ensures FindFriendshipsByStatus(s, me, status, Some(0), offset) == FindFriendshipsByStatus(s, me, status, None, offset)
  {}

  /** Before the re-fetch, the rows the non-zero codes select are disjoint:
      each carries its own code. */
  lemma MatchedRowsDisjoint(s: Store, me: Ref, c1: int, c2: int)
    requires c1 != Status.Pending && c2 != Status.Pending && c1 != c2
    ensures var m1 := Matched(s, me, Effective(Some(c1)));
            var m2 := Matched(s, me, Effective(Some(c2)));
            forall i, j :: 0 <= i < |m1| && 0 <= j < |m2| ==> m1[i] != m2[j]
  {
    var m1 := Matched(s, me, Effective(Some(c1)));
    var m2 := Matched(s, me, Effective(Some(c2)));
    forall i, j | 0 <= i < |m1| && 0 <= j < |m2| ensures m1[i] != m2[j] {
      assert m1[i].status == c1 && m2[j].status == c2;
    }
  }

  // ---------------------------------------------------------------------
  // The re-fetch through getFriendship
  // ---------------------------------------------------------------------

  /** When every row `me` takes part in links two entities of `me`'s class,
      `find` resolves the party across the row, and the row links `me` to it. */
  lemma CounterpartIsOtherParty(s: Store, me: Ref, k: int)
    requires SameKind(s, me)
    requires 0 <= k < |s| && (s[k].sender == me || s[k].recipient == me)
    ensures Between(s[k], me, Counterpart(s[k], me))
  {}

  /** Every row of a page of matched rows involves `me` and passes the filter. */
  lemma MatchedPageRow(s: Store, me: Ref, filter: Option<int>, limit: Option<nat>, offset: Option<nat>, i: int)
    requires 0 <= i < |Window(Matched(s, me, filter), Skip(offset), Take(limit))|
    ensures var row := Window(Matched(s, me, filter), Skip(offset), Take(limit))[i];
            row in s && (row.sender == me || row.recipient == me) && HasStatus(row, filter)
  {
    var m := Matched(s, me, filter);
    assert Window(m, Skip(offset), Take(limit))[i] == m[Skip(offset) + i];
  }

  /** Entry `i` of a page of matched rows, mapped through any `f`, is `f`
      of some matched row. */
  lemma PageSource(s: Store, me: Ref, filter: Option<int>, limit: Option<nat>, offset: Option<nat>,
                   f: Friend -> Option<Friend>, i: int)
    returns (k: int)
    requires 0 <= i < |Window(Matched(s, me, filter), Skip(offset), Take(limit))|
    ensures 0 <= k < |s| && (s[k].sender == me || s[k].recipient == me) && HasStatus(s[k], filter)
    ensures Map(Window(Matched(s, me, filter), Skip(offset), Take(limit)), f)[i] == f(s[k])
  {
    var page := Window(Matched(s, me, filter), Skip(offset), Take(limit));
    MatchedPageRow(s, me, filter, limit, offset, i);
    k :| 0 <= k < |s| && s[k] == page[i];
    assert Map(page, f)[i] == f(page[i]);
  }

  /** The re-fetch of a row `me` takes part in finds a row `me` takes part
      in; with one row per pair it finds that very row. */
  lemma RefetchRow(s: Store, me: Ref, k: int)
    requires SameKind(s, me)
    requires 0 <= k < |s| && (s[k].sender == me || s[k].recipient == me)
    ensures Refetch(s, me)(s[k]).Some?
    ensures Refetch(s, me)(s[k]).value.sender == me || Refetch(s, me)(s[k]).value.recipient == me
    ensures UniquePairs(s) ==> Refetch(s, me)(s[k]) == Some(s[k])
  {
    var c := Counterpart(s[k], me);
    CounterpartIsOtherParty(s, me, k);
    if UniquePairs(s) {
      PairLaws.UniqueLookup(s, me, c, k);
    }
  }

  /** Under the same condition, every listed entry is a row, and a row `me`
      takes part in. */
  lemma ListingResolves(s: Store, me: Ref, filter: Option<int>, limit: Option<nat>, offset: Option<nat>)
    requires SameKind(s, me)
    ensures var r := Listing(s, me, filter, limit, offset);
            forall i :: 0 <= i < |r| ==> r[i].Some? && (r[i].value.sender == me || r[i].value.recipient == me)
  {
    var r := Listing(s, me, filter, limit, offset);
    forall i | 0 <= i < |r| ensures r[i].Some? && (r[i].value.sender == me || r[i].value.recipient == me) {
      var k := PageSource(s, me, filter, limit, offset, Refetch(s, me), i);
      RefetchRow(s, me, k);
    }
  }

  /** With one row per pair as well, the re-fetch returns the very row the
      query matched, so the listing is the matched page itself. */
  lemma ListingIsMatchedPage(s: Store, me: Ref, filter: Option<int>, limit: Option<nat>, offset: Option<nat>)
    requires UniquePairs(s) && SameKind(s, me)
    ensures var r := Listing(s, me, filter, limit, offset);
            var page := Window(Matched(s, me, filter), Skip(offset), Take(limit));
            |r| == |page| && forall i :: 0 <= i < |r| ==> r[i] == Some(page[i])
  {
    var r := Listing(s, me, filter, limit, offset);
    var page := Window(Matched(s, me, filter), Skip(offset), Take(limit));
    forall i | 0 <= i < |r| ensures r[i] == Some(page[i]) {
      assert r[i] == Refetch(s, me)(page[i]);
      var k := PageSource(s, me, filter, limit, offset, Refetch(s, me), i);
      RefetchRow(s, me, k);
      var j :| 0 <= j < |s| && s[j] == page[i];
      RefetchRow(s, me, j);
    }
  }

  /** Hence, under both conditions, every entry of a listing filtered by
      `code` is a row of that code that `me` takes part in. */
  lemma ListingCarriesItsFilter(s: Store, me: Ref, code: int, limit: Option<nat>, offset: Option<nat>)
    requires UniquePairs(s) && SameKind(s, me)
    ensures var r := Listing(s, me, Some(code), limit, offset);
            forall i :: 0 <= i < |r| ==> r[i].Some? && r[i].value.status == code &&
                                         (r[i].value.sender == me || r[i].value.recipient == me)
  {
    var r := Listing(s, me, Some(code), limit, offset);
    var page := Window(Matched(s, me, Some(code)), Skip(offset), Take(limit));
    ListingIsMatchedPage(s, me, Some(code), limit, offset);
    forall i | 0 <= i < |r|
      ensures r[i].Some? && r[i].value.status == code && (r[i].value.sender == me || r[i].value.recipient == me)
    {
      MatchedPageRow(s, me, Some(code), limit, offset, i);
    }
  }

  /** The as-written method gets there only for the non-zero codes, the
      ones `!empty` lets through. */
  lemma StatusListingCarriesItsCode(s: Store, me: Ref, code: int, limit: Option<nat>, offset: Option<nat>)
    requires UniquePairs(s) && SameKind(s, me)
    requires code != Status.Pending
    ensures var r := FindFriendshipsByStatus(s, me, Some(code), limit, offset);
            forall i :: 0 <= i < |r| ==> r[i].Some? && r[i].value.status == code &&
                                         (r[i].value.sender == me || r[i].value.recipient == me)
  {
    ListingCarriesItsFilter(s, me, code, limit, offset);
  }

  /** The Accepted, Denied and Blocked listings of one store share no entry. */
  lemma StatusListingsDisjoint(s: Store, me: Ref, limit: Option<nat>, offset: Option<nat>)
    requires UniquePairs(s) && SameKind(s, me)
    ensures var acc := GetAcceptedFriendships(s, me, limit, offset);
            var den := GetDeniedFriendships(s, me, limit, offset);
            var blk := GetBlockedFriendships(s, me, limit, offset);
            (forall i, j :: 0 <= i < |acc| && 0 <= j < |den| ==> acc[i] != den[j]) &&
            (forall i, j :: 0 <= i < |acc| && 0 <= j < |blk| ==> acc[i] != blk[j]) &&
            (forall i, j :: 0 <= i < |den| && 0 <= j < |blk| ==> den[i] != blk[j])
  {
    StatusListingCarriesItsCode(s, me, Status.Accepted, limit, offset);
    StatusListingCarriesItsCode(s, me, Status.Denied, limit, offset);
    StatusListingCarriesItsCode(s, me, Status.Blocked, limit, offset);
  }

  /** When a single row matches, the unpaged listing is that row's
      re-fetch. */
  lemma SingleMatchListing(s: Store, me: Ref, filter: Option<int>, x: Friend)
    requires Matched(s, me, filter) == [x]
    ensures Listing(s, me, filter, None, None) == [GetFriendship(s, me, Counterpart(x, me))]
  {
    assert Window([x], 0, None) == [x];
  }

  /** An Accepted row from `a` to `b` followed by a Denied row back. */
  function DuplicatePair(a: Ref, b: Ref): Store {
    [Friend(a, b, Status.Accepted), Friend(b, a, Status.Denied)]
  }

  /** The duplicate store holds two rows for one pair of same-kind entities. */
  lemma DuplicatePairShape(a: Ref, b: Ref)
    requires a.kind == b.kind
    ensures SameKind(DuplicatePair(a, b), a) && !UniquePairs(DuplicatePair(a, b))
  {
    var s := DuplicatePair(a, b);
    assert Between(s[1], s[0].sender, s[0].recipient);
  }

  /** Each of the two status filters matches one of the duplicate rows. */
  lemma DuplicatePairMatches(a: Ref, b: Ref)
    requires a != b
    ensures var s := DuplicatePair(a, b);
            Matched(s, a, Some(Status.Accepted)) == [s[0]] &&
            Matched(s, a, Some(Status.Denied)) == [s[1]]
  {
    var s := DuplicatePair(a, b);
    assert s[1..] == [s[1]] && s[1..][1..] == [];
    var acc := InvolvingWith(a, Some(Status.Accepted));
    var den := InvolvingWith(a, Some(Status.Denied));
    assert acc(s[0]) && !acc(s[1]) && !den(s[0]) && den(s[1]);
    assert Filter(s[1..], acc) == [] + Filter(s[1..][1..], acc);
    assert Filter(s[1..], den) == [s[1]] + Filter(s[1..][1..], den);
  }

  /** Both duplicate rows re-fetch the pair's first row. */
  lemma DuplicatePairRefetch(a: Ref, b: Ref)
    requires a.kind == b.kind && a.id != b.id
    ensures var s := DuplicatePair(a, b);
            Counterpart(s[0], a) == b && Counterpart(s[1], a) == b &&
            GetFriendship(s, a, b) == Some(s[0])
  {
    var s := DuplicatePair(a, b);
    assert FindFriendship(s, a, b)[0] == s[0];
  }

  /** Without one row per pair the re-fetch breaks disjointness: with an
      Accepted and a Denied row for the same pair, the Denied listing shows
      the Accepted row, because `getFriendship` returns the pair's first row. */
  lemma DuplicatePairBreaksDisjointness()
    ensures var a := Ref("User", 1);
            var b := Ref("User", 2);
            var s := DuplicatePair(a, b);
            SameKind(s, a) && !UniquePairs(s) &&
            GetAcceptedFriendships(s, a, None, None) == [Some(Friend(a, b, Status.Accepted))] &&
            GetDeniedFriendships(s, a, None, None) == [Some(Friend(a, b, Status.Accepted))]
  {
    var a := Ref("User", 1);
    var b := Ref("User", 2);
    var s := DuplicatePair(a, b);
    DuplicatePairShape(a, b);
    DuplicatePairMatches(a, b);
    DuplicatePairRefetch(a, b);
    SingleMatchListing(s, a, Some(Status.Accepted), s[0]);
    SingleMatchListing(s, a, Some(Status.Denied), s[1]);
  }

}
