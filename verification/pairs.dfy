/** Laws of the pair lookups and of the mutations that go through them:
    which lookups are symmetric, what each mutation does to the rows of the
    pair it names and to every other pair, and that the one-row-per-pair
    invariant survives every mutation. */
module PairLaws {
  import opened Wrappers
  import opened Seqs
  import Status
  import Php
  import opened Friendable

  /** `(a, b)` and `(c, d)` name the same unordered pair. */
  predicate SamePair(a: Ref, b: Ref, c: Ref, d: Ref) {
    (a == c && b == d) || (a == d && b == c)
  }

  // ---------------------------------------------------------------------
  // Symmetry of the pair lookups
  // ---------------------------------------------------------------------

  /** `findFriendship` selects the same rows for `(a, b)` and for `(b, a)`,
      so `getFriendship` is symmetric, and so is `isFriendsWith` when it
      applies no status condition. */
  lemma {:induction false} PairLookupsSymmetric(s: Store, a: Ref, b: Ref, status: Option<int>)
    ensures FindFriendship(s, a, b) == FindFriendship(s, b, a)
    ensures Php.Empty(status) ==> IsFriendsWith(s, a, b, status) == IsFriendsWith(s, b, a, status)
    ensures GetFriendship(s, a, b) == GetFriendship(s, b, a)
  {
    FilterExt(s, PairWith(a, b), PairWith(b, a));
  }

  /** The rows `a` sent to `b` that pass `filter`. */
  function DirectedWith(a: Ref, b: Ref, filter: Option<int>): Friend -> bool {
    (f: Friend) => f.sender == a && f.recipient == b && HasStatus(f, filter)
  }

  /** `isFriendsWith` counts every row `me` sent to `other`, plus the rows
      `other` sent to `me` that pass the status filter (a row of `me` to
      itself is counted once, unfiltered). */
  lemma IsFriendsWithSplits(s: Store, me: Ref, other: Ref, status: Option<int>)
    ensures IsFriendsWith(s, me, other, status) ==
              if me == other then |Filter(s, Directed(me, me))|
              else |Filter(s, Directed(me, other))| + |Filter(s, DirectedWith(other, me, Effective(status)))|
  {
    var counted := CountedWith(me, other, Effective(status));
    if me == other {
      FilterExt(s, counted, Directed(me, me));
    } else {
      FilterDisjointUnion(s, Directed(me, other), DirectedWith(other, me, Effective(status)), counted);
    }
  }

  /** A row `me` sent to `other` makes `isFriendsWith(other, $status)`
      positive whatever `$status` is and whatever the row's status is. */
  lemma OwnRowCountsForAnyStatus(s: Store, me: Ref, other: Ref, status: Option<int>, k: int)
    requires 0 <= k < |s| && s[k].sender == me && s[k].recipient == other
    ensures IsFriendsWith(s, me, other, status) > 0
  {}

  /** `hasBlocked` reads the symmetric `getFriendship`, so it is symmetric. */
  lemma HasBlockedSymmetric(s: Store, a: Ref, b: Ref)
    requires exists i :: 0 <= i < |s| && Between(s[i], a, b)
    ensures exists i :: 0 <= i < |s| && Between(s[i], b, a)
    ensures HasBlocked(s, a, b) == HasBlocked(s, b, a)
  {
    PairLookupsSymmetric(s, a, b, None);
  }

  /** `isBlockedBy` is directional: a single Blocked row from `a` to `b`
      makes `a` blocked by `b` but not `b` blocked by `a`. */
  lemma IsBlockedByIsDirectional(a: Ref, b: Ref)
    requires a != b
    ensures var s := [Friend(a, b, Status.Blocked)];
            IsBlockedBy(s, a, b) && !IsBlockedBy(s, b, a) && HasBlocked(s, b, a)
  {
    var s := [Friend(a, b, Status.Blocked)];
    assert s[0].sender == a && s[0].recipient == b && s[0].status == Status.Blocked;
    assert Between(s[0], b, a);
  }

  /** With Pending being `0`, asking for Pending rows asks for none in
      particular: the filter is skipped. */
  lemma PendingFilterIsSkipped(s: Store, a: Ref, b: Ref)
    ensures IsFriendsWith(s, a, b, Some(Status.Pending)) == IsFriendsWith(s, a, b, None)
  {}

  /** A non-zero code filters only the rows `b` sent: `isFriendsWith(b, code)`
      is positive exactly when `a` sent `b` any row or `b` sent `a` a row of
      that code. */
  lemma NonZeroFilterOnIncomingRows(s: Store, a: Ref, b: Ref, code: int)
    requires code != Status.Pending
    ensures IsFriendsWith(s, a, b, Some(code)) > 0 <==>
              (exists i :: 0 <= i < |s| && s[i].sender == a && s[i].recipient == b) ||
              (exists i :: 0 <= i < |s| && s[i].sender == b && s[i].recipient == a && s[i].status == code)
  {}

  // ---------------------------------------------------------------------
  // At most one row per pair
  // ---------------------------------------------------------------------

  /** In a store with one row per pair, the row at `k` is the only row its
      pair's lookup finds. */
  lemma {:induction false} UniqueLookup(s: Store, a: Ref, b: Ref, k: int)
    requires UniquePairs(s)
    requires 0 <= k < |s| && Between(s[k], a, b)
    ensures FindFriendship(s, a, b) == [s[k]]
    ensures GetFriendship(s, a, b) == Some(s[k])
  {
    var tail := s[1..];
    assert UniquePairs(tail) by {
      forall i, j | 0 <= i < j < |tail| ensures !Between(tail[j], tail[i].sender, tail[i].recipient) {
        assert tail[i] == s[i + 1] && tail[j] == s[j + 1];
      }
    }
    if k == 0 {
      assert forall j :: 0 <= j < |tail| ==> !Between(tail[j], a, b) by {
        forall j | 0 <= j < |tail| ensures !Between(tail[j], a, b) {
          assert tail[j] == s[j + 1];
          assert !Between(s[j + 1], s[0].sender, s[0].recipient);
        }
      }
      FilterNone(tail, PairWith(a, b));
      assert FindFriendship(s, a, b) == [s[0]] + Filter(tail, PairWith(a, b));
    } else {
      assert !Between(s[0], a, b) by {
        assert !Between(s[k], s[0].sender, s[0].recipient);
      }
      assert tail[k - 1] == s[k];
      UniqueLookup(tail, a, b, k - 1);
      assert FindFriendship(s, a, b) == FindFriendship(tail, a, b);
    }
  }

  /** The invariant holds exactly when no pair's lookup finds two rows. */
  lemma UniquePairsIffSingleRows(s: Store)
    ensures UniquePairs(s) <==> forall a, b :: |FindFriendship(s, a, b)| <= 1
  {
    if UniquePairs(s) {
      forall a, b ensures |FindFriendship(s, a, b)| <= 1 {
        var found := FindFriendship(s, a, b);
        if |found| > 0 {
          assert found[0] in s && Between(found[0], a, b);
          var k :| 0 <= k < |s| && s[k] == found[0];
          UniqueLookup(s, a, b, k);
          assert |found| == 1;
        }
      }
    } else {
      var i, j :| 0 <= i < j < |s| && Between(s[j], s[i].sender, s[i].recipient);
      var a, b := s[i].sender, s[i].recipient;
      assert Between(s[i], a, b);
      FilterKeepsPositions(s, PairWith(a, b), i, j);
      assert |FindFriendship(s, a, b)| > 1;
    }
  }

  // ---------------------------------------------------------------------
  // befriend
  // ---------------------------------------------------------------------

  /** `befriend` keeps the store at one row per pair, for every pair. */
  lemma BefriendPreservesUniquePairs(s: Store, me: Ref, other: Ref)
    requires UniquePairs(s)
    ensures UniquePairs(Befriend(s, me, other).store)
  {
    if forall i :: 0 <= i < |s| ==> !Between(s[i], me, other) {
      var created := Friend(me, other, Status.Pending);
      var t := s + [created];
      forall i, j | 0 <= i < j < |t| ensures !Between(t[j], t[i].sender, t[i].recipient) {
        if j == |s| {
          assert t[i] == s[i];
          assert !Between(s[i], me, other);
        } else {
          assert t[i] == s[i] && t[j] == s[j];
        }
      }
    }
  }

  /** A row appended to a store in which nothing linked its pair is the
      pair's only row, and `getFriendship` returns it from either side. */
  lemma {:induction false} FreshRowLookup(s: Store, x: Friend, a: Ref, b: Ref)
    requires forall i :: 0 <= i < |s| ==> !Between(s[i], a, b)
    requires Between(x, a, b)
    ensures FindFriendship(s + [x], a, b) == [x]
    ensures GetFriendship(s + [x], a, b) == Some(x) && GetFriendship(s + [x], b, a) == Some(x)
  {
    FilterConcat(s, [x], PairWith(a, b));
    FilterNone(s, PairWith(a, b));
    assert Filter([x], PairWith(a, b)) == [x] + Filter([x][1..], PairWith(a, b));
    PairLookupsSymmetric(s + [x], a, b, None);
  }

  /** When no row linked the two, `befriend` makes its new row the pair's
      only row, which both sides' `getFriendship` return. */
  lemma BefriendFreshPair(s: Store, me: Ref, other: Ref)
    requires forall i :: 0 <= i < |s| ==> !Between(s[i], me, other)
    ensures var t := Befriend(s, me, other).store;
            FindFriendship(t, me, other) == [Friend(me, other, Status.Pending)] &&
            GetFriendship(t, me, other) == Some(Friend(me, other, Status.Pending)) &&
            GetFriendship(t, other, me) == Some(Friend(me, other, Status.Pending))
  {
    FreshRowLookup(s, Friend(me, other, Status.Pending), me, other);
  }

  /** After `befriend` the two are friends in both directions; when no row
      linked them before, exactly one row does now, it is the Pending row from
      `me` to `other`, and both sides' `getFriendship` return it. */
  lemma BefriendEstablishesPair(s: Store, me: Ref, other: Ref)
    ensures var t := Befriend(s, me, other).store;
            IsFriendsWith(t, me, other, None) > 0 && IsFriendsWith(t, other, me, None) > 0
    ensures (forall i :: 0 <= i < |s| ==> !Between(s[i], me, other)) ==>
              var t := Befriend(s, me, other).store;
              FindFriendship(t, me, other) == [Friend(me, other, Status.Pending)] &&
              GetFriendship(t, me, other) == Some(Friend(me, other, Status.Pending)) &&
              GetFriendship(t, other, me) == Some(Friend(me, other, Status.Pending))
  {
    var t := Befriend(s, me, other).store;
    if forall i :: 0 <= i < |s| ==> !Between(s[i], me, other) {
      BefriendFreshPair(s, me, other);
      assert t[|s|] == Friend(me, other, Status.Pending);
      assert Between(t[|s|], other, me);
    } else {
      var i :| 0 <= i < |s| && Between(s[i], me, other);
      assert t == s;
      assert Between(t[i], other, me);
    }
  }

  /** A second `befriend` of the same pair, from either side, is a no-op: the
      pair still has exactly the one row the first call made. */
  lemma BefriendTwiceIsNoop(s: Store, me: Ref, other: Ref)
    ensures var t := Befriend(s, me, other).store;
            Befriend(t, me, other) == Step(t, None) && Befriend(t, other, me) == Step(t, None)
  {
    var t := Befriend(s, me, other).store;
    BefriendEstablishesPair(s, me, other);
    var i :| 0 <= i < |t| && Between(t[i], me, other);
    assert Between(t[i], other, me);
  }

  /** A fresh `befriend` appends the new row to the recipient's incoming
      requests and leaves every other entity's requests as they were. */
  lemma BefriendAddsRequest(s: Store, me: Ref, other: Ref, who: Ref)
    requires forall i :: 0 <= i < |s| ==> !Between(s[i], me, other)
    ensures GetFriendRequests(Befriend(s, me, other).store, who) ==
              GetFriendRequests(s, who) + (if who == other then [Friend(me, other, Status.Pending)] else [])
  {
    var created := Friend(me, other, Status.Pending);
    FilterConcat(s, [created], RequestTo(who));
    assert Filter([created], RequestTo(who)) == (if who == other then [created] else []) + Filter([created][1..], RequestTo(who));
  }

  /** `getFriendRequests` lists the requests in store order: over a
      concatenation it lists the first part's requests, then the second's,
      and a single row is listed exactly when it is a Pending request to
      `me`. Together these fix the result of every store. */
  lemma GetFriendRequestsInStoreOrder(s: Store, t: Store, me: Ref, x: Friend)
    ensures GetFriendRequests(s + t, me) == GetFriendRequests(s, me) + GetFriendRequests(t, me)
    ensures GetFriendRequests([x], me) == if x.recipient == me && x.status == Status.Pending then [x] else []
  {
    FilterConcat(s, t, RequestTo(me));
    assert Filter([x], RequestTo(me)) == (if RequestTo(me)(x) then [x] else []) + Filter([x][1..], RequestTo(me));
  }

  /** `friends()` lists the rows `me` sent in store order, in the same sense. */
  lemma FriendsInStoreOrder(s: Store, t: Store, me: Ref, x: Friend)
    ensures Friends(s + t, me) == Friends(s, me) + Friends(t, me)
    ensures Friends([x], me) == if x.sender == me then [x] else []
  {
    FilterConcat(s, t, SentBy(me));
    assert Filter([x], SentBy(me)) == (if SentBy(me)(x) then [x] else []) + Filter([x][1..], SentBy(me));
  }

  /** `findFriendship` keeps store order in the same sense: the rows of a
      concatenation are the rows of each part, in turn, and a single row is
      listed exactly when it links the pair. */
  lemma FindFriendshipInStoreOrder(s: Store, t: Store, me: Ref, other: Ref, x: Friend)
    ensures FindFriendship(s + t, me, other) == FindFriendship(s, me, other) + FindFriendship(t, me, other)
    ensures FindFriendship([x], me, other) == if Between(x, me, other) then [x] else []
  {
    FilterConcat(s, t, PairWith(me, other));
    assert Filter([x], PairWith(me, other)) ==
             (if PairWith(me, other)(x) then [x] else []) + Filter([x][1..], PairWith(me, other));
  }

  /** A fresh `befriend` appends the new row to the sender's `friends()`. */
  lemma BefriendAddsToFriends(s: Store, me: Ref, other: Ref)
    requires forall i :: 0 <= i < |s| ==> !Between(s[i], me, other)
    ensures Friends(Befriend(s, me, other).store, me) == Friends(s, me) + [Friend(me, other, Status.Pending)]
  {
    FriendsInStoreOrder(s, [Friend(me, other, Status.Pending)], me, Friend(me, other, Status.Pending));
  }

  // ---------------------------------------------------------------------
  // unfriend
  // ---------------------------------------------------------------------

  /** After `unfriend` no row links the two. */
  lemma UnfriendRemovesPair(s: Store, me: Ref, other: Ref)
    ensures var t := Unfriend(s, me, other).store;
            IsFriendsWith(t, me, other, None) == 0 && IsFriendsWith(t, other, me, None) == 0 &&
            GetFriendship(t, me, other).None?
  {
    var t := Unfriend(s, me, other).store;
    assert forall i :: 0 <= i < |t| ==> !Between(t[i], other, me);
  }

  /** `unfriend` leaves every other pair's rows, in order, as they were. */
  lemma UnfriendFrame(s: Store, me: Ref, other: Ref, c: Ref, d: Ref)
    requires !SamePair(me, other, c, d)
    ensures FindFriendship(Unfriend(s, me, other).store, c, d) == FindFriendship(s, c, d)
  {
    if IsFriendsWith(s, me, other, None) > 0 {
      var both: Friend -> bool := f => Between(f, c, d) && !Between(f, me, other);
      FilterFilter(s, NotPairWith(me, other), PairWith(c, d), both);
      FilterExt(s, PairWith(c, d), both);
    }
  }

  /** Whether or not the guard fires, `unfriend` leaves the rows that do
      not link the two, in store order. */
  lemma UnfriendKeepsOthers(s: Store, me: Ref, other: Ref)
    ensures Unfriend(s, me, other).store == Filter(s, NotPairWith(me, other))
  {
    if forall i :: 0 <= i < |s| ==> !Between(s[i], me, other) {
      FilterAll(s, NotPairWith(me, other));
    }
  }

  /** Unfriending over a concatenation is the concatenation of unfriending
      each part. */
  lemma UnfriendKeepsOrder(a: Store, b: Store, me: Ref, other: Ref)
    ensures Unfriend(a + b, me, other).store == Unfriend(a, me, other).store + Unfriend(b, me, other).store
  {
    UnfriendKeepsOthers(a + b, me, other);
    UnfriendKeepsOthers(a, me, other);
    UnfriendKeepsOthers(b, me, other);
    FilterConcat(a, b, NotPairWith(me, other));
  }

  /** `unfriend` keeps the store at one row per pair. */
  lemma UnfriendPreservesUniquePairs(s: Store, me: Ref, other: Ref)
    requires UniquePairs(s)
    ensures UniquePairs(Unfriend(s, me, other).store)
  {
    var rel: (Friend, Friend) -> bool := (f: Friend, g: Friend) => !Between(g, f.sender, f.recipient);
    FilterPairwise(s, NotPairWith(me, other), rel);
  }

  // ---------------------------------------------------------------------
  // accept / deny / block / unblock
  // ---------------------------------------------------------------------

  /** After a transition to `code` the pair has as many rows as before, each
      of them now carrying `code`. */
  lemma TransitionSetsPair(s: Store, me: Ref, other: Ref, code: int)
    ensures var t := Transition(s, me, other, code).store;
            |FindFriendship(t, me, other)| == |FindFriendship(s, me, other)| &&
            forall i :: 0 <= i < |FindFriendship(t, me, other)| ==> FindFriendship(t, me, other)[i].status == code
  {
    var t := Transition(s, me, other, code).store;
    FilterLengthAgree(t, s, PairWith(me, other), PairWith(me, other));
    var found := FindFriendship(t, me, other);
    forall i | 0 <= i < |found| ensures found[i].status == code {
      var k :| 0 <= k < |t| && t[k] == found[i];
      assert Between(s[k], me, other);
    }
  }

  /** Consequently `isFriendsWith(other, code)` after the transition counts
      every row the pair had before, whatever the code: a non-zero code is
      carried by every pair row, and code 0 skips the status filter. */
  lemma TransitionCountsAsTarget(s: Store, me: Ref, other: Ref, code: int)
    ensures IsFriendsWith(Transition(s, me, other, code).store, me, other, Some(code)) ==
              IsFriendsWith(s, me, other, None)
  {
    var t := Transition(s, me, other, code).store;
    TransitionSetsPair(s, me, other, code);
    if code != Status.Pending {
      FilterExt(t, CountedWith(me, other, Some(code)), PairWith(me, other));
    }
  }

  /** A transition to a non-Pending code empties `me`'s incoming requests of
      every row from `other`. */
  lemma TransitionClearsRequests(s: Store, me: Ref, other: Ref, code: int)
    requires code != Status.Pending
    ensures var requests := GetFriendRequests(Transition(s, me, other, code).store, me);
            forall i :: 0 <= i < |requests| ==> requests[i].sender != other
  {
    var t := Transition(s, me, other, code).store;
    var requests := GetFriendRequests(t, me);
    forall i | 0 <= i < |requests| ensures requests[i].sender != other {
      var k :| 0 <= k < |t| && t[k] == requests[i];
      assert t[k].sender == s[k].sender && t[k].recipient == s[k].recipient;
    }
  }

  /** A transition leaves every other pair's rows exactly as they were. */
  lemma TransitionFrame(s: Store, me: Ref, other: Ref, code: int, c: Ref, d: Ref)
    requires !SamePair(me, other, c, d)
    ensures FindFriendship(Transition(s, me, other, code).store, c, d) == FindFriendship(s, c, d)
  {
    var t := Transition(s, me, other, code).store;
    forall i | 0 <= i < |t| && (Between(t[i], c, d) || Between(s[i], c, d)) ensures t[i] == s[i] {
      assert !Between(s[i], me, other);
    }
    FilterAgree(t, s, PairWith(c, d));
  }

  /** A transition only writes statuses, so it keeps one row per pair. */
  lemma TransitionPreservesUniquePairs(s: Store, me: Ref, other: Ref, code: int)
    requires UniquePairs(s)
    ensures UniquePairs(Transition(s, me, other, code).store)
  {
    var t := Transition(s, me, other, code).store;
    forall i, j | 0 <= i < j < |t| ensures !Between(t[j], t[i].sender, t[i].recipient) {
      assert !Between(s[j], s[i].sender, s[i].recipient);
    }
  }

  // ---------------------------------------------------------------------
  // hasBlocked versus isBlockedBy
  // ---------------------------------------------------------------------

  /** The rows `a` sent to `b` are the rows between them that `a` sent. */
  lemma DirectedWithinPair(s: Store, a: Ref, b: Ref)
    ensures Filter(s, Directed(a, b)) == Filter(FindFriendship(s, a, b), Directed(a, b))
  {
    FilterFilter(s, PairWith(a, b), Directed(a, b), Directed(a, b));
  }

  /** With one row per pair, `a` has blocked `b` exactly when one of them is
      blocked by the other in `isBlockedBy`'s directional sense. */
  lemma HasBlockedIsEitherDirection(s: Store, a: Ref, b: Ref)
    requires UniquePairs(s)
    requires exists i :: 0 <= i < |s| && Between(s[i], a, b)
    ensures HasBlocked(s, a, b) <==> IsBlockedBy(s, a, b) || IsBlockedBy(s, b, a)
  {
    var k :| 0 <= k < |s| && Between(s[k], a, b);
    var row := s[k];
    UniqueLookup(s, a, b, k);
    PairLookupsSymmetric(s, a, b, None);
    DirectedWithinPair(s, a, b);
    DirectedWithinPair(s, b, a);
    assert [row][1..] == [];
    assert Filter([row], Directed(a, b)) == (if row.sender == a && row.recipient == b then [row] else []);
    assert Filter([row], Directed(b, a)) == (if row.sender == b && row.recipient == a then [row] else []);
    assert HasBlocked(s, a, b) == (row.status == Status.Blocked);
  }

}
