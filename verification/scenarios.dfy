/** End-to-end walks through the trait: a request followed by each kind of
    answer, starting from a store in which the two entities share no row. */
module Scenarios {
  import Status
  import opened Wrappers
  import opened Friendable
  import PairLaws

  /** `a` and `b` share no row. */
  predicate Strangers(s: Store, a: Ref, b: Ref) {
    forall i :: 0 <= i < |s| ==> !Between(s[i], a, b)
  }

  /** The request appended by `befriend` is the last row and the pair's only
      one. */
  lemma RequestIsOnlyPairRow(s: Store, a: Ref, b: Ref)
    requires Strangers(s, a, b)
    ensures var t := Befriend(s, a, b).store;
            |t| == |s| + 1 && t[|s|] == Friend(a, b, Status.Pending) &&
            forall i :: 0 <= i < |s| ==> t[i] == s[i] && !Between(t[i], a, b)
  {}

  /** Befriending from both sides leaves exactly one row for the pair. */
  lemma BefriendBothWaysOneRow(s: Store, a: Ref, b: Ref)
    requires Strangers(s, a, b)
    ensures var t := Befriend(Befriend(s, a, b).store, b, a).store;
            FindFriendship(t, a, b) == [Friend(a, b, Status.Pending)]
  {
    PairLaws.BefriendTwiceIsNoop(s, a, b);
    PairLaws.BefriendEstablishesPair(s, a, b);
  }

  /** When `b` answers `a`'s fresh request with any transition, the request
      row takes the new code and every earlier row is untouched. */
  lemma AnsweredRequest(s: Store, a: Ref, b: Ref, code: int)
    requires Strangers(s, a, b)
    ensures Transition(Befriend(s, a, b).store, b, a, code).store == s + [Friend(a, b, code)]
  {
    var t1 := Befriend(s, a, b).store;
    var t := Transition(t1, b, a, code).store;
    RequestIsOnlyPairRow(s, a, b);
    assert Between(t1[|s|], b, a);
    forall i | 0 <= i < |s| ensures t[i] == s[i] {
      assert !Between(t1[i], b, a);
    }
    assert t == s + [Friend(a, b, code)];
  }

  /** The answered request is what `getFriendship` returns from either side. */
  lemma AnsweredRequestIsThePairRow(s: Store, a: Ref, b: Ref, code: int)
    requires Strangers(s, a, b)
    ensures var t := Transition(Befriend(s, a, b).store, b, a, code).store;
            GetFriendship(t, a, b) == Some(Friend(a, b, code)) &&
            GetFriendship(t, b, a) == Some(Friend(a, b, code))
  {
    AnsweredRequest(s, a, b, code);
    PairLaws.FreshRowLookup(s, Friend(a, b, code), a, b);
  }

  /** After `b` accepts `a`'s request the pair's row is Accepted and `b` has
      no pending request from `a` left. */
  lemma BefriendThenAccept(s: Store, a: Ref, b: Ref)
    requires Strangers(s, a, b)
    ensures var t := AcceptFriendRequest(Befriend(s, a, b).store, b, a).store;
            GetFriendship(t, a, b) == Some(Friend(a, b, Status.Accepted)) &&
            forall i :: 0 <= i < |GetFriendRequests(t, b)| ==> GetFriendRequests(t, b)[i].sender != a
  {
    var t1 := Befriend(s, a, b).store;
    AnsweredRequestIsThePairRow(s, a, b, Status.Accepted);
    PairLaws.TransitionClearsRequests(t1, b, a, Status.Accepted);
  }

  /** After `a` befriends and then unfriends `b`, from either side, no row
      links them. */
  lemma BefriendThenUnfriend(s: Store, a: Ref, b: Ref)
    ensures var t := Befriend(s, a, b).store;
            IsFriendsWith(Unfriend(t, a, b).store, a, b, None) == 0 &&
            GetFriendship(Unfriend(t, a, b).store, a, b).None? &&
            IsFriendsWith(Unfriend(t, b, a).store, a, b, None) == 0
  {
    var t := Befriend(s, a, b).store;
    PairLaws.UnfriendRemovesPair(t, a, b);
    PairLaws.UnfriendRemovesPair(t, b, a);
  }

  /** After `b` blocks `a`'s request, `a` is blocked by `b` and `b` has
      blocked `a`. */
  lemma BefriendThenBlock(s: Store, a: Ref, b: Ref)
    requires Strangers(s, a, b)
    ensures var t := BlockFriendRequest(Befriend(s, a, b).store, b, a).store;
            (exists i :: 0 <= i < |t| && Between(t[i], b, a)) &&
            IsBlockedBy(t, a, b) && HasBlocked(t, b, a)
  {
    var t := BlockFriendRequest(Befriend(s, a, b).store, b, a).store;
    AnsweredRequest(s, a, b, Status.Blocked);
    AnsweredRequestIsThePairRow(s, a, b, Status.Blocked);
    assert Between(t[|s|], b, a);
    assert t[|s|].sender == a && t[|s|].recipient == b;
  }

}
