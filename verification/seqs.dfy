/** Order-preserving selection and paging over sequences: the two query
    shapes (`where ... ->get()` and `take`/`skip`) the store is read with. */
module Seqs {
  import opened Wrappers

  /** The elements of `s` that satisfy `p`, in their original order. */
  function Filter<T>(s: seq<T>, p: T -> bool): (r: seq<T>)
    ensures |r| <= |s|
    ensures forall i :: 0 <= i < |r| ==> r[i] in s && p(r[i])
    ensures forall i :: 0 <= i < |s| && p(s[i]) ==> s[i] in r
  {
    if |s| == 0 then []
    else if p(s[0]) then [s[0]] + Filter(s[1..], p)
    else Filter(s[1..], p)
  }

  /** Selecting by a predicate every element satisfies changes nothing. */
  lemma {:induction false} FilterAll<T>(s: seq<T>, p: T -> bool)
    requires forall i :: 0 <= i < |s| ==> p(s[i])
    ensures Filter(s, p) == s
  {
    if |s| > 0 {
      FilterAll(s[1..], p);
    }
  }

  /** Selecting by a predicate no element satisfies gives nothing. */
  lemma {:induction false} FilterNone<T>(s: seq<T>, p: T -> bool)
    requires forall i :: 0 <= i < |s| ==> !p(s[i])
    ensures Filter(s, p) == []
  {
    if |s| > 0 {
      FilterNone(s[1..], p);
    }
  }

  /** Selection distributes over concatenation; this is what "in store
      order" means. */
  lemma {:induction false} FilterConcat<T>(a: seq<T>, b: seq<T>, p: T -> bool)
    ensures Filter(a + b, p) == Filter(a, p) + Filter(b, p)
  {
    if |a| == 0 {
      assert a + b == b;
    } else {
      assert (a + b)[1..] == a[1..] + b;
      FilterConcat(a[1..], b, p);
    }
  }

  /** Two predicates that agree on every element select the same elements. */
  lemma {:induction false} FilterExt<T>(s: seq<T>, p: T -> bool, q: T -> bool)
    requires forall i :: 0 <= i < |s| ==> p(s[i]) == q(s[i])
    ensures Filter(s, p) == Filter(s, q)
  {
    if |s| > 0 {
      FilterExt(s[1..], p, q);
    }
  }

  /** Selecting by `p` and by its negation splits `s` into two parts whose
      lengths add up to `|s|`. */
  lemma {:induction false} FilterSplit<T>(s: seq<T>, p: T -> bool, q: T -> bool)
    requires forall i :: 0 <= i < |s| ==> q(s[i]) == !p(s[i])
    ensures |Filter(s, p)| + |Filter(s, q)| == |s|
  {
    if |s| > 0 {
      FilterSplit(s[1..], p, q);
    }
  }

  /** Selecting by either of two predicates that never both hold selects as
      many elements as the two selections together. */
  lemma {:induction false} FilterDisjointUnion<T>(s: seq<T>, p: T -> bool, q: T -> bool, pq: T -> bool)
    requires forall i :: 0 <= i < |s| ==> pq(s[i]) == (p(s[i]) || q(s[i])) && !(p(s[i]) && q(s[i]))
    ensures |Filter(s, pq)| == |Filter(s, p)| + |Filter(s, q)|
  {
    if |s| > 0 {
      FilterDisjointUnion(s[1..], p, q, pq);
    }
  }

  /** Selecting from a selection keeps the elements satisfying both. */
  lemma {:induction false} FilterFilter<T>(s: seq<T>, p: T -> bool, q: T -> bool, pq: T -> bool)
    requires forall i :: 0 <= i < |s| ==> pq(s[i]) == (p(s[i]) && q(s[i]))
    ensures Filter(Filter(s, p), q) == Filter(s, pq)
  {
    if |s| > 0 {
      FilterFilter(s[1..], p, q, pq);
    }
  }

  /** Two positions that both satisfy `p` both survive the selection. */
  lemma {:induction false} FilterKeepsPositions<T>(s: seq<T>, p: T -> bool, i: int, j: int)
    requires 0 <= i < j < |s| && p(s[i]) && p(s[j])
    ensures |Filter(s, p)| >= 2
  {
    if i == 0 {
      assert s[1..][j - 1] == s[j];
    } else {
      FilterKeepsPositions(s[1..], p, i - 1, j - 1);
    }
  }

  /** `rel` holds between every earlier and every later element of `s`. */
  predicate Pairwise<T>(s: seq<T>, rel: (T, T) -> bool) {
    forall i, j :: 0 <= i < j < |s| ==> rel(s[i], s[j])
  }

  lemma PairwiseTail<T>(s: seq<T>, rel: (T, T) -> bool)
    requires |s| > 0 && Pairwise(s, rel)
    ensures Pairwise(s[1..], rel)
  {
    forall i, j | 0 <= i < j < |s[1..]| ensures rel(s[1..][i], s[1..][j]) {
      assert s[1..][i] == s[i + 1] && s[1..][j] == s[j + 1];
    }
  }

  lemma PairwiseCons<T>(h: T, t: seq<T>, rel: (T, T) -> bool)
    requires Pairwise(t, rel)
    requires forall j :: 0 <= j < |t| ==> rel(h, t[j])
    ensures Pairwise([h] + t, rel)
  {
    var r := [h] + t;
    forall i, j | 0 <= i < j < |r| ensures rel(r[i], r[j]) {
      if i == 0 {
        assert r[j] == t[j - 1];
      } else {
        assert r[i] == t[i - 1] && r[j] == t[j - 1];
      }
    }
  }

  /** A relation that holds between every earlier and later element of `s`
      still holds between those of any selection from `s`. */
  lemma {:induction false} FilterPairwise<T>(s: seq<T>, p: T -> bool, rel: (T, T) -> bool)
    requires Pairwise(s, rel)
    ensures Pairwise(Filter(s, p), rel)
  {
    if |s| > 0 {
      var tail := s[1..];
      PairwiseTail(s, rel);
      FilterPairwise(tail, p, rel);
      if p(s[0]) {
        var rt := Filter(tail, p);
        forall j | 0 <= j < |rt| ensures rel(s[0], rt[j]) {
          var k :| 0 <= k < |tail| && tail[k] == rt[j];
          assert tail[k] == s[k + 1];
        }
        PairwiseCons(s[0], rt, rel);
      }
    }
  }


  /** Two equally long sequences that agree wherever either satisfies `p`
      have the same selection. */
  lemma {:induction false} FilterAgree<T>(s: seq<T>, t: seq<T>, p: T -> bool)
    requires |s| == |t|
    requires forall i :: 0 <= i < |s| && (p(s[i]) || p(t[i])) ==> s[i] == t[i]
    ensures Filter(s, p) == Filter(t, p)
  {
    if |s| > 0 {
      FilterAgree(s[1..], t[1..], p);
    }
  }

  /** Selections from two equally long sequences whose elements pass their
      predicates at the same positions are equally long. */
  lemma {:induction false} FilterLengthAgree<T>(s: seq<T>, t: seq<T>, p: T -> bool, q: T -> bool)
    requires |s| == |t|
    requires forall i :: 0 <= i < |s| ==> p(s[i]) == q(t[i])
    ensures |Filter(s, p)| == |Filter(t, q)|
  {
    if |s| > 0 {
      FilterLengthAgree(s[1..], t[1..], p, q);
    }
  }

  /** `i` is the position of the first element of `s` satisfying `p`. */
  ghost predicate FirstWhere<T>(s: seq<T>, p: T -> bool, i: int) {
    0 <= i < |s| && p(s[i]) && forall j :: 0 <= j < i ==> !p(s[j])
  }

  /** The head of a non-empty selection is the first element satisfying `p`. */
  lemma {:induction false} FilterHead<T>(s: seq<T>, p: T -> bool)
    requires |Filter(s, p)| > 0
    ensures exists i :: FirstWhere(s, p, i) && Filter(s, p)[0] == s[i]
  {
    if p(s[0]) {
      assert FirstWhere(s, p, 0);
    } else {
      FilterHead(s[1..], p);
      var i :| FirstWhere(s[1..], p, i) && Filter(s[1..], p)[0] == s[1..][i];
      assert FirstWhere(s, p, i + 1);
    }
  }

  /** `f` applied to every element of `xs`. */
  function Map<T, U>(xs: seq<T>, f: T -> U): (r: seq<U>)
    ensures |r| == |xs|
    ensures forall i :: 0 <= i < |xs| ==> r[i] == f(xs[i])
  {
    seq(|xs|, i requires 0 <= i < |xs| => f(xs[i]))
  }

  /** Mapping commutes with slicing. */
  lemma MapSlice<T, U>(xs: seq<T>, f: T -> U, lo: int, hi: int)
    requires 0 <= lo <= hi <= |xs|
    ensures Map(xs[lo..hi], f) == Map(xs, f)[lo..hi]
  {
    var a := Map(xs[lo..hi], f);
    var b := Map(xs, f)[lo..hi];
    forall i | 0 <= i < |a| ensures a[i] == b[i] {
      assert xs[lo..hi][i] == xs[lo + i];
    }
  }

  /** The page of `xs` that SQL's `OFFSET skip LIMIT limit` returns; a `None`
      limit takes everything after the skipped prefix. */
  function Window<T>(xs: seq<T>, skip: nat, limit: Option<nat>): (r: seq<T>)
    ensures var rest := if skip <= |xs| then |xs| - skip else 0;
            |r| == (if limit.Some? && limit.value < rest then limit.value else rest)
    ensures forall i :: 0 <= i < |r| ==> r[i] == xs[skip + i]
  {
    var rest := if skip <= |xs| then xs[skip..] else [];
    if limit.Some? && limit.value < |rest| then rest[..limit.value] else rest
  }

}
