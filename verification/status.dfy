/** The four status codes a friendship record can carry. */
module Status {
  import Php
  import opened Wrappers

  const Pending: int := 0
  const Accepted: int := 1
  const Denied: int := 2
  const Blocked: int := 3

  /** A code is one of the four enumerated statuses. */
  predicate IsStatus(code: int) {
    code == Pending || code == Accepted || code == Denied || code == Blocked
  }

  /** The codes are the distinct integers 0..3. */
  lemma CodesAreDistinct()
    ensures Pending != Accepted && Pending != Denied && Pending != Blocked
    ensures Accepted != Denied && Accepted != Blocked && Denied != Blocked
    ensures forall c :: IsStatus(c) <==> 0 <= c <= 3
  {}

  /** Pending is the only status code that PHP's `empty()` treats as absent. */
  lemma OnlyPendingIsEmpty(code: int)
    requires IsStatus(code)
    ensures Php.Empty(Some(code)) <==> code == Pending
  {}

}
