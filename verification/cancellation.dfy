/** The process-wide cancellation context, reduced to the first check that sees it done.

    A stage checks the context once per iteration. A Go context never becomes
    un-cancelled, so the checks that see it done form an upward-closed set of
    iteration numbers; `CancelledAt(k)` says that check k and every later one
    see it done. */
module Cancellation {

  datatype Cancel = NotCancelled | CancelledAt(k: nat)

  predicate SeenDone(c: Cancel, check: nat) {
    c.CancelledAt? && c.k <= check
  }

  /** How many iterations of a loop over `n` items run before the check at the
      top of an iteration first sees the context done. */
  function Completed(c: Cancel, n: nat): (m: nat)
    ensures m <= n
    ensures forall j :: 0 <= j < m ==> !SeenDone(c, j)
    ensures m < n ==> SeenDone(c, m)
    ensures c.NotCancelled? ==> m == n
  {
    match c
    case NotCancelled => n
    case CancelledAt(k) => if k < n then k else n
  }
}
