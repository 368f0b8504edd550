/** Transactions as the pager provides them to the statements: the state that the running transaction sees,
    and the one it would be rolled back to. */
module Transactions {
  import opened Status
  import PagerViews

  // ---- The steps of a transaction ------------------------------------------------------------

  /** What the running transaction sees, what it would be rolled back to, and where it stands. The pager
      and the session below take the same steps. */
  datatype Snapshot<S> = Snapshot(now: S, saved: S, status: PagerViews.TransactionStatus)

  ghost predicate BeginStep<S>(a: Snapshot<S>, b: Snapshot<S>, r: Outcome) {
    if r.Done? then a.status == PagerViews.Inactive && a.now == a.saved && b == a.(status := PagerViews.Active)
    else b == a
  }

  /** Commit succeeds, or leaves the transaction unresolved, or is refused. */
  ghost predicate CommitStep<S>(a: Snapshot<S>, b: Snapshot<S>, r: Outcome) {
    if r.Done? then a.status == PagerViews.Active && b == Snapshot(a.now, a.now, PagerViews.Inactive)
    else b == a || (a.status == PagerViews.Active && b == a.(status := PagerViews.Unresolved))
  }

  ghost predicate RollbackStep<S>(a: Snapshot<S>, b: Snapshot<S>, r: Outcome) {
    if r.Done? then a.status in {PagerViews.Active, PagerViews.FailedTransaction} &&
      b == Snapshot(a.saved, a.saved, PagerViews.Inactive)
    else b == a
  }

  ghost predicate FailStep<S>(a: Snapshot<S>, b: Snapshot<S>) {
    b == a || (a.status in {PagerViews.Active, PagerViews.FailedTransaction} &&
               b == a.(status := PagerViews.FailedTransaction))
  }

  class PagerSession<S> {
    var now: S
    var saved: S
    var status: PagerViews.TransactionStatus

    constructor (s: S)
      ensures now == saved == s && status == PagerViews.Inactive
    {
      now, saved, status := s, s, PagerViews.Inactive;
    }

    ghost function Current(): Snapshot<S>
      reads this
    {
      Snapshot(now, saved, status)
    }

    method Begin()
      requires status == PagerViews.Inactive && now == saved
      modifies this`status
      ensures status == PagerViews.Active && BeginStep(old(Current()), Current(), Done)
    {
      status := PagerViews.Active;
    }

    method Commit() returns (r: Outcome)
      requires status == PagerViews.Active
      modifies this`saved, this`status
      ensures r.Done? ==> status == PagerViews.Inactive && saved == now
      ensures r.Failed? ==> saved == old(saved) && (status == PagerViews.Unresolved || status == PagerViews.Active)
      ensures r == Failed(IoError) <==> status == PagerViews.Unresolved
      ensures r.Failed? ==> r.code == IoError || r.code == TransactionError
      ensures CommitStep(old(Current()), Current(), r)
    {
      var logged, released: bool := *, *;
      if !released {
        return Failed(TransactionError);
      }
      if !logged {
        status := PagerViews.Unresolved;
        return Failed(IoError);
      }
      saved, status := now, PagerViews.Inactive;
      r := Done;
    }

    method Rollback() returns (r: Outcome)
      requires status == PagerViews.Active || status == PagerViews.FailedTransaction
      modifies this`now, this`status
      ensures r.Done? ==> status == PagerViews.Inactive && now == saved
      ensures r.Failed? ==> unchanged(this) && r.code == InternalError
      ensures RollbackStep(old(Current()), Current(), r)
    {
      var released: bool := *;
      if !released {
        return Failed(InternalError);
      }
      now, status := saved, PagerViews.Inactive;
      r := Done;
    }

    /** handle_mutation_failure: a statement that began its own transaction rolls it back. */
    method HandleMutationFailure(failure: Outcome, ownsTransaction: bool) returns (r: Outcome)
      requires failure.Failed? && status == PagerViews.Active
      modifies this`now, this`status
      ensures r.Failed? && (r == failure || r.code == InternalError)
      ensures !ownsTransaction ==> unchanged(this) && r == failure
      ensures ownsTransaction ==> (status == PagerViews.Inactive && now == saved && r == failure) || unchanged(this)
    {
      if !ownsTransaction {
        return failure;
      }
      r := Rollback();
      if r.Done? {
        r := failure;
      }
    }

    /** How a statement ends, given how its work on the trees went. */
    method Finish(work: Outcome, ownsTransaction: bool) returns (r: Outcome)
      requires status == PagerViews.Active
      modifies this`now, this`saved, this`status
      ensures r.Done? ==> work.Done? && now == old(now)
      ensures r.Done? ==>
        if ownsTransaction then status == PagerViews.Inactive && saved == now
        else status == PagerViews.Active && saved == old(saved)
      ensures r.Failed? ==> saved == old(saved)
      ensures r.Failed? && !ownsTransaction ==> status == PagerViews.Active
      ensures r.Failed? && status == PagerViews.Inactive ==> now == saved
      ensures r.Failed? ==> r == work || r.code == InternalError || r.code == IoError || r.code == TransactionError
    {
      if work.Failed? {
        r := HandleMutationFailure(work, ownsTransaction);
      } else if !ownsTransaction {
        r := Done;
      } else {
        r := Commit();
      }
    }

    /** What execute does with the result of a statement: failing inside a transaction fails it. */
    method Conclude(result: Outcome)
      modifies this`status
      ensures status == if result.Failed? && old(status) != PagerViews.Inactive && old(status) != PagerViews.Unresolved
                        then PagerViews.FailedTransaction else old(status)
      ensures FailStep(old(Current()), Current())
    {
      if result.Failed? && status != PagerViews.Inactive && status != PagerViews.Unresolved {
        status := PagerViews.FailedTransaction;
      }
    }

    /** Statements other than ROLLBACK are refused in a failed or unresolved transaction. */
    predicate Accepting()
      reads this
    {
      status == PagerViews.Inactive || status == PagerViews.Active
    }

    /** What a failed statement leaves: the state before it, or a transaction that accepts nothing but
        ROLLBACK (or nothing at all, when unresolved) and still knows what to roll back to. */
    twostate predicate Harmless()
      reads this
    {
      if !old(Accepting()) then unchanged(this)
      else if old(status) == PagerViews.Active then status == PagerViews.FailedTransaction && saved == old(saved)
      else
        saved == old(saved) &&
        ((status == PagerViews.Inactive && now == old(now)) || status == PagerViews.FailedTransaction ||
         status == PagerViews.Unresolved)
    }

    /** What a successful statement leaves: its effect, committed if it ran on its own. */
    twostate predicate TookEffect()
      reads this
    {
      old(Accepting()) && status == old(status) && saved == (if status == PagerViews.Inactive then now else old(saved))
    }
  }
}
