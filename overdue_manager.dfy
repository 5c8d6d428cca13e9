/**
 * Loans waiting to be reported overdue, held in a priority queue ordered by
 * due date. The queue is modelled by its multiset of loans; `poll` takes a
 * loan of least due date, and which one among equal due dates is left open.
 */
module Overdue {
  import opened Model

  /** A loan is reported once its due date is strictly before `today - 14`. */
  predicate IsOverdue(t: Transaction, today: int) {
    t.returnDate < today - 14
  }

  /** `t` is a loan of least due date in `q`: what `peek` returns. */
  predicate IsLeastDue(t: Transaction, q: multiset<Transaction>) {
    t in q && forall u :: u in q ==> t.returnDate <= u.returnDate
  }

  /** Every non-empty queue has a loan whose due date is least. */
  lemma {:induction false} LeastDueExists(q: multiset<Transaction>)
    requires q != multiset{}
    ensures exists t :: IsLeastDue(t, q)
    decreases |q|
  {
    var x :| x in q;
    var rest := q - multiset{x};
    assert q == rest + multiset{x};
    if rest == multiset{} {
      LeastWithOneMore(rest, x, x);
    } else {
      LeastDueExists(rest);
      var y :| IsLeastDue(y, rest);
      LeastWithOneMore(rest, x, y);
    }
  }

  /** Adding `x` to a queue whose least loan is `y` (or to the empty queue, with `y == x`) leaves a least loan. */
  lemma LeastWithOneMore(rest: multiset<Transaction>, x: Transaction, y: Transaction)
    requires IsLeastDue(y, rest) || (rest == multiset{} && y == x)
    ensures IsLeastDue(if x.returnDate <= y.returnDate then x else y, rest + multiset{x})
  {
    var least := if x.returnDate <= y.returnDate then x else y;
    forall u | u in rest + multiset{x} ensures least.returnDate <= u.returnDate {
      if u != x {
        assert u in rest;
      }
    }
  }

  class OverdueManager {
    var queue: multiset<Transaction>

    constructor ()
      ensures queue == multiset{}
    {
      queue := multiset{};
    }

    /** Enqueues one loan. */
    method AddTransaction(t: Transaction)
      modifies this
      ensures queue == old(queue) + multiset{t}
    {
      queue := queue + multiset{t};
    }

    /**
     * Repeatedly removes a loan of least due date while that due date is
     * before `today - 14`, and returns the removed loans in removal order.
     * Whether a loan was returned plays no part.
     */
    method CheckOverdue(today: int) returns (drained: seq<Transaction>)
      modifies this
      ensures queue + multiset(drained) == old(queue)
      ensures forall t :: multiset(drained)[t] == if IsOverdue(t, today) then old(queue)[t] else 0
      ensures forall i :: 0 <= i < |drained| ==> IsOverdue(drained[i], today)
      ensures forall i, j :: 0 <= i < j < |drained| ==> drained[i].returnDate <= drained[j].returnDate
      ensures forall t :: t in queue ==> !IsOverdue(t, today)
    {
      drained := [];
      while queue != multiset{}
        invariant queue + multiset(drained) == old(queue)
        invariant forall i :: 0 <= i < |drained| ==> IsOverdue(drained[i], today)
        invariant forall i, j :: 0 <= i < j < |drained| ==> drained[i].returnDate <= drained[j].returnDate
        invariant forall i, t :: 0 <= i < |drained| && t in queue ==> drained[i].returnDate <= t.returnDate
        decreases |queue|
      {
        LeastDueExists(queue);
        var t :| IsLeastDue(t, queue);
        if !IsOverdue(t, today) {
          break;
        }
        DrainStep(queue, drained, t, today);
        queue := queue - multiset{t};
        drained := drained + [t];
      }
      DrainedSplit(old(queue), queue, drained, today);
    }
  }

  /** Moving a least, overdue loan from the queue to the end of the drained list keeps the loop's invariants. */
  lemma DrainStep(q: multiset<Transaction>, drained: seq<Transaction>, t: Transaction, today: int)
    requires IsLeastDue(t, q)
    requires IsOverdue(t, today)
    requires forall i :: 0 <= i < |drained| ==> IsOverdue(drained[i], today)
    requires forall i, j :: 0 <= i < j < |drained| ==> drained[i].returnDate <= drained[j].returnDate
    requires forall i, u :: 0 <= i < |drained| && u in q ==> drained[i].returnDate <= u.returnDate
    ensures (q - multiset{t}) + multiset(drained + [t]) == q + multiset(drained)
    ensures forall i :: 0 <= i < |drained + [t]| ==> IsOverdue((drained + [t])[i], today)
    ensures forall i, j :: 0 <= i < j < |drained + [t]| ==> (drained + [t])[i].returnDate <= (drained + [t])[j].returnDate
    ensures forall i, u :: 0 <= i < |drained + [t]| && u in q - multiset{t} ==> (drained + [t])[i].returnDate <= u.returnDate
  {
    var d := drained + [t];
    forall i, u | 0 <= i < |d| && u in q - multiset{t} ensures d[i].returnDate <= u.returnDate {
      assert u in q;
    }
  }

  /**
   * When the queue splits into what is left and what was drained, all
   * drained loans overdue and all left ones not, the drained loans are
   * exactly the overdue loans of the original queue.
   */
  lemma DrainedSplit(q0: multiset<Transaction>, q: multiset<Transaction>, drained: seq<Transaction>, today: int)
    requires q + multiset(drained) == q0
    requires forall i :: 0 <= i < |drained| ==> IsOverdue(drained[i], today)
    requires forall t :: t in q ==> !IsOverdue(t, today)
    ensures forall t :: multiset(drained)[t] == if IsOverdue(t, today) then q0[t] else 0
  {
    forall t ensures multiset(drained)[t] == if IsOverdue(t, today) then q0[t] else 0 {
      if IsOverdue(t, today) {
        assert t !in q;
      }
    }
  }

  /**
   * A queue with nothing overdue drains nothing: a second check on the same
   * day reports no loan again.
   */
  lemma NothingDrainedTwice(q: multiset<Transaction>, drained: seq<Transaction>, today: int)
    requires forall t :: t in q ==> !IsOverdue(t, today)
    requires forall t :: multiset(drained)[t] == if IsOverdue(t, today) then q[t] else 0
    ensures drained == []
  {
    forall t ensures multiset(drained)[t] == 0 {
      if IsOverdue(t, today) {
        assert t !in q;
      }
    }
    assert multiset(drained) == multiset{};
    assert |drained| == |multiset(drained)|;
  }
}
