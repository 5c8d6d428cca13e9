/** The lending ledger: every loan ever recorded, in the order recorded. */
module Lending {
  import opened Model

  /** `t` is a loan of `isbn` to `borrowerId` that has not been returned. */
  predicate IsOpenLoan(t: Transaction, isbn: string, borrowerId: string)
    reads t
  {
    t.isbn == isbn && t.borrowerId == borrowerId && !t.returned
  }

  /** The position of the earliest open loan of `isbn` to `borrowerId`, or `|ts|` when there is none. */
  function FirstOpenLoan(ts: seq<Transaction>, isbn: string, borrowerId: string): (k: nat)
    reads set t | t in ts
    ensures k <= |ts|
    ensures k < |ts| ==> IsOpenLoan(ts[k], isbn, borrowerId)
    ensures forall i :: 0 <= i < k ==> !IsOpenLoan(ts[i], isbn, borrowerId)
  {
    if ts == [] then 0
    else if IsOpenLoan(ts[0], isbn, borrowerId) then 0
    else 1 + FirstOpenLoan(ts[1..], isbn, borrowerId)
  }

  /** The distinct loan objects of `ts` that are open loans of `isbn` to `borrowerId`. */
  function OpenLoans(ts: seq<Transaction>, isbn: string, borrowerId: string): set<Transaction>
    reads set t | t in ts
  {
    set t | t in ts && IsOpenLoan(t, isbn, borrowerId)
  }

  class LendingTracker {
    var transactions: seq<Transaction>

    constructor ()
      ensures transactions == []
    {
      transactions := [];
    }

    /** Records a loan at the end of the ledger. */
    method BorrowBook(t: Transaction)
      modifies this
      ensures transactions == old(transactions) + [t]
    {
      transactions := transactions + [t];
    }

    /**
     * Marks the earliest open loan of `isbn` to `borrowerId` as returned and
     * stops; with no such loan nothing changes. The ledger itself (length,
     * order, the other fields) is untouched.
     */
    method ReturnBook(isbn: string, borrowerId: string)
      modifies set t | t in transactions
      ensures transactions == old(transactions)
      ensures var k := old(FirstOpenLoan(transactions, isbn, borrowerId));
        forall t :: t in transactions ==>
          t.returned == (old(t.returned) || (k < |transactions| && t == transactions[k]))
      ensures var k := old(FirstOpenLoan(transactions, isbn, borrowerId));
        k < |transactions| ==>
          OpenLoans(transactions, isbn, borrowerId) ==
            old(OpenLoans(transactions, isbn, borrowerId)) - {transactions[k]} &&
          |OpenLoans(transactions, isbn, borrowerId)| == old(|OpenLoans(transactions, isbn, borrowerId)|) - 1
      ensures old(FirstOpenLoan(transactions, isbn, borrowerId)) == |transactions| ==>
        forall t :: t in transactions ==> t.returned == old(t.returned)
    {
      ghost var k := FirstOpenLoan(transactions, isbn, borrowerId);
      var i := 0;
      while i < |transactions|
        invariant i <= k
        invariant forall t :: t in transactions ==> t.returned == old(t.returned)
      {
        var t := transactions[i];
        if t.isbn == isbn && t.borrowerId == borrowerId && !t.returned {
          t.returned := true;
          break;
        }
        i := i + 1;
      }
    }

    /** Every loan, returned or not, in the order recorded. */
    method GetAllTransactions() returns (all: seq<Transaction>)
      ensures all == transactions
    {
      all := transactions;
    }
  }
}
