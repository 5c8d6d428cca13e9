/** Whole-library walkthroughs that tie the services together. */
module Scenarios {
  import opened Wrappers
  import opened IgnoreCase
  import opened Model
  import opened SortUtils
  import opened Inventory
  import opened Registry
  import opened Lending
  import opened Overdue
  import opened Reports

  /** A book and a borrower once added are found again by ISBN and by id. */
  method AddThenFind() returns (book: Option<Book>, borrower: Option<Borrower>)
    ensures book == Some(Book("Dune", "Herrick", "111", "SciFi", 1965, "Ace", "A1"))
    ensures borrower == Some(Borrower("Amy", "B1", "amy@x", 0))
  {
    var dune := Book("Dune", "Herrick", "111", "SciFi", 1965, "Ace", "A1");
    var inventory := new BookInventory();
    inventory.AddBook(dune);
    var registry := new BorrowerRegistry();
    registry.AddBorrower(NewBorrower("Amy", "B1", "amy@x"));
    assert inventory.booksByCategory.Keys == {"SciFi"};
    assert inventory.booksByCategory["SciFi"] == [dune] by {
      assert Bucket(map[], "SciFi") == [];
    }
    book := inventory.SearchByIsbn("111");
    assert dune in inventory.booksByCategory["SciFi"];
    borrower := registry.GetBorrower("B1");
  }

  /**
   * A loan for 30 days is returned twice; the second return finds no open
   * loan and changes nothing.
   */
  method LendAndReturnTwice(today: int) returns (loan: Transaction, ledger: seq<Transaction>)
    ensures loan.isbn == "111" && loan.borrowerId == "B1" && loan.returnDate == today + 30
    ensures loan.returned
    ensures ledger == [loan]
  {
    var lending := new LendingTracker();
    loan := new Transaction("111", "B1", today, today + 30);
    lending.BorrowBook(loan);
    lending.ReturnBook("111", "B1");
    assert loan.returned;
    lending.ReturnBook("111", "B1");
    ledger := lending.GetAllTransactions();
  }

  /**
   * The overdue check reports a loan more than 14 days past its due date
   * even after it was returned, and a second check the same day reports
   * nothing.
   */
  method OverdueIgnoresReturn(loan: Transaction) returns (drained: seq<Transaction>, drainedAgain: seq<Transaction>)
    requires loan.returned
    ensures drained == [loan]
    ensures drainedAgain == []
  {
    var overdue := new OverdueManager();
    overdue.AddTransaction(loan);
    drained := overdue.CheckOverdue(loan.returnDate + 15);
    DrainedSingle(loan, drained, loan.returnDate + 15);
    drainedAgain := overdue.CheckOverdue(loan.returnDate + 15);
    assert multiset(drainedAgain) == multiset{};
  }

  /** Two checks on the same day: whatever the first drains, the second drains nothing. */
  method DrainTwice(overdue: OverdueManager, today: int) returns (first: seq<Transaction>, second: seq<Transaction>)
    modifies overdue
    ensures multiset(first) + overdue.queue == old(overdue.queue)
    ensures second == []
  {
    first := overdue.CheckOverdue(today);
    second := overdue.CheckOverdue(today);
    NothingDrainedTwice(old(overdue.queue) - multiset(first), second, today);
  }

  /** A drain of a queue holding one overdue loan returns that loan alone. */
  lemma DrainedSingle(loan: Transaction, drained: seq<Transaction>, today: int)
    requires IsOverdue(loan, today)
    requires forall t :: multiset(drained)[t] == if IsOverdue(t, today) then multiset{loan}[t] else 0
    ensures drained == [loan]
  {
    assert multiset(drained) == multiset{loan};
    assert |drained| == 1 && drained[0] in multiset(drained);
  }

  /** Removing a book's ISBN makes the ISBN search come up empty. */
  method RemoveThenSearch(inventory: BookInventory, isbn: string) returns (r: Option<Book>)
    requires inventory.Valid()
    modifies inventory
    ensures r == None
  {
    inventory.RemoveBook(isbn);
    r := inventory.SearchByIsbn(isbn);
  }

  /** Sorting "Beta", "Alpha", "alpha" gives "Alpha", "alpha", "Beta": the two equal titles keep their order. */
  method SortThreeTitles() returns (sorted: seq<Book>)
    ensures |sorted| == 3
    ensures sorted[0].title == "Alpha" && sorted[1].title == "alpha" && sorted[2].title == "Beta"
  {
    var beta := Book("Beta", "", "1", "", 0, "", "");
    var upper := Book("Alpha", "", "2", "", 0, "", "");
    var lower := Book("alpha", "", "3", "", 0, "", "");
    var books := new Book[3](i requires 0 <= i < 3 => [beta, upper, lower][i]);
    assert books[..] == [beta, upper, lower];
    MergeSortByTitle(books);
    sorted := books[..];
    SortThreeFacts(beta, upper, lower);
  }

  lemma SortThreeFacts(beta: Book, upper: Book, lower: Book)
    requires beta.title == "Beta" && upper.title == "Alpha" && lower.title == "alpha"
    ensures MergeSortOf([beta, upper, lower]) == [upper, lower, beta]
  {
    ThreeTitlesOrder(beta, upper, lower);
    var two := [upper, lower];
    assert two[..1] == [upper] && two[1..] == [lower];
    assert MergeOf([upper], [lower]) == [upper] + MergeOf([], [lower]);
    assert MergeSortOf(two) == two;
    var three := [beta, upper, lower];
    assert three[..1] == [beta] && three[1..] == two;
    assert MergeOf([beta], two) == [upper] + MergeOf([beta], [lower]);
    assert MergeOf([beta], [lower]) == [lower] + MergeOf([beta], []);
  }

  /** "Beta" sorts after both spellings of "Alpha", which compare equal. */
  lemma ThreeTitlesOrder(beta: Book, upper: Book, lower: Book)
    requires beta.title == "Beta" && upper.title == "Alpha" && lower.title == "alpha"
    ensures !TitleLe(beta, upper) && !TitleLe(beta, lower) && TitleLe(upper, lower)
  {
    assert Folded("Alpha") == Folded("alpha");
    CompareZeroIff("Alpha", "alpha");
    BetaAfter("Alpha");
    BetaAfter("alpha");
  }

  lemma BetaAfter(t: string)
    requires |t| > 0 && (t[0] == 'a' || t[0] == 'A')
    ensures CompareIgnoreCase("Beta", t) > 0
  {
    assert Folded("Beta")[0] == 'b' && Folded(t)[0] == 'a';
  }

  /** Loans of ISBNs "1", "1", "2" give the rows ("1", 2) then ("2", 1). */
  method MostBorrowedExample() returns (rows: seq<(string, nat)>)
    ensures rows == [("1", 2), ("2", 1)]
  {
    var t1 := new Transaction("1", "B1", 0, 30);
    var t2 := new Transaction("1", "B2", 0, 30);
    var t3 := new Transaction("2", "B1", 0, 30);
    var ts := [t1, t2, t3];
    rows := MostBorrowedBooks(ts);
    ExampleCounts(ts);
    TwoRows(rows);
  }

  /** Loans of "1", "1" and "2": two ISBNs, counted twice and once. */
  lemma ExampleCounts(ts: seq<Transaction>)
    requires |ts| == 3 && ts[0].isbn == "1" && ts[1].isbn == "1" && ts[2].isbn == "2"
    ensures BorrowedIsbns(ts) == {"1", "2"}
    ensures Occurrences(ts, "1") == 2 && Occurrences(ts, "2") == 1
  {
    assert ts[..2][..1][..0] == [];
    assert BorrowedIsbns(ts) == {"1", "2"} by {
      assert ts[0].isbn == "1" && ts[2].isbn == "2";
    }
  }

  /** Two distinct rows over "1" (count 2) and "2" (count 1), by count, are in that order. */
  lemma TwoRows(rows: seq<(string, nat)>)
    requires |rows| == 2
    requires forall i :: 0 <= i < 2 ==> rows[i].0 in {"1", "2"}
    requires forall i :: 0 <= i < 2 ==> rows[i].1 == if rows[i].0 == "1" then 2 else 1
    requires rows[0].0 != rows[1].0 && rows[0].1 >= rows[1].1
    ensures rows == [("1", 2), ("2", 1)]
  {
    assert rows[0].0 in {"1", "2"} && rows[1].0 in {"1", "2"};
  }
}
