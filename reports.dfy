/** The three reports: most borrowed books, top borrowers by fines, books per category. */
module Reports {
  import opened Model
  import opened MapSums
  import opened Ranking

  /** How many loans in `ts` are of `isbn`. */
  function Occurrences(ts: seq<Transaction>, isbn: string): (n: nat)
    ensures n <= |ts|
    ensures n == 0 <==> forall i :: 0 <= i < |ts| ==> ts[i].isbn != isbn
  {
    if ts == [] then 0
    else Occurrences(ts[..|ts| - 1], isbn) + (if ts[|ts| - 1].isbn == isbn then 1 else 0)
  }

  /** The ISBNs that occur in `ts`. */
  ghost function BorrowedIsbns(ts: seq<Transaction>): set<string> {
    set i | 0 <= i < |ts| :: ts[i].isbn
  }

  /** `m` with one more counted for `k`: `put(k, getOrDefault(k, 0) + 1)`. */
  function Bump(m: map<string, nat>, k: string): map<string, nat> {
    m[k := (if k in m then m[k] else 0) + 1]
  }

  /** The tally the counting loop has built after the loans `ts`. */
  function TallyOf(ts: seq<Transaction>): map<string, nat> {
    if ts == [] then map[]
    else Bump(TallyOf(ts[..|ts| - 1]), ts[|ts| - 1].isbn)
  }

  /** The tally has an entry for exactly the ISBNs that occur. */
  lemma {:induction false} TallyKeys(ts: seq<Transaction>)
    ensures TallyOf(ts).Keys == BorrowedIsbns(ts)
  {
    if ts != [] {
      var prefix := ts[..|ts| - 1];
      TallyKeys(prefix);
      assert BorrowedIsbns(ts) == BorrowedIsbns(prefix) + {ts[|ts| - 1].isbn} by {
        forall x | x in BorrowedIsbns(ts) ensures x in BorrowedIsbns(prefix) + {ts[|ts| - 1].isbn} {
          var j :| 0 <= j < |ts| && ts[j].isbn == x;
          if j < |ts| - 1 {
            assert prefix[j].isbn == x;
          }
        }
        forall x | x in BorrowedIsbns(prefix) ensures x in BorrowedIsbns(ts) {
          var j :| 0 <= j < |prefix| && prefix[j].isbn == x;
          assert ts[j].isbn == x;
        }
      }
    }
  }

  /** Each entry of the tally is the number of loans of its ISBN. */
  lemma {:induction false} TallyCounts(ts: seq<Transaction>)
    ensures forall isbn :: isbn in TallyOf(ts) ==> TallyOf(ts)[isbn] == Occurrences(ts, isbn)
  {
    if ts != [] {
      var prefix := ts[..|ts| - 1];
      TallyCounts(prefix);
      TallyKeys(prefix);
      var last := ts[|ts| - 1].isbn;
      if last !in TallyOf(prefix) {
        assert Occurrences(prefix, last) == 0 by {
          forall j | 0 <= j < |prefix| ensures prefix[j].isbn != last {
            assert prefix[j].isbn in BorrowedIsbns(prefix);
          }
        }
      }
    }
  }

  /** The counts add up to the number of loans. */
  lemma {:induction false} TallySum(ts: seq<Transaction>)
    ensures SumValues(TallyOf(ts)) == |ts|
  {
    if ts == [] {
      assert TallyOf(ts) == map[];
    } else {
      TallySum(ts[..|ts| - 1]);
      SumValuesBump(TallyOf(ts[..|ts| - 1]), ts[|ts| - 1].isbn, 1);
    }
  }

  /**
   * The per-ISBN tally of `mostBorrowedBooks`: one entry per ISBN that
   * occurs, holding its number of loans; the counts add up to the number of loans.
   */
  method CountByIsbn(ts: seq<Transaction>) returns (count: map<string, nat>)
    ensures count.Keys == BorrowedIsbns(ts)
    ensures forall isbn :: isbn in count ==> count[isbn] == Occurrences(ts, isbn)
    ensures SumValues(count) == |ts|
  {
    count := map[];
    for i := 0 to |ts|
      invariant count == TallyOf(ts[..i])
    {
      assert ts[..i + 1][..i] == ts[..i];
      count := count[ts[i].isbn := (if ts[i].isbn in count then count[ts[i].isbn] else 0) + 1];
    }
    assert ts[..|ts|] == ts;
    TallyKeys(ts);
    TallyCounts(ts);
    TallySum(ts);
  }

  /** The entries of a map, each once, in the map's (unspecified) iteration order. */
  method EntriesOf(count: map<string, nat>) returns (es: seq<(string, nat)>)
    ensures |es| == |count|
    ensures forall i :: 0 <= i < |es| ==> es[i].0 in count && count[es[i].0] == es[i].1
    ensures forall isbn :: isbn in count ==> (isbn, count[isbn]) in es
    ensures forall i, j :: 0 <= i < j < |es| ==> es[i].0 != es[j].0
  {
    es := [];
    var pending := count.Keys;
    while pending != {}
      invariant pending <= count.Keys
      invariant |es| + |pending| == |count|
      invariant forall isbn :: isbn in count && isbn !in pending ==> (isbn, count[isbn]) in es
      invariant forall i :: 0 <= i < |es| ==>
        es[i].0 in count && es[i].0 !in pending && count[es[i].0] == es[i].1
      invariant forall i, j :: 0 <= i < j < |es| ==> es[i].0 != es[j].0
      decreases |pending|
    {
      var isbn :| isbn in pending;
      es := es + [(isbn, count[isbn])];
      pending := pending - {isbn};
    }
  }

  /** No row of `rows` is about `isbn`. */
  predicate NotListed(rows: seq<(string, nat)>, isbn: string) {
    forall j :: 0 <= j < |rows| ==> rows[j].0 != isbn
  }

  function CountKey(e: (string, nat)): int {
    e.1
  }

  /**
   * The rows of the most-borrowed report: at most five (ISBN, count) pairs,
   * counts non-increasing, each ISBN once with its true count, and no ISBN
   * left out was borrowed more often than one listed.
   */
  method MostBorrowedBooks(ts: seq<Transaction>) returns (rows: seq<(string, nat)>)
    ensures |rows| == if |BorrowedIsbns(ts)| <= 5 then |BorrowedIsbns(ts)| else 5
    ensures forall i :: 0 <= i < |rows| ==> rows[i].0 in BorrowedIsbns(ts) && rows[i].1 == Occurrences(ts, rows[i].0)
    ensures forall i, j :: 0 <= i < j < |rows| ==> rows[i].0 != rows[j].0
    ensures forall i, j :: 0 <= i < j < |rows| ==> rows[i].1 >= rows[j].1
    ensures forall isbn, i :: isbn in BorrowedIsbns(ts) && NotListed(rows, isbn) && 0 <= i < |rows| ==>
      Occurrences(ts, isbn) <= rows[i].1
  {
    var entries := CountedEntries(ts);
    rows := TopN(entries, CountKey, 5);
    TopNSize(entries, CountKey, 5);
    RowsTrue(ts, entries, rows);
    RowsDistinct(entries, rows);
    RowsSorted(entries);
    RowsDominate(ts, entries);
  }

  /** The top rows of the entries are in non-increasing order of count. */
  lemma RowsSorted(entries: seq<(string, nat)>)
    ensures var rows := TopN(entries, CountKey, 5);
      forall i, j :: 0 <= i < j < |rows| ==> rows[i].1 >= rows[j].1
  {
    TopNSorted(entries, CountKey, 5);
  }

  /** The entry set of the tally of `ts`: each borrowed ISBN once, with its number of loans. */
  method CountedEntries(ts: seq<Transaction>) returns (entries: seq<(string, nat)>)
    ensures |entries| == |BorrowedIsbns(ts)|
    ensures forall i :: 0 <= i < |entries| ==>
      entries[i].0 in BorrowedIsbns(ts) && entries[i].1 == Occurrences(ts, entries[i].0)
    ensures forall isbn :: isbn in BorrowedIsbns(ts) ==> (isbn, Occurrences(ts, isbn)) in entries
    ensures forall i, j :: 0 <= i < j < |entries| ==> entries[i].0 != entries[j].0
  {
    var count := CountByIsbn(ts);
    entries := EntriesOf(count);
    assert count.Keys == BorrowedIsbns(ts);
  }

  /** Rows drawn from entries that carry true counts carry true counts. */
  lemma RowsTrue(ts: seq<Transaction>, entries: seq<(string, nat)>, rows: seq<(string, nat)>)
    requires forall i :: 0 <= i < |entries| ==>
      entries[i].0 in BorrowedIsbns(ts) && entries[i].1 == Occurrences(ts, entries[i].0)
    requires multiset(rows) <= multiset(entries)
    ensures forall i :: 0 <= i < |rows| ==> rows[i].0 in BorrowedIsbns(ts) && rows[i].1 == Occurrences(ts, rows[i].0)
  {
    forall i | 0 <= i < |rows| ensures rows[i].0 in BorrowedIsbns(ts) && rows[i].1 == Occurrences(ts, rows[i].0) {
      assert rows[i] in multiset(entries);
    }
  }

  /** An entry occurs at most once in entries with distinct keys. */
  lemma EntryOnce(entries: seq<(string, nat)>, k: nat)
    requires forall i, j :: 0 <= i < j < |entries| ==> entries[i].0 != entries[j].0
    requires k < |entries|
    ensures multiset(entries)[entries[k]] == 1
  {
    var e := entries[k];
    assert entries == entries[..k] + [e] + entries[k + 1..];
    forall m | 0 <= m < |entries| && m != k ensures entries[m] != e {
      assert entries[m].0 != entries[k].0;
    }
    assert e !in entries[..k];
    assert e !in entries[k + 1..];
  }

  /** Rows drawn from entries with distinct keys have distinct keys. */
  lemma RowsDistinct(entries: seq<(string, nat)>, rows: seq<(string, nat)>)
    requires forall i, j :: 0 <= i < j < |entries| ==> entries[i].0 != entries[j].0
    requires multiset(rows) <= multiset(entries)
    ensures forall i, j :: 0 <= i < j < |rows| ==> rows[i].0 != rows[j].0
  {
    forall i, j | 0 <= i < j < |rows| ensures rows[i].0 != rows[j].0 {
      if rows[i].0 == rows[j].0 {
        assert rows[i] in multiset(entries) && rows[j] in multiset(entries);
        var a :| 0 <= a < |entries| && entries[a] == rows[i];
        var b :| 0 <= b < |entries| && entries[b] == rows[j];
        assert a == b;
        RowsRepeat(rows, i, j);
        EntryOnce(entries, a);
        assert false;
      }
    }
  }

  /** Two equal rows make that row occur at least twice. */
  lemma RowsRepeat(rows: seq<(string, nat)>, i: nat, j: nat)
    requires i < j < |rows| && rows[i] == rows[j]
    ensures multiset(rows)[rows[i]] >= 2
  {
    assert rows == rows[..i] + [rows[i]] + rows[i + 1..j] + [rows[j]] + rows[j + 1..];
  }

  /** No borrowed ISBN left out of the rows has a larger count than a listed one. */
  lemma RowsDominate(ts: seq<Transaction>, entries: seq<(string, nat)>)
    requires forall isbn :: isbn in BorrowedIsbns(ts) ==> (isbn, Occurrences(ts, isbn)) in entries
    ensures var rows := TopN(entries, CountKey, 5);
      forall isbn, i :: isbn in BorrowedIsbns(ts) && NotListed(rows, isbn) && 0 <= i < |rows| ==>
        Occurrences(ts, isbn) <= rows[i].1
  {
    var rows := TopN(entries, CountKey, 5);
    TopNSize(entries, CountKey, 5);
    TopNDominates(entries, CountKey, 5);
    forall isbn, i | isbn in BorrowedIsbns(ts) && NotListed(rows, isbn) && 0 <= i < |rows|
      ensures Occurrences(ts, isbn) <= rows[i].1
    {
      var e := (isbn, Occurrences(ts, isbn));
      assert e in entries;
      assert e !in rows;
      assert e in multiset(entries) - multiset(rows);
      assert rows[i] in rows;
      assert CountKey(e) <= CountKey(rows[i]);
    }
  }

  function Fines(b: Borrower): int {
    b.fines
  }

  /**
   * The rows of the top-borrowers report: at most five borrowers from the
   * input, in non-increasing order of fines, and no borrower left out owes
   * more than one listed.
   */
  function TopBorrowersByFines(bs: seq<Borrower>): (r: seq<Borrower>)
    ensures |r| == if |bs| <= 5 then |bs| else 5
    ensures multiset(r) <= multiset(bs)
    ensures forall i, j :: 0 <= i < j < |r| ==> r[i].fines >= r[j].fines
    ensures forall x, y :: x in r && y in multiset(bs) - multiset(r) ==> y.fines <= x.fines
  {
    TopBorrowersFacts(bs);
    TopN(bs, Fines, 5)
  }

  lemma TopBorrowersFacts(bs: seq<Borrower>)
    ensures |TopN(bs, Fines, 5)| == if |bs| <= 5 then |bs| else 5
    ensures multiset(TopN(bs, Fines, 5)) <= multiset(bs)
    ensures forall i, j :: 0 <= i < j < |TopN(bs, Fines, 5)| ==> TopN(bs, Fines, 5)[i].fines >= TopN(bs, Fines, 5)[j].fines
    ensures forall x, y :: x in TopN(bs, Fines, 5) && y in multiset(bs) - multiset(TopN(bs, Fines, 5)) ==>
      y.fines <= x.fines
  {
    var r := TopN(bs, Fines, 5);
    TopNSize(bs, Fines, 5);
    TopNSorted(bs, Fines, 5);
    TopNDominates(bs, Fines, 5);
    forall i, j | 0 <= i < j < |r| ensures r[i].fines >= r[j].fines {
      assert Fines(r[i]) >= Fines(r[j]);
    }
    forall x, y | x in r && y in multiset(bs) - multiset(r) ensures y.fines <= x.fines {
      assert Fines(y) <= Fines(x);
    }
  }

  /** One (category, number of books) row per category, in the map's (unspecified) iteration order. */
  method InventoryByCategory(booksByCategory: map<string, seq<Book>>) returns (rows: seq<(string, nat)>)
    ensures |rows| == |booksByCategory|
    ensures forall i :: 0 <= i < |rows| ==>
      rows[i].0 in booksByCategory && rows[i].1 == |booksByCategory[rows[i].0]|
    ensures forall c :: c in booksByCategory ==> (c, |booksByCategory[c]|) in rows
    ensures forall i, j :: 0 <= i < j < |rows| ==> rows[i].0 != rows[j].0
  {
    rows := [];
    var pending := booksByCategory.Keys;
    while pending != {}
      invariant pending <= booksByCategory.Keys
      invariant |rows| + |pending| == |booksByCategory|
      invariant forall c :: c in booksByCategory && c !in pending ==> (c, |booksByCategory[c]|) in rows
      invariant forall i :: 0 <= i < |rows| ==>
        rows[i].0 in booksByCategory && rows[i].0 !in pending && rows[i].1 == |booksByCategory[rows[i].0]|
      invariant forall i, j :: 0 <= i < j < |rows| ==> rows[i].0 != rows[j].0
      decreases |pending|
    {
      var c :| c in pending;
      rows := rows + [(c, |booksByCategory[c]|)];
      pending := pending - {c};
    }
  }
}
