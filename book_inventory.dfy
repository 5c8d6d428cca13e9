/**
 * The catalogue: books grouped by category in a map from category name to
 * the list of that category's books, in insertion order.
 */
module Inventory {
  import opened Wrappers
  import opened IgnoreCase
  import opened Model
  import opened SortUtils
  import opened SearchUtils
  import opened MapSums

  type Index = map<string, seq<Book>>

  /** What `removeIf` leaves of a bucket: the books whose ISBN differs, in order. */
  function WithoutIsbn(bucket: seq<Book>, isbn: string): (r: seq<Book>)
    ensures |r| <= |bucket|
    ensures forall b :: b in r <==> b in bucket && b.isbn != isbn
  {
    if bucket == [] then []
    else (if bucket[0].isbn == isbn then [] else [bucket[0]]) + WithoutIsbn(bucket[1..], isbn)
  }

  /** Filtering works piece by piece, so the books that stay keep their relative order. */
  lemma {:induction false} WithoutIsbnAppend(a: seq<Book>, b: seq<Book>, isbn: string)
    ensures WithoutIsbn(a + b, isbn) == WithoutIsbn(a, isbn) + WithoutIsbn(b, isbn)
  {
    if a == [] {
      assert a + b == b;
    } else {
      assert (a + b)[1..] == a[1..] + b;
      WithoutIsbnAppend(a[1..], b, isbn);
    }
  }

  /** A bucket holding no book with that ISBN is left as it is. */
  lemma {:induction false} WithoutIsbnAbsent(bucket: seq<Book>, isbn: string)
    requires forall i :: 0 <= i < |bucket| ==> bucket[i].isbn != isbn
    ensures WithoutIsbn(bucket, isbn) == bucket
  {
    if bucket != [] {
      WithoutIsbnAbsent(bucket[1..], isbn);
    }
  }

  /** Every key of `keys` exactly once: one possible iteration order of a hash map. */
  ghost predicate IsKeyOrder(order: seq<string>, keys: set<string>) {
    (forall i, j :: 0 <= i < j < |order| ==> order[i] != order[j]) &&
    (forall k :: k in order <==> k in keys)
  }

  /** The buckets named by `order`, concatenated in that order. */
  function Flatten(m: Index, order: seq<string>): seq<Book>
    requires forall k :: k in order ==> k in m
  {
    if order == [] then []
    else Flatten(m, order[..|order| - 1]) + m[order[|order| - 1]]
  }

  /** `b` sits at some position of `s`, has ISBN `isbn`, and no book before it does. */
  ghost predicate FirstWithIsbn(s: seq<Book>, isbn: string, b: Book) {
    exists i :: 0 <= i < |s| && s[i] == b && b.isbn == isbn && forall j :: 0 <= j < i ==> s[j].isbn != isbn
  }

  /**
   * A bucket lies contiguously in the concatenation, so the first book with
   * an ISBN in the concatenation is also the first one in its own bucket.
   */
  lemma {:induction false} FlattenFirstInBucket(m: Index, order: seq<string>, isbn: string, i: nat)
    requires forall k :: k in order ==> k in m
    requires i < |Flatten(m, order)| && Flatten(m, order)[i].isbn == isbn
    requires forall j :: 0 <= j < i ==> Flatten(m, order)[j].isbn != isbn
    ensures exists c :: c in m && FirstWithIsbn(m[c], isbn, Flatten(m, order)[i])
    decreases |order|
  {
    var front := order[..|order| - 1];
    var c := order[|order| - 1];
    var prefix := Flatten(m, front);
    var all := Flatten(m, order);
    assert all == prefix + m[c];
    if i < |prefix| {
      forall j | 0 <= j <= i ensures prefix[j] == all[j] { }
      FlattenFirstInBucket(m, front, isbn, i);
    } else {
      var p := i - |prefix|;
      forall q | 0 <= q < p ensures m[c][q].isbn != isbn {
        assert m[c][q] == all[|prefix| + q];
      }
      assert m[c][p] == all[i];
      assert FirstWithIsbn(m[c], isbn, all[i]);
    }
  }

  /** The number of books in all buckets together. */
  ghost function BookCount(m: Index): nat {
    SumValues(Sizes(m))
  }

  /** Every bucket holds only books of its own category. */
  ghost predicate CategoriesAgree(m: Index) {
    forall c, b :: c in m && b in m[c] ==> b.category == c
  }

  lemma {:induction false} FlattenMembers(m: Index, order: seq<string>, b: Book)
    requires forall k :: k in order ==> k in m
    ensures b in Flatten(m, order) <==> exists k :: k in order && b in m[k]
  {
    if order != [] {
      var prefix := order[..|order| - 1];
      FlattenMembers(m, prefix, b);
      assert forall k :: k in order <==> k in prefix || k == order[|order| - 1];
    }
  }

  /** Flattening only looks at the buckets it names. */
  lemma {:induction false} FlattenRestrict(m: Index, m': Index, order: seq<string>)
    requires forall k :: k in order ==> k in m && k in m' && m[k] == m'[k]
    ensures Flatten(m, order) == Flatten(m', order)
  {
    if order != [] {
      FlattenRestrict(m, m', order[..|order| - 1]);
    }
  }

  /** Dropping the last key of an order gives an order of the map without that key. */
  lemma PrefixKeyOrder(m: Index, order: seq<string>)
    requires order != [] && IsKeyOrder(order, m.Keys)
    ensures IsKeyOrder(order[..|order| - 1], (m - {order[|order| - 1]}).Keys)
  {
    var last := order[|order| - 1];
    var prefix := order[..|order| - 1];
    forall k ensures k in prefix <==> k in (m - {last}).Keys {
      if k in prefix {
        var i :| 0 <= i < |prefix| && prefix[i] == k;
        assert order[i] == k;
      }
      assert k in order <==> k in prefix || k == last;
    }
  }

  /** The bucket sizes of `m`. */
  ghost function Sizes(m: Index): (sizes: map<string, nat>)
    ensures sizes.Keys == m.Keys
    ensures forall c :: c in sizes ==> sizes[c] == |m[c]|
  {
    map c | c in m :: |m[c]|
  }

  lemma SizesRemove(m: Index, c: string)
    ensures Sizes(m) - {c} == Sizes(m - {c})
  {
  }

  /** Flattening every bucket once gives as many books as the buckets hold. */
  lemma {:induction false} FlattenLength(m: Index, order: seq<string>)
    requires IsKeyOrder(order, m.Keys)
    ensures |Flatten(m, order)| == BookCount(m)
    decreases |order|
  {
    if order == [] {
      assert m.Keys == {};
      assert Sizes(m) == map[];
    } else {
      var last := order[|order| - 1];
      var prefix := order[..|order| - 1];
      var m' := m - {last};
      PrefixKeyOrder(m, order);
      FlattenRestrict(m, m', prefix);
      FlattenLength(m', prefix);
      SumValuesRemove(Sizes(m), last);
      SizesRemove(m, last);
    }
  }

  /** A sorted copy holds the same books as the original, in title order. */
  lemma SortedCopy(all: seq<Book>)
    ensures SortedByTitle(MergeSortOf(all))
    ensures forall b :: b in MergeSortOf(all) <==> b in all
  {
    MergeSortSorted(all);
    MergeSortPermutation(all);
    forall b ensures b in MergeSortOf(all) <==> b in all {
      assert b in MergeSortOf(all) <==> b in multiset(MergeSortOf(all));
      assert b in all <==> b in multiset(all);
    }
  }

  /** The index after `addBook(b)`: `b` appended to its category's bucket, created empty if absent. */
  function WithBook(m: Index, b: Book): (m': Index)
    ensures m'.Keys == m.Keys + {b.category}
    ensures forall c :: c in m && c != b.category ==> m'[c] == m[c]
    ensures m'[b.category] == Bucket(m, b.category) + [b]
  {
    m[b.category := Bucket(m, b.category) + [b]]
  }

  /** The bucket of category `c`, empty when there is none yet. */
  function Bucket(m: Index, c: string): seq<Book> {
    if c in m then m[c] else []
  }

  /** Adding a book to the bucket of its own category keeps every bucket consistent. */
  lemma WithBookAgrees(m: Index, b: Book)
    requires CategoriesAgree(m)
    ensures CategoriesAgree(WithBook(m, b))
  {
    var m' := WithBook(m, b);
    forall c: string, x: Book | c in m' && x in m'[c] ensures x.category == c {
      if c == b.category && c in m {
        assert x in m[c] || x == b;
      }
    }
  }

  /** Appending one book to one bucket adds one to the count. */
  lemma AddOneCount(m: Index, b: Book)
    ensures BookCount(WithBook(m, b)) == BookCount(m) + 1
  {
    var c := b.category;
    SizesWithBook(m, b);
    assert |Bucket(m, c)| == if c in Sizes(m) then Sizes(m)[c] else 0;
    SumValuesBump(Sizes(m), c, 1);
  }

  /** Adding a book grows the size of its category's bucket by one and no other. */
  lemma SizesWithBook(m: Index, b: Book)
    ensures Sizes(WithBook(m, b)) == Sizes(m)[b.category := |Bucket(m, b.category)| + 1]
  {
    var c := b.category;
    var m' := WithBook(m, b);
    var bumped := Sizes(m)[c := |Bucket(m, c)| + 1];
    assert Sizes(m').Keys == bumped.Keys;
    forall k | k in bumped ensures Sizes(m')[k] == bumped[k] {
      if k == c {
        assert |m'[c]| == |Bucket(m, c)| + 1;
      }
    }
  }

  class BookInventory {
    var booksByCategory: Index

    ghost predicate Valid()
      reads this
    {
      CategoriesAgree(booksByCategory)
    }

    constructor ()
      ensures booksByCategory == map[] && Valid()
    {
      booksByCategory := map[];
    }

    /** Appends `book` to the bucket of its category, creating the bucket if absent. */
    method AddBook(book: Book)
      requires Valid()
      modifies this
      ensures Valid()
      ensures booksByCategory == WithBook(old(booksByCategory), book)
      ensures BookCount(booksByCategory) == old(BookCount(booksByCategory)) + 1
    {
      AddOneCount(booksByCategory, book);
      WithBookAgrees(booksByCategory, book);
      booksByCategory := WithBook(booksByCategory, book);
    }

    /**
     * Deletes every book with ISBN `isbn` from every bucket, one bucket at a
     * time in whatever order the map yields them. Buckets left empty stay.
     */
    method RemoveBook(isbn: string)
      requires Valid()
      modifies this
      ensures Valid()
      ensures booksByCategory.Keys == old(booksByCategory).Keys
      ensures forall c :: c in booksByCategory ==> booksByCategory[c] == WithoutIsbn(old(booksByCategory)[c], isbn)
      ensures forall c, b :: c in booksByCategory && b in booksByCategory[c] ==> b.isbn != isbn
    {
      ghost var m0 := booksByCategory;
      var pending := booksByCategory.Keys;
      while pending != {}
        invariant pending <= m0.Keys && booksByCategory.Keys == m0.Keys
        invariant forall c :: c in booksByCategory ==>
          booksByCategory[c] == if c in pending then m0[c] else WithoutIsbn(m0[c], isbn)
        decreases |pending|
      {
        var c :| c in pending;
        booksByCategory := booksByCategory[c := WithoutIsbn(booksByCategory[c], isbn)];
        pending := pending - {c};
      }
    }

    /** All books: the buckets concatenated in the map's (unspecified) iteration order. */
    method GetAllBooks() returns (all: seq<Book>)
      ensures exists order :: IsKeyOrder(order, booksByCategory.Keys) && all == Flatten(booksByCategory, order)
      ensures |all| == BookCount(booksByCategory)
      ensures forall b :: b in all <==> exists c :: c in booksByCategory && b in booksByCategory[c]
    {
      all := [];
      ghost var order: seq<string> := [];
      var pending := booksByCategory.Keys;
      while pending != {}
        invariant pending <= booksByCategory.Keys
        invariant forall i, j :: 0 <= i < j < |order| ==> order[i] != order[j]
        invariant forall k :: k in order <==> k in booksByCategory && k !in pending
        invariant all == Flatten(booksByCategory, order)
        decreases |pending|
      {
        var c :| c in pending;
        assert order + [c] == order + [c] && (order + [c])[..|order|] == order;
        all := all + booksByCategory[c];
        order := order + [c];
        pending := pending - {c};
      }
      FlattenLength(booksByCategory, order);
      forall b ensures b in all <==> exists c :: c in booksByCategory && b in booksByCategory[c] {
        FlattenMembers(booksByCategory, order, b);
      }
    }

    /**
     * The first book with ISBN `isbn` in the list `GetAllBooks` builds, for
     * some iteration order of the buckets, so also the first such book of
     * its own bucket; `None` exactly when there is none.
     */
    method SearchByIsbn(isbn: string) returns (r: Option<Book>)
      ensures r.None? <==> forall c, b :: c in booksByCategory && b in booksByCategory[c] ==> b.isbn != isbn
      ensures r.Some? ==> r.value.isbn == isbn && exists c :: c in booksByCategory && r.value in booksByCategory[c]
      ensures r.Some? ==>
        exists order :: IsKeyOrder(order, booksByCategory.Keys) && FirstWithIsbn(Flatten(booksByCategory, order), isbn, r.value)
      ensures r.Some? ==> exists c :: c in booksByCategory && FirstWithIsbn(booksByCategory[c], isbn, r.value)
    {
      var all := GetAllBooks();
      r := LinearSearchByIsbn(all, isbn);
      if r.Some? {
        assert r.value in all;
        ghost var order :| IsKeyOrder(order, booksByCategory.Keys) && all == Flatten(booksByCategory, order);
        ghost var i :| 0 <= i < |all| && all[i] == r.value && all[i].isbn == isbn
                 && forall j :: 0 <= j < i ==> all[j].isbn != isbn;
        assert FirstWithIsbn(Flatten(booksByCategory, order), isbn, r.value);
        FlattenFirstInBucket(booksByCategory, order, isbn, i);
      } else {
        forall c, b | c in booksByCategory && b in booksByCategory[c] ensures b.isbn != isbn {
          assert b in all;
        }
      }
    }

    /**
     * Sorts a fresh copy of all books by title and binary-searches it; the
     * buckets themselves are not touched.
     */
    method SearchByTitle(title: string) returns (r: Option<Book>)
      ensures r.Some? ==>
        CompareIgnoreCase(r.value.title, title) == 0 &&
        exists c :: c in booksByCategory && r.value in booksByCategory[c]
      ensures r.None? ==> forall c, b :: c in booksByCategory && b in booksByCategory[c] ==>
        CompareIgnoreCase(b.title, title) != 0
    {
      var all := GetAllBooks();
      var sorted := new Book[|all|](i requires 0 <= i < |all| => all[i]);
      assert sorted[..] == all;
      MergeSortByTitle(sorted);
      SortedCopy(all);
      r := BinarySearchByTitle(sorted[..], title);
      if r.None? {
        forall c, b | c in booksByCategory && b in booksByCategory[c]
          ensures CompareIgnoreCase(b.title, title) != 0
        {
          assert b in sorted[..];
          var i :| 0 <= i < sorted.Length && sorted[i] == b;
        }
      }
    }

    /** The category index itself; every bucket holds only its own category's books. */
    function GetBooksByCategory(): (m: Index)
      requires Valid()
      reads this
      ensures m == booksByCategory
      ensures forall c, b :: c in m && b in m[c] ==> b.category == c
    {
      booksByCategory
    }
  }
}
