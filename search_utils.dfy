/** The two lookups over a list of books: by ISBN (linear) and by title (binary). */
module SearchUtils {
  import opened Wrappers
  import opened IgnoreCase
  import opened Model
  import opened SortUtils

  /** The first book in list order whose ISBN equals `isbn`, or `None`. */
  method LinearSearchByIsbn(books: seq<Book>, isbn: string) returns (r: Option<Book>)
    ensures r.None? <==> forall i :: 0 <= i < |books| ==> books[i].isbn != isbn
    ensures r.Some? ==> exists i :: 0 <= i < |books| && books[i] == r.value && books[i].isbn == isbn
                                    && forall j :: 0 <= j < i ==> books[j].isbn != isbn
  {
    for i := 0 to |books|
      invariant forall j :: 0 <= j < i ==> books[j].isbn != isbn
    {
      if books[i].isbn == isbn {
        return Some(books[i]);
      }
    }
    return None;
  }

  /**
   * Binary search for a title, ignoring case. A result always matches; on a
   * list sorted by title, `None` means no book matches.
   */
  method BinarySearchByTitle(sorted: seq<Book>, title: string) returns (r: Option<Book>)
    ensures r.Some? ==> r.value in sorted && CompareIgnoreCase(r.value.title, title) == 0
    ensures r.None? && SortedByTitle(sorted) ==>
      forall i :: 0 <= i < |sorted| ==> CompareIgnoreCase(sorted[i].title, title) != 0
  {
    var low, high := 0, |sorted| - 1;
    while low <= high
      invariant 0 <= low <= high + 1 <= |sorted|
      invariant SortedByTitle(sorted) ==>
        forall i :: 0 <= i < low ==> CompareIgnoreCase(sorted[i].title, title) < 0
      invariant SortedByTitle(sorted) ==>
        forall i :: high < i < |sorted| ==> CompareIgnoreCase(sorted[i].title, title) > 0
      decreases high - low
    {
      var mid := (low + high) / 2;
      var cmp := CompareIgnoreCase(sorted[mid].title, title);
      if cmp == 0 {
        return Some(sorted[mid]);
      } else if cmp < 0 {
        if SortedByTitle(sorted) {
          BelowMid(sorted, mid, title);
        }
        low := mid + 1;
      } else {
        if SortedByTitle(sorted) {
          AboveMid(sorted, mid, title);
        }
        high := mid - 1;
      }
    }
    return None;
  }

  /** On a sorted list, everything up to a title below the query is below it too. */
  lemma BelowMid(sorted: seq<Book>, mid: nat, title: string)
    requires SortedByTitle(sorted) && mid < |sorted|
    requires CompareIgnoreCase(sorted[mid].title, title) < 0
    ensures forall i :: 0 <= i <= mid ==> CompareIgnoreCase(sorted[i].title, title) < 0
  {
    forall i | 0 <= i < mid ensures CompareIgnoreCase(sorted[i].title, title) < 0 {
      CompareStrictTransitive(sorted[i].title, sorted[mid].title, title);
    }
  }

  /** On a sorted list, everything from a title above the query on is above it too. */
  lemma AboveMid(sorted: seq<Book>, mid: nat, title: string)
    requires SortedByTitle(sorted) && mid < |sorted|
    requires CompareIgnoreCase(sorted[mid].title, title) > 0
    ensures forall i :: mid <= i < |sorted| ==> CompareIgnoreCase(sorted[i].title, title) > 0
  {
    CompareAntisymmetric(sorted[mid].title, title);
    forall i | mid < i < |sorted| ensures CompareIgnoreCase(sorted[i].title, title) > 0 {
      CompareStrictTransitive(title, sorted[mid].title, sorted[i].title);
      CompareAntisymmetric(title, sorted[i].title);
    }
  }
}
