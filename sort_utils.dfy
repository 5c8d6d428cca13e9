/**
 * Top-down merge sort of books by case-insensitive title. The methods work
 * in place on arrays, as the source overwrites its list with `set`; they are
 * proved equal to the functions `MergeOf` and `MergeSortOf`, whose properties
 * (sorted, a permutation, stable, the identity on sorted input) are lemmas.
 */
module SortUtils {
  import opened IgnoreCase
  import opened Model

  /** `a` may precede `b`: the merge's `compareToIgnoreCase(...) <= 0` test. */
  predicate TitleLe(a: Book, b: Book) {
    CompareIgnoreCase(a.title, b.title) <= 0
  }

  predicate SortedByTitle(s: seq<Book>) {
    forall i, j :: 0 <= i < j < |s| ==> TitleLe(s[i], s[j])
  }

  /** The books of `s` whose title equals `title` ignoring case, in order. */
  function SameTitle(s: seq<Book>, title: string): (r: seq<Book>)
    ensures |r| <= |s|
  {
    if s == [] then [] else Match(s[0], title) + SameTitle(s[1..], title)
  }

  /** `[b]` when `b`'s title equals `title` ignoring case, else nothing. */
  function Match(b: Book, title: string): seq<Book> {
    if CompareIgnoreCase(b.title, title) == 0 then [b] else []
  }

  /** What `merge` writes: the left head wins unless the right head is strictly smaller. */
  function MergeOf(left: seq<Book>, right: seq<Book>): seq<Book>
    decreases |left| + |right|
  {
    if left == [] then right
    else if right == [] then left
    else if TitleLe(left[0], right[0]) then [left[0]] + MergeOf(left[1..], right)
    else [right[0]] + MergeOf(left, right[1..])
  }

  /** What `mergeSortByTitle` leaves in the list. */
  function MergeSortOf(s: seq<Book>): seq<Book>
    decreases |s|
  {
    if |s| < 2 then s
    else MergeOf(MergeSortOf(s[..|s| / 2]), MergeSortOf(s[|s| / 2..]))
  }

  // ---- properties of the specification ----

  lemma SameTitleCons(x: Book, s: seq<Book>, title: string)
    ensures SameTitle([x] + s, title) == Match(x, title) + SameTitle(s, title)
  {
    assert ([x] + s)[0] == x && ([x] + s)[1..] == s;
  }

  lemma {:induction false} SameTitleAppend(a: seq<Book>, b: seq<Book>, title: string)
    ensures SameTitle(a + b, title) == SameTitle(a, title) + SameTitle(b, title)
  {
    if a == [] {
      assert a + b == b;
    } else {
      var h := Match(a[0], title);
      calc {
        SameTitle(a + b, title);
        { assert a + b == [a[0]] + (a[1..] + b); SameTitleCons(a[0], a[1..] + b, title); }
        h + SameTitle(a[1..] + b, title);
        { SameTitleAppend(a[1..], b, title); }
        h + (SameTitle(a[1..], title) + SameTitle(b, title));
        (h + SameTitle(a[1..], title)) + SameTitle(b, title);
        { assert a == [a[0]] + a[1..]; SameTitleCons(a[0], a[1..], title); }
        SameTitle(a, title) + SameTitle(b, title);
      }
    }
  }

  /** The head of a sorted list may precede every element of it. */
  lemma HeadFirst(s: seq<Book>, x: Book)
    requires SortedByTitle(s) && x in s
    ensures TitleLe(s[0], x)
  {
    var k :| 0 <= k < |s| && s[k] == x;
    if k == 0 {
      CompareZeroIff(x.title, x.title);
    }
  }

  lemma {:induction false} MergePermutation(left: seq<Book>, right: seq<Book>)
    ensures multiset(MergeOf(left, right)) == multiset(left) + multiset(right)
    decreases |left| + |right|, 1
  {
    if left == [] || right == [] {
    } else if TitleLe(left[0], right[0]) {
      MergePermutationLeft(left, right);
    } else {
      MergePermutationRight(left, right);
    }
  }

  /** The step of `MergePermutation` where the left head goes first. */
  lemma {:induction false} MergePermutationLeft(left: seq<Book>, right: seq<Book>)
    requires left != [] && right != [] && TitleLe(left[0], right[0])
    ensures multiset(MergeOf(left, right)) == multiset(left) + multiset(right)
    decreases |left| + |right|, 0
  {
    calc {
      multiset(MergeOf(left, right));
      multiset([left[0]] + MergeOf(left[1..], right));
      multiset([left[0]]) + multiset(MergeOf(left[1..], right));
      { MergePermutation(left[1..], right); }
      multiset([left[0]]) + multiset(left[1..]) + multiset(right);
      { assert left == [left[0]] + left[1..]; }
      multiset(left) + multiset(right);
    }
  }

  /** The step of `MergePermutation` where the right head goes first. */
  lemma {:induction false} MergePermutationRight(left: seq<Book>, right: seq<Book>)
    requires left != [] && right != [] && !TitleLe(left[0], right[0])
    ensures multiset(MergeOf(left, right)) == multiset(left) + multiset(right)
    decreases |left| + |right|, 0
  {
    calc {
      multiset(MergeOf(left, right));
      multiset([right[0]] + MergeOf(left, right[1..]));
      multiset([right[0]]) + multiset(MergeOf(left, right[1..]));
      { MergePermutation(left, right[1..]); }
      multiset([right[0]]) + multiset(left) + multiset(right[1..]);
      { assert right == [right[0]] + right[1..]; }
      multiset(left) + multiset(right);
    }
  }

  lemma {:induction false} MergeLength(left: seq<Book>, right: seq<Book>)
    ensures |MergeOf(left, right)| == |left| + |right|
    decreases |left| + |right|
  {
    if left != [] && right != [] {
      if TitleLe(left[0], right[0]) {
        MergeLength(left[1..], right);
      } else {
        MergeLength(left, right[1..]);
      }
    }
  }

  /** Merging two title-sorted lists yields a title-sorted list. */
  lemma {:induction false} MergeSorted(left: seq<Book>, right: seq<Book>)
    requires SortedByTitle(left) && SortedByTitle(right)
    ensures SortedByTitle(MergeOf(left, right))
    decreases |left| + |right|
  {
    if left == [] || right == [] {
    } else if TitleLe(left[0], right[0]) {
      MergeSorted(left[1..], right);
      forall y | y in right ensures TitleLe(left[0], y) {
        HeadFirst(right, y);
        CompareTransitive(left[0].title, right[0].title, y.title);
      }
      BelowMerge(left[0], left[1..], right);
      PrependSorted(left[0], MergeOf(left[1..], right));
    } else {
      MergeSorted(left, right[1..]);
      CompareAntisymmetric(left[0].title, right[0].title);
      forall y | y in left ensures TitleLe(right[0], y) {
        HeadFirst(left, y);
        CompareTransitive(right[0].title, left[0].title, y.title);
      }
      BelowMerge(right[0], left, right[1..]);
      PrependSorted(right[0], MergeOf(left, right[1..]));
    }
  }

  /** A book that may precede everything in two lists may precede everything in their merge. */
  lemma BelowMerge(x: Book, left: seq<Book>, right: seq<Book>)
    requires forall y :: y in left ==> TitleLe(x, y)
    requires forall y :: y in right ==> TitleLe(x, y)
    ensures forall y :: y in MergeOf(left, right) ==> TitleLe(x, y)
  {
    MergePermutation(left, right);
    forall y | y in MergeOf(left, right) ensures TitleLe(x, y) {
      assert y in multiset(MergeOf(left, right));
    }
  }

  lemma PrependSorted(x: Book, s: seq<Book>)
    requires SortedByTitle(s)
    requires forall y :: y in s ==> TitleLe(x, y)
    ensures SortedByTitle([x] + s)
  {
    forall i, j | 0 <= i < j < |[x] + s| ensures TitleLe(([x] + s)[i], ([x] + s)[j]) {
      if i == 0 {
        assert ([x] + s)[j] == s[j - 1];
      }
    }
  }

  /**
   * Stability of one merge: if the left list is sorted, books of one title
   * class come out left ones first, each side in its own order.
   */
  lemma {:induction false} MergeStable(left: seq<Book>, right: seq<Book>, title: string)
    requires SortedByTitle(left)
    ensures SameTitle(MergeOf(left, right), title) == SameTitle(left, title) + SameTitle(right, title)
    decreases |left| + |right|
  {
    if left == [] {
      assert SameTitle(left, title) == [];
    } else if right == [] {
      assert SameTitle(right, title) == [];
    } else if TitleLe(left[0], right[0]) {
      SortedTail(left);
      MergeStable(left[1..], right, title);
      StableLeftStep(left, right, title);
    } else {
      MergeStable(left, right[1..], title);
      if Match(right[0], title) != [] {
        NoneBelowHead(left, right[0], title);
      }
      StableRightStep(left, right, title);
    }
  }

  lemma SortedTail(s: seq<Book>)
    requires SortedByTitle(s) && s != []
    ensures SortedByTitle(s[1..])
  {
    forall i, j | 0 <= i < j < |s| - 1 ensures TitleLe(s[1..][i], s[1..][j]) {
      assert s[1..][i] == s[i + 1] && s[1..][j] == s[j + 1];
    }
  }

  /** The step of `MergeStable` where the left head goes first, given stability of the rest. */
  lemma StableLeftStep(left: seq<Book>, right: seq<Book>, title: string)
    requires left != [] && right != [] && TitleLe(left[0], right[0])
    requires SameTitle(MergeOf(left[1..], right), title) == SameTitle(left[1..], title) + SameTitle(right, title)
    ensures SameTitle(MergeOf(left, right), title) == SameTitle(left, title) + SameTitle(right, title)
  {
    var h := Match(left[0], title);
    calc {
      SameTitle(MergeOf(left, right), title);
      { SameTitleCons(left[0], MergeOf(left[1..], right), title); }
      h + SameTitle(MergeOf(left[1..], right), title);
      h + (SameTitle(left[1..], title) + SameTitle(right, title));
      (h + SameTitle(left[1..], title)) + SameTitle(right, title);
      { SameTitleCons(left[0], left[1..], title); assert [left[0]] + left[1..] == left; }
      SameTitle(left, title) + SameTitle(right, title);
    }
  }

  /**
   * The step of `MergeStable` where the right head goes first, given
   * stability of the rest and that the right head's title class has no
   * left book in it when the head belongs to the class of `title`.
   */
  lemma StableRightStep(left: seq<Book>, right: seq<Book>, title: string)
    requires left != [] && right != [] && !TitleLe(left[0], right[0])
    requires SameTitle(MergeOf(left, right[1..]), title) == SameTitle(left, title) + SameTitle(right[1..], title)
    requires Match(right[0], title) == [] || SameTitle(left, title) == []
    ensures SameTitle(MergeOf(left, right), title) == SameTitle(left, title) + SameTitle(right, title)
  {
    var h := Match(right[0], title);
    calc {
      SameTitle(MergeOf(left, right), title);
      { SameTitleCons(right[0], MergeOf(left, right[1..]), title); }
      h + SameTitle(MergeOf(left, right[1..]), title);
      h + (SameTitle(left, title) + SameTitle(right[1..], title));
      { SwapFront(h, SameTitle(left, title), SameTitle(right[1..], title)); }
      SameTitle(left, title) + (h + SameTitle(right[1..], title));
      { SameTitleCons(right[0], right[1..], title); assert [right[0]] + right[1..] == right; }
      SameTitle(left, title) + SameTitle(right, title);
    }
  }

  lemma SwapFront(h: seq<Book>, a: seq<Book>, c: seq<Book>)
    requires h == [] || a == []
    ensures h + (a + c) == a + (h + c)
  {
    if h == [] {
      assert h + (a + c) == a + c == a + (h + c);
    } else {
      assert h + (a + c) == h + c == a + (h + c);
    }
  }

  /** A book strictly below the head of a sorted list shares its title class with nobody in it. */
  lemma NoneBelowHead(s: seq<Book>, b: Book, title: string)
    requires SortedByTitle(s) && s != [] && !TitleLe(s[0], b)
    requires CompareIgnoreCase(b.title, title) == 0
    ensures SameTitle(s, title) == []
  {
    CompareAntisymmetric(s[0].title, b.title);
    forall i | 0 <= i < |s| ensures CompareIgnoreCase(s[i].title, title) != 0 {
      HeadFirst(s, s[i]);
      CompareStrictTransitive(b.title, s[0].title, s[i].title);
      CompareRespectsFolding(b.title, title, s[i].title);
      CompareAntisymmetric(title, s[i].title);
    }
    NoMatchNoSameTitle(s, title);
  }

  lemma {:induction false} NoMatchNoSameTitle(s: seq<Book>, title: string)
    requires forall i :: 0 <= i < |s| ==> CompareIgnoreCase(s[i].title, title) != 0
    ensures SameTitle(s, title) == []
  {
    if s != [] {
      NoMatchNoSameTitle(s[1..], title);
    }
  }

  /** Merging lists that are already in order just concatenates them. */
  lemma {:induction false} MergeOfOrdered(left: seq<Book>, right: seq<Book>)
    requires SortedByTitle(left + right)
    ensures MergeOf(left, right) == left + right
  {
    if left != [] && right != [] {
      assert (left + right)[0] == left[0] && (left + right)[|left|] == right[0];
      assert left[1..] + right == (left + right)[1..];
      MergeOfOrdered(left[1..], right);
    }
  }

  /** The sort returns a permutation of its input. */
  lemma {:induction false} MergeSortPermutation(s: seq<Book>)
    ensures multiset(MergeSortOf(s)) == multiset(s)
    ensures |MergeSortOf(s)| == |s|
    decreases |s|
  {
    if |s| >= 2 {
      var l, r := s[..|s| / 2], s[|s| / 2..];
      calc {
        multiset(MergeSortOf(s));
        multiset(MergeOf(MergeSortOf(l), MergeSortOf(r)));
        { MergePermutation(MergeSortOf(l), MergeSortOf(r)); }
        multiset(MergeSortOf(l)) + multiset(MergeSortOf(r));
        { MergeSortPermutation(l); MergeSortPermutation(r); }
        multiset(l) + multiset(r);
        { assert s == l + r; }
        multiset(s);
      }
    }
  }

  /** The sort returns a list in non-decreasing case-insensitive title order. */
  lemma {:induction false} MergeSortSorted(s: seq<Book>)
    ensures SortedByTitle(MergeSortOf(s))
    decreases |s|
  {
    if |s| >= 2 {
      MergeSortSorted(s[..|s| / 2]);
      MergeSortSorted(s[|s| / 2..]);
      MergeSorted(MergeSortOf(s[..|s| / 2]), MergeSortOf(s[|s| / 2..]));
    }
  }

  /** The sort is stable: each title class keeps its input order. */
  lemma {:induction false} MergeSortStable(s: seq<Book>, title: string)
    ensures SameTitle(MergeSortOf(s), title) == SameTitle(s, title)
    decreases |s|
  {
    if |s| >= 2 {
      var mid := |s| / 2;
      var left, right := s[..mid], s[mid..];
      calc {
        SameTitle(MergeSortOf(s), title);
        SameTitle(MergeOf(MergeSortOf(left), MergeSortOf(right)), title);
        { MergeSortSorted(left);
          MergeStable(MergeSortOf(left), MergeSortOf(right), title); }
        SameTitle(MergeSortOf(left), title) + SameTitle(MergeSortOf(right), title);
        { MergeSortStable(left, title);
          MergeSortStable(right, title); }
        SameTitle(left, title) + SameTitle(right, title);
        { SameTitleAppend(left, right, title); }
        SameTitle(left + right, title);
        { assert left + right == s; }
        SameTitle(s, title);
      }
    }
  }

  /** Sorting a list that is already in title order leaves it unchanged. */
  lemma {:induction false} MergeSortOfSorted(s: seq<Book>)
    requires SortedByTitle(s)
    ensures MergeSortOf(s) == s
    decreases |s|
  {
    if |s| >= 2 {
      var mid := |s| / 2;
      assert SortedByTitle(s[..mid]);
      assert SortedByTitle(s[mid..]);
      MergeSortOfSorted(s[..mid]);
      MergeSortOfSorted(s[mid..]);
      assert s == s[..mid] + s[mid..];
      MergeOfOrdered(s[..mid], s[mid..]);
    }
  }

  // ---- the in-place algorithm ----

  /**
   * Overwrites `books` with the merge of `left` and `right`, one slot per
   * step, as the three loops of the source do. The two halves are private
   * copies that the merge only reads, so they are passed as values.
   */
  method Merge(books: array<Book>, left: seq<Book>, right: seq<Book>)
    requires books.Length == |left| + |right|
    modifies books
    ensures books[..] == MergeOf(left, right)
  {
    ghost var out := MergeOf(left, right);
    MergeLength(left, right);
    var i, j := MergeHeads(books, left, right, out);
    var k := i + j;
    // One side is used up; the two tail loops copy what is left of each side.
    MergeTail(left, right, i, j, out);
    CopyTail(books, k, left, i);
    CopyTail(books, k + (|left| - i), right, j);
    forall p | 0 <= p < books.Length ensures books[p] == out[p] {
      if p >= k {
        assert out[p] == if p - j < |left| then left[p - j] else right[p - |left|];
      }
    }
    assert books[..] == out;
  }

  /** The first loop of `merge`: while both sides have books, the smaller head (left on ties) goes next. */
  method MergeHeads(books: array<Book>, left: seq<Book>, right: seq<Book>, ghost out: seq<Book>) returns (i: nat, j: nat)
    requires out == MergeOf(left, right)
    requires books.Length == |out| == |left| + |right|
    modifies books
    ensures i <= |left| && j <= |right| && (i == |left| || j == |right|)
    ensures out[i + j..] == MergeOf(left[i..], right[j..])
    ensures forall p :: 0 <= p < i + j ==> books[p] == out[p]
  {
    var k := 0;
    i, j := 0, 0;
    while i < |left| && j < |right|
      invariant 0 <= i <= |left| && 0 <= j <= |right| && k == i + j
      invariant out[k..] == MergeOf(left[i..], right[j..])
      invariant forall p :: 0 <= p < k ==> books[p] == out[p]
      decreases |left| + |right| - k
    {
      i, j := MergeStep(books, left, right, i, j, out);
      k := k + 1;
    }
  }

  /** One round of the first loop: the smaller head (left on ties) is written at `i + j`. */
  method MergeStep(books: array<Book>, left: seq<Book>, right: seq<Book>, i: nat, j: nat, ghost out: seq<Book>)
    returns (i': nat, j': nat)
    requires i < |left| && j < |right| && books.Length == |out| == |left| + |right|
    requires out[i + j..] == MergeOf(left[i..], right[j..])
    modifies books
    ensures i' + j' == i + j + 1 && i' <= |left| && j' <= |right|
    ensures out[i' + j'..] == MergeOf(left[i'..], right[j'..])
    ensures forall p :: 0 <= p < books.Length ==> books[p] == if p == i + j then out[p] else old(books[p])
  {
    if TitleLe(left[i], right[j]) {
      TakeLeft(left, right, i, j, out);
      books[i + j] := left[i];
      i', j' := i + 1, j;
    } else {
      TakeRight(left, right, i, j, out);
      books[i + j] := right[j];
      i', j' := i, j + 1;
    }
  }

  /** One tail loop of `merge`: `books.set(k++, src.get(i++))` until `src` is used up. */
  method CopyTail(books: array<Book>, k0: nat, src: seq<Book>, i0: nat)
    requires i0 <= |src| && k0 + (|src| - i0) <= books.Length
    modifies books
    ensures forall p :: 0 <= p < books.Length ==>
      books[p] == if k0 <= p < k0 + (|src| - i0) then src[p - k0 + i0] else old(books[p])
  {
    var i, k := i0, k0;
    while i < |src|
      invariant i0 <= i <= |src| && k == k0 + (i - i0)
      invariant forall p :: 0 <= p < books.Length ==>
        books[p] == if k0 <= p < k then src[p - k0 + i0] else old(books[p])
    {
      books[k] := src[i];
      i, k := i + 1, k + 1;
    }
  }

  /** Once one side is used up, the rest of the merge is the rest of the other side. */
  lemma MergeTail(l: seq<Book>, r: seq<Book>, i: nat, j: nat, out: seq<Book>)
    requires i <= |l| && j <= |r| && (i == |l| || j == |r|)
    requires |out| == |l| + |r| && out[i + j..] == MergeOf(l[i..], r[j..])
    ensures forall p :: i + j <= p < |out| ==> out[p] == if p - j < |l| then l[p - j] else r[p - |l|]
  {
    if i == |l| {
      assert l[i..] == [];
    } else {
      assert r[j..] == [];
    }
    forall p | i + j <= p < |out|
      ensures out[p] == if p - j < |l| then l[p - j] else r[p - |l|]
    {
      assert out[p] == out[i + j..][p - (i + j)];
    }
  }

  /** A merge step that writes the left head: the slot gets `l[i]`, the rest is the merge of what remains. */
  lemma TakeLeft(l: seq<Book>, r: seq<Book>, i: nat, j: nat, out: seq<Book>)
    requires i < |l| && j <= |r| && (j == |r| || TitleLe(l[i], r[j]))
    requires i + j < |out| && out[i + j..] == MergeOf(l[i..], r[j..])
    ensures out[i + j] == l[i] && out[i + j + 1..] == MergeOf(l[i + 1..], r[j..])
  {
    assert l[i..][1..] == l[i + 1..];
    if j == |r| {
      assert r[j..] == [];
      assert l[i + 1..] == [] ==> MergeOf(l[i + 1..], r[j..]) == [];
    }
    assert out[i + j..][1..] == out[i + j + 1..];
  }

  /** A merge step that writes the right head. */
  lemma TakeRight(l: seq<Book>, r: seq<Book>, i: nat, j: nat, out: seq<Book>)
    requires i <= |l| && j < |r| && (i == |l| || !TitleLe(l[i], r[j]))
    requires i + j < |out| && out[i + j..] == MergeOf(l[i..], r[j..])
    ensures out[i + j] == r[j] && out[i + j + 1..] == MergeOf(l[i..], r[j + 1..])
  {
    assert r[j..][1..] == r[j + 1..];
    if i == |l| {
      assert l[i..] == [];
    }
    assert out[i + j..][1..] == out[i + j + 1..];
  }

  /** Sorts `books` in place by case-insensitive title, stably. */
  method MergeSortByTitle(books: array<Book>)
    modifies books
    ensures books[..] == MergeSortOf(old(books[..]))
    decreases books.Length
  {
    if books.Length < 2 {
      return;
    }
    ghost var s := books[..];
    var mid := books.Length / 2;
    var left := new Book[mid];
    forall i | 0 <= i < mid {
      left[i] := books[i];
    }
    var right := new Book[books.Length - mid];
    forall i | 0 <= i < books.Length - mid {
      right[i] := books[mid + i];
    }
    assert left[..] == s[..mid];
    assert right[..] == s[mid..];
    MergeSortByTitle(left);
    MergeSortByTitle(right);
    Merge(books, left[..], right[..]);
    assert books[..] == MergeOf(MergeSortOf(s[..mid]), MergeSortOf(s[mid..]));
  }
}
