# Library core, modelled and verified in Dafny

This project models the in-memory core of a small Java library-management
program and proves what that core promises. The core covers:

- the category-indexed book inventory (`BookInventory`);
- the borrower registry (`BorrowerRegistry`);
- the lending ledger (`LendingTracker`);
- the overdue queue (`OverdueManager`);
- the title merge sort and the two searches (`SortUtils`, `SearchUtils`);
- the three reports (`Reports`);
- the comma-escaping and line-splitting helpers of `Main`.

Modules:

- `IgnoreCase`: `compareToIgnoreCase` as a lexicographic comparison of
  ASCII-lower-cased strings. It is proved to be a total preorder: reflexive,
  total and transitive. It is zero exactly on equal folded keys and
  antisymmetric in sign.
- `Model`: `Book` and `Borrower` are datatypes. `Transaction` is a class,
  because one object is shared by the ledger and the overdue queue and only
  its `returned` flag ever changes. Dates are integer day numbers.
- `SortUtils`: `mergeSortByTitle` and `merge` as methods on an `array`,
  written in place with the same three-counter loops. They are proved equal to
  the functions `MergeOf` and `MergeSortOf`. Lemmas prove that these functions
  sort, permute, are stable, and leave sorted input unchanged.
- `SearchUtils`: the first-match linear scan and the binary search, both as
  loops with invariants.
- `Inventory`: the `BookInventory` class over a `map<string, seq<Book>>`.
- `Registry`: the `BorrowerRegistry` class and the recursive finder.
- `Lending`: the `LendingTracker` class over a `seq<Transaction>`.
- `Overdue`: the `OverdueManager` class. Its priority queue is a multiset of
  transactions, drained least due date first.
- `Ranking`: `sorted(descending).limit(n)` of a Java stream, as a stable
  insertion sort followed by a prefix.
- `MapSums`: the sum of the values of a map, used to count books and loans.
- `Reports`: the three reports. Each returns the rows it would print.
- `Csv`: `escapeCsv`, `unescapeCsv` and `splitCsvLine`.
- `Scenarios`: whole-library walkthroughs, for example: add and find again;
  lend and return twice; sort "Beta", "Alpha", "alpha"; count loans.

The current date (`LocalDate.now()`) is a parameter `today`.

## Model

| member | source | states |
|---|---|---|
| IgnoreCase.Folded | src/util/SortUtils.java:20 | the case-folded key has the same length, with every character folded |
| IgnoreCase.CompareZeroIff | src/util/SearchUtils.java:18-19 | the ignore-case comparison is zero exactly when the folded keys are equal |
| IgnoreCase.CompareAntisymmetric | src/util/SortUtils.java:20 | comparing b with a gives the negated result of comparing a with b |
| IgnoreCase.CompareTransitive | src/util/SortUtils.java:20 | `<= 0` is transitive |
| IgnoreCase.CompareStrictTransitive | src/util/SearchUtils.java:20-21 | a chain of `<= 0` comparisons with one strict link is strict |
| IgnoreCase.CompareRespectsFolding | src/util/SearchUtils.java:18 | titles that compare equal compare the same way against any third title |
| IgnoreCase.IgnoreCaseLeIsTotalPreorder | src/util/SortUtils.java:20 | the order the sort and the search use is reflexive, total and transitive |
| IgnoreCase.LexCompareZero | src/util/SortUtils.java:20 | the lexicographic difference is zero exactly on equal strings |
| IgnoreCase.LexCompareAntisymmetric | src/util/SortUtils.java:20 | the lexicographic difference changes sign when the arguments are swapped |
| IgnoreCase.LexCompareTransitive | src/util/SortUtils.java:20 | lexicographic `<= 0` is transitive |
| Model.NewBorrower | src/model/Borrower.java:11-16 | a new borrower keeps its name, id and contact and owes nothing |
| Model.Transaction.constructor | src/model/Transaction.java:10-16 | a new loan stores its four fields and is not returned |
| SortUtils.SameTitleAppend | src/util/SortUtils.java:20-21 | the books of a title class in a concatenation are those of each part, in order |
| SortUtils.MergeLength | src/util/SortUtils.java:17-28 | merging gives exactly as many books as both halves hold |
| SortUtils.MergePermutation | src/util/SortUtils.java:17-28 | merging gives the multiset union of the halves |
| SortUtils.MergeSorted | src/util/SortUtils.java:17-28 | merging two title-sorted halves gives a title-sorted list |
| SortUtils.MergeStable | src/util/SortUtils.java:19-24 | for a sorted left half, every title class comes out left books first, each side in its own order |
| SortUtils.NoneBelowHead | src/util/SortUtils.java:20 | a title strictly below the head of a sorted list matches nothing in that list |
| SortUtils.MergeOfOrdered | src/util/SortUtils.java:19-27 | merging halves that are already in order gives their concatenation |
| SortUtils.MergeSortPermutation | src/util/SortUtils.java:7-15 | the sort returns a permutation of its input of the same length |
| SortUtils.MergeSortSorted | src/util/SortUtils.java:7-15 | the sort returns a title-sorted list |
| SortUtils.MergeSortStable | src/util/SortUtils.java:7-15 | each title class keeps its input order through the sort |
| SortUtils.MergeSortOfSorted | src/util/SortUtils.java:8-15 | sorting a title-sorted list leaves it unchanged, including lists shorter than two |
| SortUtils.MergeHeads | src/util/SortUtils.java:18-25 | the first loop stops with one side used up; it has written the merge's prefix of length `i + j` |
| SortUtils.MergeStep | src/util/SortUtils.java:20-24 | one step writes exactly slot `k = i + j` with the smaller head, left on ties, and advances one counter |
| SortUtils.CopyTail | src/util/SortUtils.java:26-27 | a tail loop copies the rest of one side into the next slots and changes no other slot |
| SortUtils.Merge | src/util/SortUtils.java:17-28 | the array ends up holding `MergeOf(left, right)` |
| SortUtils.MergeSortByTitle | src/util/SortUtils.java:7-15 | the array ends up holding `MergeSortOf` of its old contents |
| SearchUtils.LinearSearchByIsbn | src/util/SearchUtils.java:7-12 | absent exactly when no book has the ISBN; otherwise the first book in list order with it |
| SearchUtils.BinarySearchByTitle | src/util/SearchUtils.java:14-24 | a found book is in the list and matches the title; on a sorted list, absent only when no title matches |
| SearchUtils.BelowMid | src/util/SearchUtils.java:20 | when the middle title is below the query, so is every title up to it |
| SearchUtils.AboveMid | src/util/SearchUtils.java:21 | when the middle title is above the query, so is every title from it on |
| Inventory.WithoutIsbn | src/service/BookInventory.java:18 | `removeIf` keeps exactly the books with a different ISBN |
| Inventory.WithoutIsbnAppend | src/service/BookInventory.java:18 | removal distributes over concatenation, so the kept books keep their order |
| Inventory.WithoutIsbnAbsent | src/service/BookInventory.java:18 | a bucket without the ISBN is unchanged by the removal |
| Inventory.WithBook | src/service/BookInventory.java:11-14 | the book is appended to its category's bucket, which is created if absent; other buckets are unchanged |
| Inventory.WithBookAgrees | src/service/BookInventory.java:12-13 | adding keeps every bucket holding only books of its own category |
| Inventory.AddOneCount | src/service/BookInventory.java:11-14 | adding a book raises the total number of books by one |
| Inventory.SizesWithBook | src/service/BookInventory.java:13 | adding a book grows only its category's bucket size, by one |
| Inventory.FlattenMembers | src/service/BookInventory.java:24-26 | a book is in the concatenation exactly when it is in one of the buckets |
| Inventory.FlattenLength | src/service/BookInventory.java:22-27 | the concatenation of all buckets has as many books as the buckets together |
| Inventory.FlattenFirstInBucket | src/service/BookInventory.java:24-26 | a bucket lies contiguously in the concatenation, so the first book with an ISBN there is also the first with it in its bucket |
| Inventory.SortedCopy | src/service/BookInventory.java:41-42 | the sorted copy is title-sorted and holds the same books |
| Inventory.BookInventory.constructor | src/service/BookInventory.java:9 | a new inventory has no buckets |
| Inventory.BookInventory.AddBook | src/service/BookInventory.java:11-14 | the index becomes `WithBook` of the old one, categories stay consistent, and the count grows by one |
| Inventory.BookInventory.RemoveBook | src/service/BookInventory.java:16-20 | every bucket loses exactly its books with the ISBN, no bucket is dropped, and no such book remains |
| Inventory.BookInventory.GetAllBooks | src/service/BookInventory.java:22-28 | the buckets concatenated in some key order; its length is the number of books |
| Inventory.BookInventory.SearchByIsbn | src/service/BookInventory.java:36-38 | absent exactly when no bucket holds the ISBN; otherwise the first book with it in the list `getAllBooks` builds for some bucket order, and so the first with it in its own bucket |
| Inventory.BookInventory.SearchByTitle | src/service/BookInventory.java:40-44 | the buckets are not modified; a found book matches the title and is in a bucket; absent means no book matches |
| Inventory.BookInventory.GetBooksByCategory | src/service/BookInventory.java:46-48 | returns the index itself, whose buckets hold only books of their own category |
| Registry.FindBorrowerRecursive | src/service/BorrowerRegistry.java:21-25 | the first borrower with the id at a position from `index` on; absent exactly when there is none |
| Registry.BorrowerRegistry.constructor | src/service/BorrowerRegistry.java:7 | a new registry is empty |
| Registry.BorrowerRegistry.GetBorrower | src/service/BorrowerRegistry.java:13-15 | absent exactly for an id never added; otherwise the entry stored for that id |
| Registry.BorrowerRegistry.AddBorrower | src/service/BorrowerRegistry.java:9-11 | upsert: the id now maps to the new borrower and every other id is unchanged |
| Registry.BorrowerRegistry.GetAllBorrowers | src/service/BorrowerRegistry.java:17-19 | one entry per registered id, each the stored borrower |
| Lending.FirstOpenLoan | src/service/LendingTracker.java:14-15 | the position of the earliest unreturned loan of the ISBN to the borrower |
| Lending.LendingTracker.constructor | src/service/LendingTracker.java:7 | a new ledger is empty |
| Lending.LendingTracker.BorrowBook | src/service/LendingTracker.java:9-11 | the loan is appended and earlier loans keep their order |
| Lending.LendingTracker.ReturnBook | src/service/LendingTracker.java:13-20 | only the earliest open matching loan is flagged returned; no flag is cleared; the open matching loans drop by exactly one; with no match nothing changes |
| Lending.LendingTracker.GetAllTransactions | src/service/LendingTracker.java:22-24 | all loans, returned ones included, in insertion order |
| Overdue.LeastDueExists | src/service/OverdueManager.java:9-10 | a non-empty queue has a loan of least due date, which `peek` returns |
| Overdue.LeastWithOneMore | src/service/OverdueManager.java:9-10 | adding a loan to a queue keeps a least-due loan: the smaller of the old one and the new one |
| Overdue.OverdueManager.constructor | src/service/OverdueManager.java:9-10 | a new queue is empty |
| Overdue.OverdueManager.AddTransaction | src/service/OverdueManager.java:12-14 | the queue gains exactly one copy of the loan |
| Overdue.OverdueManager.CheckOverdue | src/service/OverdueManager.java:16-22 | drains exactly the loans due before `today - 14`, returned or not, in non-decreasing due-date order; what is left plus what was drained is the old queue |
| Overdue.DrainStep | src/service/OverdueManager.java:18-19 | polling a least, overdue loan keeps the drained list overdue and ordered, and below everything still queued |
| Overdue.DrainedSplit | src/service/OverdueManager.java:18 | once nothing left is overdue, the drained loans are exactly the overdue loans of the old queue |
| Overdue.NothingDrainedTwice | src/service/OverdueManager.java:18 | a second check on the same day drains nothing |
| Ranking.InsertDesc | src/service/Reports.java:15 | insertion adds exactly the one element |
| Ranking.SortDesc | src/service/Reports.java:15 | the stream sort returns a permutation of its input |
| Ranking.InsertDescSorted | src/service/Reports.java:15 | insertion into a list sorted by descending key keeps it sorted |
| Ranking.SortDescSorted | src/service/Reports.java:15 | the sort returns its input in non-increasing key order |
| Ranking.PrefixDominates | src/service/Reports.java:16 | in a sorted list, nothing after position n has a larger key than anything before it |
| Ranking.TopNSize | src/service/Reports.java:15-16 | `limit(n)` keeps min(n, size) elements, all drawn from the input |
| Ranking.TopNSorted | src/service/Reports.java:15-16 | the kept elements are in non-increasing key order |
| Ranking.TopNDominates | src/service/Reports.java:15-16 | no element left out has a larger key than one kept |
| MapSums.SumValuesBump | src/service/Reports.java:12 | `put(k, getOrDefault(k, 0) + d)` raises the value sum by d |
| Reports.Occurrences | src/service/Reports.java:11-12 | the number of loans of an ISBN is at most the number of loans, and zero exactly when the ISBN never occurs |
| Reports.TallyKeys | src/service/Reports.java:10-13 | the tally has an entry for exactly the ISBNs that occur |
| Reports.TallyCounts | src/service/Reports.java:10-13 | each tally entry is the number of loans of its ISBN |
| Reports.TallySum | src/service/Reports.java:10-13 | the tally's counts add up to the number of loans |
| Reports.CountByIsbn | src/service/Reports.java:10-13 | the counting loop builds that tally: keys are the borrowed ISBNs, with true counts summing to the number of loans |
| Reports.EntriesOf | src/service/Reports.java:14 | the entry set: each key once with its value |
| Reports.CountedEntries | src/service/Reports.java:10-14 | each borrowed ISBN once, with its number of loans |
| Reports.MostBorrowedBooks | src/service/Reports.java:9-18 | min(5, distinct ISBNs) rows with distinct ISBNs and true counts, in non-increasing count order; no ISBN left out was borrowed more often than a listed one |
| Reports.RowsTrue | src/service/Reports.java:14-16 | rows taken from true entries carry true counts |
| Reports.RowsDistinct | src/service/Reports.java:14-16 | rows taken from entries with distinct keys have distinct keys |
| Reports.RowsSorted | src/service/Reports.java:15 | the top rows are in non-increasing count order |
| Reports.RowsDominate | src/service/Reports.java:14-16 | no borrowed ISBN left out of the rows has a larger count than a listed one |
| Reports.TopBorrowersByFines | src/service/Reports.java:20-25 | min(5, n) borrowers drawn from the input, in non-increasing fines order; nobody left out owes more than anyone listed |
| Reports.TopBorrowersFacts | src/service/Reports.java:21-23 | the stream sort and limit on fines keep size, membership, order and dominance |
| Reports.InventoryByCategory | src/service/Reports.java:27-30 | one row per category, with that bucket's size |
| Csv.EscapeCsv | src/Main.java:341-344 | the escaped field holds no comma, and a field without commas is unchanged |
| Csv.EscapeLength | src/Main.java:343 | escaping adds one character per comma, and each comma becomes two semicolons |
| Csv.UnescapeCsv | src/Main.java:345 | unescaping never lengthens a field |
| Csv.UnescapeEscape | src/Main.java:341-345 | unescaping an escaped field without ';' gives the field back |
| Csv.EscapeRoundTripFails | src/Main.java:341-345 | the field ";;" is escaped unchanged and read back as "," |
| Csv.EscapeField | src/Main.java:343 | the corrected escape also produces no comma |
| Csv.UnescapeEscapeField | src/Main.java:341-345 | with ';' escaped as well, every field reads back exactly as written |
| Csv.Split | src/Main.java:349 | `split(",", -1)` gives one more piece than there are commas, none holding a comma |
| Csv.JoinSplit | src/Main.java:349 | joining the pieces with "," gives the line back |
| Csv.SplitJoin | src/Main.java:349 | splitting the join of comma-free pieces gives the pieces back |
| Csv.JoinFold | src/Main.java:353-359 | folding the pieces from position k into one field does not change the joined line |
| Csv.JoinSnoc | src/Main.java:356-358 | appending ",p" to the builder is joining one more piece |
| Csv.JoinFrom | src/Main.java:355-358 | the builder loop yields the join of the pieces from `limit - 1` on |
| Csv.SplitCsvLine | src/Main.java:348-361 | at most `limit` pieces are returned as split; otherwise exactly `limit` fields, the first `limit - 1` unchanged and the rest folded into the last; the fields always join back to the line |
| Scenarios.AddThenFind | src/service/BookInventory.java:11-14 | a book once added is found again by ISBN, and a borrower once added is found by id |
| Scenarios.LendAndReturnTwice | src/service/LendingTracker.java:13-20 | after one loan and two returns, the loan is flagged returned and the ledger still holds just that loan |
| Scenarios.OverdueIgnoresReturn | src/service/OverdueManager.java:18 | a returned loan past its due date is still drained, once |
| Scenarios.DrainTwice | src/service/OverdueManager.java:16-22 | whatever the first check drains, a second check the same day drains nothing |
| Scenarios.RemoveThenSearch | src/service/BookInventory.java:16-20 | after removing an ISBN, the ISBN search finds nothing |
| Scenarios.SortThreeTitles | src/util/SortUtils.java:20-21 | "Beta", "Alpha", "alpha" sort to "Alpha", "alpha", "Beta" |
| Scenarios.MostBorrowedExample | src/service/Reports.java:9-18 | loans of "1", "1", "2" give the rows ("1", 2) then ("2", 1) |

## Left out

- Console menu, prompts, printing, and file saving and loading in `Main` are I/O. Only `escapeCsv`, `unescapeCsv` and `splitCsvLine` are modelled. The reports return their rows instead of printing them.
- `listBooksSortedByTitle` only prints. The sorted copy it would print is `Inventory.SortedCopy`.
- `toString` formatting of books, borrowers and loans is not part of this model.
- `LocalDate.now()` is the parameter `today`. Dates are day numbers, and `minusDays(14)` is subtraction.
- `IgnoreCase.CompareIgnoreCase`: case folding covers ASCII letters only. Java's Unicode case mapping is not modelled.
- Borrower fines: `fines` is an integer number of cents rather than a `double`. The report only compares fines. `borrowedBooks` is never read or written and is left out.
- `SearchUtils.BinarySearchByTitle`: integers are unbounded, so the 32-bit overflow of `(low + high) / 2` on lists longer than 2^30 is not modelled.
- `Reports.MostBorrowedBooks`: counts are unbounded, so the overflow of `b.getValue() - a.getValue()` and of `Integer` counts is not modelled. Which of several equal counts is listed is left unspecified.
- `Reports.TopBorrowersByFines`: which of several borrowers with equal fines is listed is left unspecified.
- HashMap iteration order is not fixed. `getAllBooks`, `getAllBorrowers`, the entry set in `mostBorrowedBooks` and `inventoryByCategory` visit keys in an unspecified order.
- PriorityQueue heap layout is not modelled. Among loans with equal due dates, the poll order is unspecified.
- `Inventory.BookInventory.GetBooksByCategory`: Java returns the live map. Dafny returns a value, so later changes made through the returned map are not modelled.
- `Inventory.BookInventory.RemoveBook`: buckets emptied by a removal stay in the map as empty lists, as `removeBook` leaves them.
- `Registry.FindBorrowerRecursive`: `index` is a `nat`. A negative index makes `list.get` throw in Java.
- `Csv.SplitCsvLine`: requires `limit >= 1`. For a smaller limit Java throws when it allocates or copies the array.
- `Csv.EscapeCsv`: `null` fields map to "" in Java; Dafny strings are never null.
- Fine accrual is not modelled, because no code connects overdue loans to `Borrower.fines`.

## Findings

| source | as written | input that shows it | evidently intended | confidence | as-written member | corrected member |
|---|---|---|---|---|---|---|
| src/Main.java:341-345 | `escapeCsv` turns "," into ";;" but leaves ";" alone, so `unescapeCsv` cannot tell an escaped comma from a ";;" already in the text | the field ";;" is saved as ";;" and loaded back as "," | a saved field loads back exactly as written | not executed | Csv.EscapeRoundTripFails | Csv.UnescapeEscapeField |
