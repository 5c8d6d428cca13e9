/**
 * `String.compareToIgnoreCase` on titles. Java compares the two strings
 * character by character after case-folding each character and returns the
 * difference of the first pair of folded characters that differ, or else the
 * difference of the lengths. Folding here is the ASCII letter fold.
 */
module IgnoreCase {

  /** Case-fold one character: ASCII upper-case letters become lower-case. */
  function Fold(c: char): char {
    if 'A' <= c <= 'Z' then (c as int + 32) as char else c
  }

  /** The case-folded key of a string. */
  function Folded(s: string): (r: string)
    ensures |r| == |s|
    ensures forall i :: 0 <= i < |s| ==> r[i] == Fold(s[i])
  {
    if s == [] then [] else [Fold(s[0])] + Folded(s[1..])
  }

  /** Java's `String.compareTo`: first differing character, else length. */
  function LexCompare(x: string, y: string): int {
    if x == [] || y == [] then |x| - |y|
    else if x[0] != y[0] then x[0] as int - y[0] as int
    else LexCompare(x[1..], y[1..])
  }

  /** `a.compareToIgnoreCase(b)`. */
  function CompareIgnoreCase(a: string, b: string): int {
    LexCompare(Folded(a), Folded(b))
  }

  /** The order the title sort and the title search use: `compare <= 0`. */
  predicate IgnoreCaseLe(a: string, b: string) {
    CompareIgnoreCase(a, b) <= 0
  }

  lemma {:induction false} LexCompareZero(x: string, y: string)
    ensures LexCompare(x, y) == 0 <==> x == y
  {
    if x != [] && y != [] && x[0] == y[0] {
      LexCompareZero(x[1..], y[1..]);
      assert x == [x[0]] + x[1..] && y == [y[0]] + y[1..];
    }
  }

  lemma {:induction false} LexCompareAntisymmetric(x: string, y: string)
    ensures LexCompare(x, y) == -LexCompare(y, x)
  {
    if x != [] && y != [] && x[0] == y[0] {
      LexCompareAntisymmetric(x[1..], y[1..]);
    }
  }

  lemma {:induction false} LexCompareTransitive(x: string, y: string, z: string)
    requires LexCompare(x, y) <= 0 && LexCompare(y, z) <= 0
    ensures LexCompare(x, z) <= 0
  {
    if x != [] && y != [] && z != [] && x[0] == y[0] && y[0] == z[0] {
      LexCompareTransitive(x[1..], y[1..], z[1..]);
    }
  }

  /** Comparing ignoring case returns 0 exactly when the folded keys agree. */
  lemma CompareZeroIff(a: string, b: string)
    ensures CompareIgnoreCase(a, b) == 0 <==> Folded(a) == Folded(b)
  {
    LexCompareZero(Folded(a), Folded(b));
  }

  lemma CompareAntisymmetric(a: string, b: string)
    ensures CompareIgnoreCase(a, b) == -CompareIgnoreCase(b, a)
  {
    LexCompareAntisymmetric(Folded(a), Folded(b));
  }

  lemma CompareTransitive(a: string, b: string, c: string)
    requires CompareIgnoreCase(a, b) <= 0 && CompareIgnoreCase(b, c) <= 0
    ensures CompareIgnoreCase(a, c) <= 0
  {
    LexCompareTransitive(Folded(a), Folded(b), Folded(c));
  }

  /** A chain of `<=` steps with one strict step is strict. */
  lemma CompareStrictTransitive(a: string, b: string, c: string)
    requires CompareIgnoreCase(a, b) <= 0 && CompareIgnoreCase(b, c) <= 0
    requires CompareIgnoreCase(a, b) < 0 || CompareIgnoreCase(b, c) < 0
    ensures CompareIgnoreCase(a, c) < 0
  {
    CompareTransitive(a, b, c);
    if CompareIgnoreCase(a, c) == 0 {
      CompareZeroIff(a, c);
      CompareAntisymmetric(b, c);
    }
  }

  /** Titles that are equal ignoring case compare alike against any third title. */
  lemma CompareRespectsFolding(a: string, a': string, b: string)
    requires CompareIgnoreCase(a, a') == 0
    ensures CompareIgnoreCase(a, b) == CompareIgnoreCase(a', b)
  {
    CompareZeroIff(a, a');
  }

  /** `IgnoreCaseLe` is a total preorder: reflexive, total and transitive. */
  lemma IgnoreCaseLeIsTotalPreorder()
    ensures forall a :: IgnoreCaseLe(a, a)
    ensures forall a, b :: IgnoreCaseLe(a, b) || IgnoreCaseLe(b, a)
    ensures forall a, b, c :: IgnoreCaseLe(a, b) && IgnoreCaseLe(b, c) ==> IgnoreCaseLe(a, c)
  {
    forall a ensures IgnoreCaseLe(a, a) {
      CompareZeroIff(a, a);
    }
    forall a, b ensures IgnoreCaseLe(a, b) || IgnoreCaseLe(b, a) {
      CompareAntisymmetric(a, b);
    }
    forall a, b, c | IgnoreCaseLe(a, b) && IgnoreCaseLe(b, c) ensures IgnoreCaseLe(a, c) {
      CompareTransitive(a, b, c);
    }
  }
}
