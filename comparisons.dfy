/** The comparison operators of SimpleVector, applied to the live elements of
    the two vectors (Elements()). The element type's operator< is the
    parameter `less`; its operator== is Dafny equality. */
module Comparisons {

  /** std::equal over two ranges of the same length, front to back. */
  function RangesEqual<T(==)>(a: seq<T>, b: seq<T>): (r: bool)
    requires |a| == |b|
    ensures r <==> forall i :: 0 <= i < |a| ==> a[i] == b[i]
    decreases |a|
  {
    if |a| == 0 then true
    else if a[0] != b[0] then false
    else
      var rest := RangesEqual(a[1..], b[1..]);
      assert forall i :: 1 <= i < |a| ==> a[i] == a[1..][i - 1] && b[i] == b[1..][i - 1];
      rest
  }

  /** operator==: different sizes are unequal; otherwise the elements are
      compared pairwise. */
  function Equal<T(==)>(lhs: seq<T>, rhs: seq<T>): (r: bool)
    ensures r <==> |lhs| == |rhs| && forall i :: 0 <= i < |lhs| ==> lhs[i] == rhs[i]
  {
    if |lhs| != |rhs| then false else RangesEqual(lhs, rhs)
  }

  /** operator!=: true exactly when the two sequences differ. */
  function NotEqual<T(==)>(lhs: seq<T>, rhs: seq<T>): (r: bool)
    ensures r <==> lhs != rhs
  {
    !Equal(lhs, rhs)
  }

  /** Neither element is less than the other (the equivalence that
      std::lexicographical_compare works with). */
  predicate Equivalent<T>(x: T, y: T, less: (T, T) -> bool) {
    !less(x, y) && !less(y, x)
  }

  /** lhs is decided to be less than rhs at position k: the first k elements
      are pairwise equivalent and then either lhs ends while rhs goes on, or
      lhs[k] is less than rhs[k]. */
  ghost predicate DecidedLessAt<T>(lhs: seq<T>, rhs: seq<T>, less: (T, T) -> bool, k: nat) {
    k <= |lhs| && k <= |rhs| &&
    (forall i :: 0 <= i < k ==> Equivalent(lhs[i], rhs[i], less)) &&
    ((k == |lhs| && k < |rhs|) || (k < |lhs| && k < |rhs| && less(lhs[k], rhs[k])))
  }

  /** Moving past an equivalent first pair keeps the set of deciding
      positions, shifted by one. */
  lemma DecidedLessAtTail<T>(lhs: seq<T>, rhs: seq<T>, less: (T, T) -> bool)
    requires |lhs| > 0 && |rhs| > 0 && Equivalent(lhs[0], rhs[0], less)
    ensures (exists k: nat :: DecidedLessAt(lhs, rhs, less, k))
            <==> (exists k: nat :: DecidedLessAt(lhs[1..], rhs[1..], less, k))
  {
    if exists k: nat :: DecidedLessAt(lhs, rhs, less, k) {
      var k: nat :| DecidedLessAt(lhs, rhs, less, k);
      assert k > 0;
      assert DecidedLessAt(lhs[1..], rhs[1..], less, k - 1);
    }
    if exists k: nat :: DecidedLessAt(lhs[1..], rhs[1..], less, k) {
      var k: nat :| DecidedLessAt(lhs[1..], rhs[1..], less, k);
      assert forall i :: 1 <= i < k + 1 ==> lhs[i] == lhs[1..][i - 1] && rhs[i] == rhs[1..][i - 1];
      assert DecidedLessAt(lhs, rhs, less, k + 1);
    }
  }

  /** operator<, std::lexicographical_compare: true exactly when some position
      decides lhs to be less, i.e. at the first position where the elements are
      not equivalent lhs has the smaller one, or lhs runs out first while rhs
      has elements left. */
  function Less<T>(lhs: seq<T>, rhs: seq<T>, less: (T, T) -> bool): (r: bool)
    ensures r <==> exists k: nat :: DecidedLessAt(lhs, rhs, less, k)
    decreases |lhs|
  {
    if |rhs| == 0 then false
    else if |lhs| == 0 then assert DecidedLessAt(lhs, rhs, less, 0); true
    else if less(lhs[0], rhs[0]) then assert DecidedLessAt(lhs, rhs, less, 0); true
    else if less(rhs[0], lhs[0]) then false
    else
      var rest := Less(lhs[1..], rhs[1..], less);
      DecidedLessAtTail(lhs, rhs, less);
      rest
  }

  /** operator<=, !(rhs < lhs): no position decides rhs to be less. */
  function LessOrEqual<T>(lhs: seq<T>, rhs: seq<T>, less: (T, T) -> bool): (r: bool)
    ensures r <==> forall k: nat :: !DecidedLessAt(rhs, lhs, less, k)
  {
    !Less(rhs, lhs, less)
  }

  /** operator>, rhs < lhs: some position decides rhs to be less. */
  function Greater<T>(lhs: seq<T>, rhs: seq<T>, less: (T, T) -> bool): (r: bool)
    ensures r <==> exists k: nat :: DecidedLessAt(rhs, lhs, less, k)
  {
    Less(rhs, lhs, less)
  }

  /** operator>=, !(lhs < rhs): no position decides lhs to be less. */
  function GreaterOrEqual<T>(lhs: seq<T>, rhs: seq<T>, less: (T, T) -> bool): (r: bool)
    ensures r <==> forall k: nat :: !DecidedLessAt(lhs, rhs, less, k)
  {
    !Less(lhs, rhs, less)
  }

  /** What the element type's operator< is assumed to be for the lemmas below. */
  ghost predicate StrictTotalOrder<T(!new)>(less: (T, T) -> bool) {
    (forall x :: !less(x, x)) &&
    (forall x, y, z :: less(x, y) && less(y, z) ==> less(x, z)) &&
    (forall x, y :: x != y ==> less(x, y) || less(y, x))
  }

  /** == and != are structural equality and its negation. */
  lemma EqualIsEquality<T>(lhs: seq<T>, rhs: seq<T>)
    ensures Equal(lhs, rhs) <==> lhs == rhs
    ensures NotEqual(lhs, rhs) <==> lhs != rhs
  {
  }

  /** lhs and rhs agree on their first k elements, and then lhs ends while
      rhs goes on, or lhs[k] is less than rhs[k]. */
  ghost predicate LexLessAt<T>(lhs: seq<T>, rhs: seq<T>, less: (T, T) -> bool, k: nat) {
    k <= |lhs| && k <= |rhs| && lhs[..k] == rhs[..k] &&
    ((k == |lhs| && k < |rhs|) || (k < |lhs| && k < |rhs| && less(lhs[k], rhs[k])))
  }

  /** For a strict total element order, equivalent elements are equal, so a
      position decides lhs to be less exactly when it is a lexicographic one. */
  lemma DecidedIsLexAt<T(!new)>(lhs: seq<T>, rhs: seq<T>, less: (T, T) -> bool, k: nat)
    requires StrictTotalOrder(less)
    ensures DecidedLessAt(lhs, rhs, less, k) <==> LexLessAt(lhs, rhs, less, k)
  {
  }

  /** For a strict total element order, < is lexicographic order: there is a
      common prefix after which lhs ends while rhs goes on, or lhs has the
      smaller element. */
  lemma LessIsLexicographic<T(!new)>(lhs: seq<T>, rhs: seq<T>, less: (T, T) -> bool)
    requires StrictTotalOrder(less)
    ensures Less(lhs, rhs, less) <==> exists k: nat :: LexLessAt(lhs, rhs, less, k)
  {
    if Less(lhs, rhs, less) {
      var k: nat :| DecidedLessAt(lhs, rhs, less, k);
      DecidedIsLexAt(lhs, rhs, less, k);
    }
    if exists k: nat :: LexLessAt(lhs, rhs, less, k) {
      var k: nat :| LexLessAt(lhs, rhs, less, k);
      DecidedIsLexAt(lhs, rhs, less, k);
    }
  }

  /** A proper prefix is less than the sequence it starts. */
  lemma {:induction false} PrefixIsLess<T>(lhs: seq<T>, rhs: seq<T>, less: (T, T) -> bool)
    requires |lhs| < |rhs| && lhs == rhs[..|lhs|]
    ensures Less(lhs, rhs, less)
  {
    if |lhs| > 0 {
      assert lhs[1..] == rhs[1..][..|lhs| - 1];
      PrefixIsLess(lhs[1..], rhs[1..], less);
    }
  }

  /** < is irreflexive whenever the element order is. */
  lemma LessIrreflexive<T>(s: seq<T>, less: (T, T) -> bool)
    requires forall x :: !less(x, x)
    ensures !Less(s, s, less)
  {
  }

  /** < is transitive for a strict total element order. */
  lemma {:induction false} LessTransitive<T(!new)>(a: seq<T>, b: seq<T>, c: seq<T>, less: (T, T) -> bool)
    requires StrictTotalOrder(less)
    requires Less(a, b, less) && Less(b, c, less)
    ensures Less(a, c, less)
  {
    if |a| > 0 && |b| > 0 && |c| > 0 {
      if !less(a[0], b[0]) && !less(b[0], c[0]) {
        assert a[0] == b[0] && b[0] == c[0];
        LessTransitive(a[1..], b[1..], c[1..], less);
      }
    }
  }

  /** For a strict total element order exactly one of lhs < rhs, lhs == rhs,
      rhs < lhs holds. */
  lemma {:induction false} LessTrichotomy<T(!new)>(lhs: seq<T>, rhs: seq<T>, less: (T, T) -> bool)
    requires StrictTotalOrder(less)
    ensures Less(lhs, rhs, less) || lhs == rhs || Less(rhs, lhs, less)
    ensures !(Less(lhs, rhs, less) && Less(rhs, lhs, less))
    ensures lhs == rhs ==> !Less(lhs, rhs, less)
  {
    if lhs == rhs {
      LessIrreflexive(lhs, less);
    } else if |lhs| > 0 && |rhs| > 0 {
      LessTrichotomy(lhs[1..], rhs[1..], less);
    }
  }

  /** The derived operators mean what their names say, for a strict total
      element order. */
  lemma DerivedOperators<T(!new)>(lhs: seq<T>, rhs: seq<T>, less: (T, T) -> bool)
    requires StrictTotalOrder(less)
    ensures LessOrEqual(lhs, rhs, less) <==> Less(lhs, rhs, less) || Equal(lhs, rhs)
    ensures Greater(lhs, rhs, less) <==> !Less(lhs, rhs, less) && !Equal(lhs, rhs)
    ensures GreaterOrEqual(lhs, rhs, less) <==> Greater(lhs, rhs, less) || Equal(lhs, rhs)
  {
  }
}
