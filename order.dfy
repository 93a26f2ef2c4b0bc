/**
 * The ordering hook of a set: a comparator that answers negative, zero or positive
 * for "less", "equal" and "greater" (cset.h:24-32).  Everything the container does
 * is judged through this hook, so "equal" below always means "compares to zero".
 */
module Order {

  /** The comparator is a total preorder whose zero answers form an equivalence. */
  ghost predicate IsComparator<T(!new)>(cmp: (T, T) -> int) {
    && (forall a :: cmp(a, a) == 0)
    && (forall a, b :: cmp(a, b) < 0 <==> cmp(b, a) > 0)
    && (forall a, b, c :: Chains(cmp, a, b, c))
  }

  /** "At most" is transitive through b. */
  ghost predicate Chains<T>(cmp: (T, T) -> int, a: T, b: T, c: T) {
    cmp(a, b) <= 0 && cmp(b, c) <= 0 ==> cmp(a, c) <= 0
  }

  /** Every element compares equal to itself. */
  ghost predicate Reflexive<T(!new)>(cmp: (T, T) -> int) {
    forall a :: cmp(a, a) == 0
  }

  /** The container's intended layout: slots in strictly ascending order. */
  ghost predicate StrictlyAscending<T>(cmp: (T, T) -> int, s: seq<T>) {
    forall i, j {:trigger cmp(s[i], s[j])} :: 0 <= i < j < |s| ==> cmp(s[i], s[j]) < 0
  }

  /** The weaker layout under which a binary search still works: no slot is greater than a later one. */
  ghost predicate Sorted<T>(cmp: (T, T) -> int, s: seq<T>) {
    forall i, j {:trigger cmp(s[i], s[j])} :: 0 <= i < j < |s| ==> cmp(s[i], s[j]) <= 0
  }

  /** Some slot of s compares equal to x (the key goes first, as bsearch and cset_add call it). */
  ghost predicate HasEqual<T>(cmp: (T, T) -> int, s: seq<T>, x: T) {
    exists i :: 0 <= i < |s| && cmp(x, s[i]) == 0
  }

  /** The integer comparator of the test program (set_test.c:13-17), without 32-bit overflow. */
  function IntCompare(a: int, b: int): int {
    a - b
  }

  lemma IntCompareIsComparator()
    ensures IsComparator(IntCompare)
  {
  }

  lemma ComparatorIsReflexive<T(!new)>(cmp: (T, T) -> int)
    requires IsComparator(cmp)
    ensures Reflexive(cmp)
  {
  }

  lemma StrictlyAscendingIsSorted<T>(cmp: (T, T) -> int, s: seq<T>)
    requires StrictlyAscending(cmp, s)
    ensures Sorted(cmp, s)
  {
  }

  /** "Less than" followed by "at most" is "less than". */
  lemma LessThenAtMost<T(!new)>(cmp: (T, T) -> int, a: T, b: T, c: T)
    requires IsComparator(cmp)
    requires cmp(a, b) < 0 && cmp(b, c) <= 0
    ensures cmp(a, c) < 0
  {
    assert Chains(cmp, a, b, c) && Chains(cmp, b, c, a);
  }

  /** "At most" followed by "less than" is "less than". */
  lemma AtMostThenLess<T(!new)>(cmp: (T, T) -> int, a: T, b: T, c: T)
    requires IsComparator(cmp)
    requires cmp(a, b) <= 0 && cmp(b, c) < 0
    ensures cmp(a, c) < 0
  {
    assert Chains(cmp, a, b, c) && Chains(cmp, c, a, b);
  }
}
