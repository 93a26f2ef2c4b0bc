/**
 * The set operations of cset.c (cset.c:245-335) stated on slot sequences.  Every
 * operation builds its result with cset_add, so each is a run of adds (Slots.AddAll)
 * over the elements it selects.  `cmp1` is set1's comparator (the result's, used by
 * every add) and `cmp2` is set2's (used by cset_contains(set2, ...)).
 */
module Algebra {
  import opened Order
  import opened Slots

  /** The elements of a, in slot order, for which cset_contains(b, .) answers `inside`. */
  function Matching<T>(cmp: (T, T) -> int, a: seq<T>, b: seq<T>, inside: bool): (r: seq<T>)
    ensures |r| <= |a|
    ensures forall i :: 0 <= i < |r| ==> r[i] in a && Contains(cmp, b, r[i]) == inside
    decreases |a|
  {
    if a == [] then []
    else
      var last := a[|a| - 1];
      Matching(cmp, a[..|a| - 1], b, inside) + (if Contains(cmp, b, last) == inside then [last] else [])
  }

  /** The loop of cset_isSubsetOf for two different handles (cset.c:249-252). */
  function AllContained<T>(cmp: (T, T) -> int, a: seq<T>, b: seq<T>): bool {
    forall i :: 0 <= i < |a| ==> Contains(cmp, b, a[i])
  }

  /** cset_union (cset.c:263-278): every slot of a, then every slot of b, added to an empty set. */
  function UnionOf<T>(cmp1: (T, T) -> int, a: seq<T>, b: seq<T>): seq<T> {
    AddAll(cmp1, AddAll(cmp1, [], a), b)
  }

  /**
   * cset_intersect (cset.c:287-301) as intended: the slots of a that b contains, added
   * to an empty set (the bound the code puts on the loop is kept in module Findings).
   */
  function IntersectionOf<T>(cmp1: (T, T) -> int, cmp2: (T, T) -> int, a: seq<T>, b: seq<T>): seq<T> {
    AddAll(cmp1, [], Matching(cmp2, a, b, true))
  }

  /** cset_difference (cset.c:309-320): the slots of a that b does not contain, added to an empty set. */
  function DifferenceOf<T>(cmp1: (T, T) -> int, cmp2: (T, T) -> int, a: seq<T>, b: seq<T>): seq<T> {
    AddAll(cmp1, [], Matching(cmp2, a, b, false))
  }

  /**
   * cset_symmetricDifference (cset.c:326-335): the union of a - b (made with set1's hooks)
   * and b - a (made with set2's hooks), the union taking the first difference's comparator.
   */
  function SymmetricDifferenceOf<T>(cmp1: (T, T) -> int, cmp2: (T, T) -> int, a: seq<T>, b: seq<T>): seq<T> {
    UnionOf(cmp1, DifferenceOf(cmp1, cmp2, a, b), DifferenceOf(cmp2, cmp1, b, a))
  }

  // ---------------------------------------------------------------- selection

  /** Selecting from a strictly ascending sequence keeps it strictly ascending. */
  lemma {:induction false} MatchingAscending<T>(cmp: (T, T) -> int, c: (T, T) -> int, a: seq<T>, b: seq<T>, inside: bool)
    requires StrictlyAscending(c, a)
    ensures StrictlyAscending(c, Matching(cmp, a, b, inside))
    decreases |a|
  {
    if a != [] {
      var init := a[..|a| - 1];
      var last := a[|a| - 1];
      assert StrictlyAscending(c, init);
      MatchingAscending(cmp, c, init, b, inside);
      var m := Matching(cmp, init, b, inside);
      forall i | 0 <= i < |m| ensures c(m[i], last) < 0 {
        var k :| 0 <= k < |init| && init[k] == m[i];
        assert a[k] == init[k];
      }
    }
  }

  /** Selecting from one more slot selects that slot last, if at all: the step of the selecting loops. */
  lemma MatchingSnoc<T>(cmp: (T, T) -> int, a: seq<T>, b: seq<T>, inside: bool, y: T)
    ensures Matching(cmp, a + [y], b, inside) ==
            Matching(cmp, a, b, inside) + (if Contains(cmp, b, y) == inside then [y] else [])
  {
    assert (a + [y])[..|a|] == a;
  }

  /** One more slot of a considered by a selecting loop: it is added exactly when it is selected. */
  lemma SelectPrefix<T>(cmp1: (T, T) -> int, cmp2: (T, T) -> int, s: seq<T>, a: seq<T>, b: seq<T>, inside: bool, i: nat)
    requires i < |a|
    ensures AddAll(cmp1, s, Matching(cmp2, a[..i + 1], b, inside)) ==
            if Contains(cmp2, b, a[i]) == inside then Added(cmp1, AddAll(cmp1, s, Matching(cmp2, a[..i], b, inside)), a[i])
            else AddAll(cmp1, s, Matching(cmp2, a[..i], b, inside))
  {
    var m := Matching(cmp2, a[..i], b, inside);
    assert a[..i + 1] == a[..i] + [a[i]];
    MatchingSnoc(cmp2, a[..i], b, inside, a[i]);
    if Contains(cmp2, b, a[i]) == inside {
      AddAllSnoc(cmp1, s, m, a[i]);
    } else {
      assert m + [] == m;
    }
  }

  /** Under a reflexive comparator every slot of a set has an equal in that set. */
  lemma SelfContained<T(!new)>(cmp: (T, T) -> int, s: seq<T>)
    requires Reflexive(cmp)
    ensures forall i :: 0 <= i < |s| ==> HasEqual(cmp, s, s[i])
  {
    forall i | 0 <= i < |s| ensures HasEqual(cmp, s, s[i]) {
      assert cmp(s[i], s[i]) == 0;
    }
  }

  /** Every slot of a that cset_contains(b, .) answers `inside` for is selected. */
  lemma {:induction false} MatchingComplete<T>(cmp: (T, T) -> int, a: seq<T>, b: seq<T>, inside: bool, k: nat)
    requires k < |a| && Contains(cmp, b, a[k]) == inside
    ensures a[k] in Matching(cmp, a, b, inside)
    decreases |a|
  {
    if k < |a| - 1 {
      assert a[k] == a[..|a| - 1][k];
      MatchingComplete(cmp, a[..|a| - 1], b, inside, k);
    }
  }

  // ---------------------------------------------------------------- union

  /** The union has at most |a| + |b| elements, each taken from a or b. */
  lemma UnionBound<T>(cmp1: (T, T) -> int, a: seq<T>, b: seq<T>)
    ensures |UnionOf(cmp1, a, b)| <= |a| + |b|
    ensures multiset(UnionOf(cmp1, a, b)) <= multiset(a) + multiset(b)
  {
    AddAllBound(cmp1, [], a);
    AddAllBound(cmp1, AddAll(cmp1, [], a), b);
    AddAllFrom(cmp1, [], a);
    AddAllFrom(cmp1, AddAll(cmp1, [], a), b);
  }

  /** Every element of either operand has an equal element in the union. */
  lemma UnionCovers<T(!new)>(cmp1: (T, T) -> int, a: seq<T>, b: seq<T>)
    requires Reflexive(cmp1)
    ensures forall i :: 0 <= i < |a| ==> HasEqual(cmp1, UnionOf(cmp1, a, b), a[i])
    ensures forall i :: 0 <= i < |b| ==> HasEqual(cmp1, UnionOf(cmp1, a, b), b[i])
  {
    var first := AddAll(cmp1, [], a);
    AddAllCovers(cmp1, [], a);
    AddAllCovers(cmp1, first, b);
    forall i | 0 <= i < |a| ensures HasEqual(cmp1, UnionOf(cmp1, a, b), a[i]) {
      HasEqualKept(cmp1, first, UnionOf(cmp1, a, b), a[i]);
    }
  }

  /**
   * The union of two strictly ascending sets has exactly |a| + |b| elements if and only if
   * no element of b is equal to an element of a.
   */
  lemma UnionSizeDisjoint<T(!new)>(cmp1: (T, T) -> int, a: seq<T>, b: seq<T>)
    requires IsComparator(cmp1) && StrictlyAscending(cmp1, a) && StrictlyAscending(cmp1, b)
    ensures |UnionOf(cmp1, a, b)| == |a| + |b| <==> forall k :: 0 <= k < |b| ==> !HasEqual(cmp1, a, b[k])
  {
    assert [] + a == a;
    AddAllAscending(cmp1, [], a);
    if forall k :: 0 <= k < |b| ==> !HasEqual(cmp1, a, b[k]) {
      forall j, k | 0 <= j < k < |b|
        ensures cmp1(b[k], b[j]) != 0
      {
        assert cmp1(b[j], b[k]) < 0;
      }
      AddAllDistinct(cmp1, a, b);
    } else {
      var k :| 0 <= k < |b| && HasEqual(cmp1, a, b[k]);
      AddAllRefused(cmp1, a, b, k);
    }
  }

  // ---------------------------------------------------------------- difference and intersection

  /**
   * The difference of a strictly ascending a is exactly a's slots that b does not contain,
   * in ascending order.
   */
  lemma DifferenceExact<T(!new)>(cmp1: (T, T) -> int, cmp2: (T, T) -> int, a: seq<T>, b: seq<T>)
    requires IsComparator(cmp1) && StrictlyAscending(cmp1, a)
    ensures DifferenceOf(cmp1, cmp2, a, b) == Matching(cmp2, a, b, false)
    ensures StrictlyAscending(cmp1, DifferenceOf(cmp1, cmp2, a, b))
    ensures forall x :: x in DifferenceOf(cmp1, cmp2, a, b) <==> x in a && !Contains(cmp2, b, x)
  {
    var m := Matching(cmp2, a, b, false);
    MatchingAscending(cmp2, cmp1, a, b, false);
    AddAllAscending(cmp1, [], m);
    assert [] + m == m;
    forall x | x in a && !Contains(cmp2, b, x) ensures x in m {
      var k :| 0 <= k < |a| && a[k] == x;
      MatchingComplete(cmp2, a, b, false, k);
    }
  }

  /**
   * For a strictly ascending set1 and a sorted set2, the intersection holds exactly the
   * elements of set1 that have an equal element in set2, in ascending order.
   */
  lemma IntersectionExact<T(!new)>(cmp1: (T, T) -> int, cmp2: (T, T) -> int, a: seq<T>, b: seq<T>)
    requires IsComparator(cmp1) && StrictlyAscending(cmp1, a)
    requires IsComparator(cmp2) && Sorted(cmp2, b)
    ensures IntersectionOf(cmp1, cmp2, a, b) == Matching(cmp2, a, b, true)
    ensures StrictlyAscending(cmp1, IntersectionOf(cmp1, cmp2, a, b))
    ensures forall x :: x in IntersectionOf(cmp1, cmp2, a, b) <==> x in a && HasEqual(cmp2, b, x)
  {
    var m := Matching(cmp2, a, b, true);
    MatchingAscending(cmp2, cmp1, a, b, true);
    assert [] + m == m;
    AddAllAscending(cmp1, [], m);
    forall x ensures x in m <==> x in a && HasEqual(cmp2, b, x) {
      FindIsMembership(cmp2, b, x);
      if x in a && HasEqual(cmp2, b, x) {
        var k :| 0 <= k < |a| && a[k] == x;
        MatchingComplete(cmp2, a, b, true, k);
      }
    }
  }

  // ---------------------------------------------------------------- symmetric difference

  /**
   * Every element of the symmetric difference comes from one operand and is not contained
   * in the other; every such element of either operand has an equal element in it.
   */
  lemma SymmetricDifferenceMeaning<T(!new)>(cmp1: (T, T) -> int, cmp2: (T, T) -> int, a: seq<T>, b: seq<T>)
    requires IsComparator(cmp1) && IsComparator(cmp2)
    requires StrictlyAscending(cmp1, a) && StrictlyAscending(cmp2, b)
    ensures forall x :: x in SymmetricDifferenceOf(cmp1, cmp2, a, b) ==>
              (x in a && !Contains(cmp2, b, x)) || (x in b && !Contains(cmp1, a, x))
    ensures forall x :: x in a && !Contains(cmp2, b, x) ==> HasEqual(cmp1, SymmetricDifferenceOf(cmp1, cmp2, a, b), x)
    ensures forall x :: x in b && !Contains(cmp1, a, x) ==> HasEqual(cmp1, SymmetricDifferenceOf(cmp1, cmp2, a, b), x)
  {
    var d1 := DifferenceOf(cmp1, cmp2, a, b);
    var d2 := DifferenceOf(cmp2, cmp1, b, a);
    var r := SymmetricDifferenceOf(cmp1, cmp2, a, b);
    DifferenceExact(cmp1, cmp2, a, b);
    DifferenceExact(cmp2, cmp1, b, a);
    UnionBound(cmp1, d1, d2);
    forall x | x in r ensures (x in a && !Contains(cmp2, b, x)) || (x in b && !Contains(cmp1, a, x)) {
      assert x in multiset(r);
      assert x in multiset(d1) + multiset(d2);
    }
    UnionCovers(cmp1, d1, d2);
    forall x | x in a && !Contains(cmp2, b, x) ensures HasEqual(cmp1, r, x) {
      var i :| 0 <= i < |d1| && d1[i] == x;
    }
    forall x | x in b && !Contains(cmp1, a, x) ensures HasEqual(cmp1, r, x) {
      var i :| 0 <= i < |d2| && d2[i] == x;
    }
  }

  // ---------------------------------------------------------------- subset

  /** On a sorted b, the subset loop answers true exactly when every slot of a has an equal slot in b. */
  lemma AllContainedMeaning<T(!new)>(cmp: (T, T) -> int, a: seq<T>, b: seq<T>)
    requires IsComparator(cmp) && Sorted(cmp, b)
    ensures AllContained(cmp, a, b) <==> forall i :: 0 <= i < |a| ==> HasEqual(cmp, b, a[i])
  {
    forall i | 0 <= i < |a| ensures Contains(cmp, b, a[i]) <==> HasEqual(cmp, b, a[i]) {
      FindIsMembership(cmp, b, a[i]);
    }
  }
}
