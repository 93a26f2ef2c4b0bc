/**
 * Sets of sets: the comparator cset_compare on the slots of two sets, and the power
 * set of cset_powerSet (cset.c:350-370).  A nested set is represented here by its
 * sequence of occupied slots.
 */
module Nesting {
  import opened Order
  import opened Slots

  /** The element-by-element loop of cset_compare (cset.c:428-432), from slot i on: the first nonzero answer. */
  function ElementwiseCompare<T>(cmp: (T, T) -> int, s: seq<T>, t: seq<T>, i: nat): (r: int)
    requires |s| == |t| && i <= |s|
    ensures r == 0 <==> forall k :: i <= k < |s| ==> cmp(s[k], t[k]) == 0
    ensures r != 0 ==> exists k :: i <= k < |s| && r == cmp(s[k], t[k]) && forall j :: i <= j < k ==> cmp(s[j], t[j]) == 0
    decreases |s| - i
  {
    if i == |s| then 0
    else
      var c := cmp(s[i], t[i]);
      if c != 0 then c else ElementwiseCompare(cmp, s, t, i + 1)
  }

  /**
   * cset_compare (cset.c:424-432) for two different handles of equal element size, on their
   * slots: the set with fewer elements is smaller; otherwise the first unequal pair decides.
   */
  function ContentsCompare<T>(cmp: (T, T) -> int, s: seq<T>, t: seq<T>): (r: int)
    ensures |s| != |t| ==> r != 0 && (r < 0 <==> |s| < |t|)
    ensures r == 0 <==> |s| == |t| && forall k :: 0 <= k < |s| ==> cmp(s[k], t[k]) == 0
  {
    if |s| != |t| then |s| - |t| else ElementwiseCompare(cmp, s, t, 0)
  }

  /** The ordering hook of a set whose elements are sets of T. */
  function NestedCompare<T>(cmp: (T, T) -> int): (seq<T>, seq<T>) -> int {
    (s: seq<T>, t: seq<T>) => ContentsCompare(cmp, s, t)
  }

  /** A set compares equal to itself when its elements do. */
  lemma NestedCompareReflexive<T(!new)>(cmp: (T, T) -> int)
    requires Reflexive(cmp)
    ensures Reflexive(NestedCompare(cmp))
  {
  }

  /** Swapping the operands of the pairwise loop flips the sign of its answer. */
  lemma {:induction false} ElementwiseFlip<T(!new)>(cmp: (T, T) -> int, s: seq<T>, t: seq<T>, i: nat)
    requires IsComparator(cmp) && |s| == |t| && i <= |s|
    ensures ElementwiseCompare(cmp, s, t, i) < 0 <==> ElementwiseCompare(cmp, t, s, i) > 0
    decreases |s| - i
  {
    if i < |s| {
      if cmp(s[i], t[i]) == 0 {
        assert cmp(t[i], s[i]) == 0;
        ElementwiseFlip(cmp, s, t, i + 1);
      }
    }
  }

  /** The pairwise loop is transitive in "at most". */
  lemma {:induction false} ElementwiseTransitive<T(!new)>(cmp: (T, T) -> int, a: seq<T>, b: seq<T>, c: seq<T>, i: nat)
    requires IsComparator(cmp) && |a| == |b| == |c| && i <= |a|
    requires ElementwiseCompare(cmp, a, b, i) <= 0 && ElementwiseCompare(cmp, b, c, i) <= 0
    ensures ElementwiseCompare(cmp, a, c, i) <= 0
    decreases |a| - i
  {
    if i < |a| {
      var x := cmp(a[i], b[i]);
      var y := cmp(b[i], c[i]);
      if x == 0 && y == 0 {
        assert Chains(cmp, a[i], b[i], c[i]) && Chains(cmp, c[i], b[i], a[i]);
        ElementwiseTransitive(cmp, a, b, c, i + 1);
      } else if x != 0 {
        LessThenAtMost(cmp, a[i], b[i], c[i]);
      } else {
        AtMostThenLess(cmp, a[i], b[i], c[i]);
      }
    }
  }

  /** cset_compare, as the hook of a set of sets, is a comparator whenever the element hook is one. */
  lemma NestedIsComparator<T(!new)>(cmp: (T, T) -> int)
    requires IsComparator(cmp)
    ensures IsComparator(NestedCompare(cmp))
  {
    var nc := NestedCompare(cmp);
    forall s: seq<T>, t: seq<T> ensures nc(s, t) < 0 <==> nc(t, s) > 0 {
      if |s| == |t| {
        ElementwiseFlip(cmp, s, t, 0);
      }
    }
    forall a: seq<T>, b: seq<T>, c: seq<T> | nc(a, b) <= 0 && nc(b, c) <= 0 ensures nc(a, c) <= 0 {
      if |a| == |b| == |c| {
        ElementwiseTransitive(cmp, a, b, c, 0);
      }
    }
  }

  // ---------------------------------------------------------------- bit patterns

  /** 1 << n. */
  function Pow2(n: nat): (r: nat)
    ensures r >= 1
  {
    if n == 0 then 1 else 2 * Pow2(n - 1)
  }

  /** (b >> i) & 1, as a truth value. */
  function Bit(b: nat, i: nat): bool {
    if i == 0 then b % 2 == 1 else Bit(b / 2, i - 1)
  }

  /** __builtin_popcount: the number of set bits of b. */
  function PopCount(b: nat): nat {
    if b == 0 then 0 else b % 2 + PopCount(b / 2)
  }

  /** The slots i of s with bit i of b set, in slot order. */
  function Picked<T>(s: seq<T>, b: nat): seq<T>
    decreases |s|
  {
    if s == [] then [] else (if b % 2 == 1 then [s[0]] else []) + Picked(s[1..], b / 2)
  }

  /** Slot i is picked exactly when bit i is set: the first i + 1 slots pick slot i after the first i. */
  lemma {:induction false} PickedSnoc<T>(s: seq<T>, b: nat, i: nat)
    requires i < |s|
    ensures Picked(s[..i + 1], b) == Picked(s[..i], b) + (if Bit(b, i) then [s[i]] else [])
    decreases i
  {
    if i == 0 {
      assert s[..1] == [s[0]];
      assert s[..1][1..] == [];
    } else {
      var rest := s[1..];
      assert s[..i + 1][1..] == rest[..i];
      assert s[..i][1..] == rest[..i - 1];
      PickedSnoc(rest, b / 2, i - 1);
    }
  }

  /** Every picked element is a slot of s. */
  lemma {:induction false} PickedFrom<T>(s: seq<T>, b: nat)
    ensures forall i :: 0 <= i < |Picked(s, b)| ==> Picked(s, b)[i] in s[..]
    decreases |s|
  {
    if s != [] {
      PickedFrom(s[1..], b / 2);
      forall i | 0 <= i < |Picked(s, b)| ensures Picked(s, b)[i] in s {
        if b % 2 == 1 && i > 0 {
          assert Picked(s, b)[i] == Picked(s[1..], b / 2)[i - 1];
        } else if b % 2 != 1 {
          assert Picked(s, b)[i] == Picked(s[1..], b / 2)[i];
        }
      }
    }
  }

  /** The pattern 0 picks nothing. */
  lemma {:induction false} PickedNone<T>(s: seq<T>)
    ensures Picked(s, 0) == []
    decreases |s|
  {
    if s != [] {
      PickedNone(s[1..]);
    }
  }

  /** A pattern below 2^n picks exactly as many slots as it has set bits (the subset's capacity hint). */
  lemma {:induction false} PickedSize<T>(s: seq<T>, b: nat)
    requires b < Pow2(|s|)
    ensures |Picked(s, b)| == PopCount(b)
    decreases |s|
  {
    if s != [] {
      PickedSize(s[1..], b / 2);
    }
  }

  /** Picking from a strictly ascending sequence gives a strictly ascending sequence. */
  lemma {:induction false} PickedAscending<T>(cmp: (T, T) -> int, s: seq<T>, b: nat)
    requires StrictlyAscending(cmp, s)
    ensures StrictlyAscending(cmp, Picked(s, b))
    decreases |s|
  {
    if s != [] {
      PickedAscending(cmp, s[1..], b / 2);
      HeadBelowPicked(cmp, s, b / 2);
    }
  }

  /** Prefixing the same element keeps two sets apart. */
  lemma SameHeadDistinct<T>(cmp: (T, T) -> int, x: T, p1: seq<T>, p2: seq<T>)
    requires ContentsCompare(cmp, p1, p2) != 0
    ensures ContentsCompare(cmp, [x] + p1, [x] + p2) != 0
  {
    if |p1| == |p2| {
      var k :| 0 <= k < |p1| && cmp(p1[k], p2[k]) != 0;
      assert ([x] + p1)[k + 1] == p1[k] && ([x] + p2)[k + 1] == p2[k];
    }
  }

  /** A set headed by an element below every element of another set differs from it, in both orders. */
  lemma LowerHeadDistinct<T(!new)>(cmp: (T, T) -> int, x: T, p1: seq<T>, p2: seq<T>)
    requires IsComparator(cmp)
    requires forall i :: 0 <= i < |p2| ==> cmp(x, p2[i]) < 0
    ensures ContentsCompare(cmp, [x] + p1, p2) != 0
    ensures ContentsCompare(cmp, p2, [x] + p1) != 0
  {
    if |p2| == |p1| + 1 {
      assert ([x] + p1)[0] == x;
      assert cmp(x, p2[0]) < 0 && cmp(p2[0], x) > 0;
    }
  }

  /** The first slot of a strictly ascending sequence is below every picked later slot. */
  lemma HeadBelowPicked<T>(cmp: (T, T) -> int, s: seq<T>, b: nat)
    requires s != [] && StrictlyAscending(cmp, s)
    ensures forall i :: 0 <= i < |Picked(s[1..], b)| ==> cmp(s[0], Picked(s[1..], b)[i]) < 0
  {
    var rest := s[1..];
    var p := Picked(rest, b);
    PickedFrom(rest, b);
    forall i | 0 <= i < |p| ensures cmp(s[0], p[i]) < 0 {
      var k :| 0 <= k < |rest| && rest[k] == p[i];
      assert s[k + 1] == p[i];
    }
  }

  /** Two different patterns below 2^n pick subsets that cset_compare tells apart. */
  lemma {:induction false} PickedDistinct<T(!new)>(cmp: (T, T) -> int, s: seq<T>, b1: nat, b2: nat)
    requires IsComparator(cmp) && StrictlyAscending(cmp, s)
    requires b1 < Pow2(|s|) && b2 < Pow2(|s|) && b1 != b2
    ensures ContentsCompare(cmp, Picked(s, b1), Picked(s, b2)) != 0
    decreases |s|
  {
    if s == [] {
      assert false;
    }
    var rest := s[1..];
    var p1 := Picked(rest, b1 / 2);
    var p2 := Picked(rest, b2 / 2);
    if b1 % 2 == b2 % 2 {
      PickedDistinct(cmp, rest, b1 / 2, b2 / 2);
      if b1 % 2 == 1 {
        SameHeadDistinct(cmp, s[0], p1, p2);
      } else {
        assert Picked(s, b1) == [] + p1 == p1;
        assert Picked(s, b2) == [] + p2 == p2;
      }
    } else if b1 % 2 == 1 {
      HeadBelowPicked(cmp, s, b2 / 2);
      LowerHeadDistinct(cmp, s[0], p1, p2);
      assert Picked(s, b2) == [] + p2;
    } else {
      HeadBelowPicked(cmp, s, b1 / 2);
      LowerHeadDistinct(cmp, s[0], p2, p1);
      assert Picked(s, b1) == [] + p1;
    }
  }

  // ---------------------------------------------------------------- the power set

  /** What the inner loop of cset_powerSet leaves in the subset for pattern b (cset.c:362-365). */
  function SubsetFor<T>(cmp: (T, T) -> int, s: seq<T>, b: nat): seq<T> {
    AddAll(cmp, [], Picked(s, b))
  }

  /**
   * The subsets the outer loop of cset_powerSet adds for the patterns 1 .. k - 1, in that
   * order; on a strictly ascending set each is the picked slots (SubsetForExact).
   */
  function Enumerated<T>(s: seq<T>, k: nat): seq<seq<T>> {
    seq(if k == 0 then 0 else k - 1, j requires 0 <= j => Picked(s, j + 1))
  }

  /** The outer loop's j-th subset is the one picked by pattern j + 1. */
  lemma EnumeratedAt<T>(s: seq<T>, k: nat, j: nat)
    requires j < |Enumerated(s, k)|
    ensures j + 1 < k && Enumerated(s, k)[j] == Picked(s, j + 1)
  {
  }

  /** One more pass of cset_powerSet's outer loop adds the subset for pattern k. */
  lemma EnumeratedStep<T>(outer: (seq<T>, seq<T>) -> int, s: seq<T>, first: seq<seq<T>>, k: nat)
    requires k >= 1
    ensures AddAll(outer, first, Enumerated(s, k + 1)) ==
            Added(outer, AddAll(outer, first, Enumerated(s, k)), Picked(s, k))
  {
    assert Enumerated(s, k + 1) == Enumerated(s, k) + [Picked(s, k)];
    AddAllSnoc(outer, first, Enumerated(s, k), Picked(s, k));
  }

  /** cset_powerSet (cset.c:350-370): the empty set, then the subset of every nonzero pattern, added in turn. */
  function PowerSetOf<T>(cmp: (T, T) -> int, s: seq<T>): seq<seq<T>> {
    AddAll(NestedCompare(cmp), Added(NestedCompare(cmp), [], []), Enumerated(s, Pow2(|s|)))
  }

  /** On a strictly ascending set, the subset for b holds exactly the slots whose bit is set, in ascending order. */
  lemma SubsetForExact<T(!new)>(cmp: (T, T) -> int, s: seq<T>, b: nat)
    requires IsComparator(cmp) && StrictlyAscending(cmp, s)
    ensures SubsetFor(cmp, s, b) == Picked(s, b)
  {
    PickedAscending(cmp, s, b);
    assert [] + Picked(s, b) == Picked(s, b);
    AddAllAscending(cmp, [], Picked(s, b));
  }

  lemma NestedCompareIs<T>(cmp: (T, T) -> int, a: seq<T>, b: seq<T>)
    ensures NestedCompare(cmp)(a, b) == ContentsCompare(cmp, a, b)
  {
  }

  /** Every enumerated subset differs from the empty set and from every subset enumerated before it. */
  lemma EnumeratedDistinct<T(!new)>(cmp: (T, T) -> int, s: seq<T>)
    requires IsComparator(cmp) && StrictlyAscending(cmp, s)
    ensures forall k :: 0 <= k < |Enumerated(s, Pow2(|s|))| ==>
      ContentsCompare(cmp, Enumerated(s, Pow2(|s|))[k], []) != 0
    ensures forall j, k :: 0 <= j < k < |Enumerated(s, Pow2(|s|))| ==>
      ContentsCompare(cmp, Enumerated(s, Pow2(|s|))[k], Enumerated(s, Pow2(|s|))[j]) != 0
  {
    var xs := Enumerated(s, Pow2(|s|));
    PickedNone(s);
    forall k | 0 <= k < |xs| ensures ContentsCompare(cmp, xs[k], []) != 0 {
      PickedDistinct(cmp, s, k + 1, 0);
    }
    forall j, k | 0 <= j < k < |xs| ensures ContentsCompare(cmp, xs[k], xs[j]) != 0 {
      PickedDistinct(cmp, s, k + 1, j + 1);
    }
  }

  /** No subset is added twice: the power set holds the empty set and every enumerated subset, once each. */
  lemma PowerSetMultiset<T(!new)>(cmp: (T, T) -> int, s: seq<T>)
    requires IsComparator(cmp) && StrictlyAscending(cmp, s)
    ensures multiset(PowerSetOf(cmp, s)) == multiset{[]} + multiset(Enumerated(s, Pow2(|s|)))
  {
    var nc := NestedCompare(cmp);
    var empty: seq<T> := [];
    AppendsGreatest(nc, [], empty);
    var init := Added(nc, [], empty);
    assert init == [empty];
    var xs := Enumerated(s, Pow2(|s|));
    EnumeratedDistinct(cmp, s);
    forall k, i | 0 <= k < |xs| && 0 <= i < |init| ensures nc(xs[k], init[i]) != 0 {
      NestedCompareIs(cmp, xs[k], init[i]);
    }
    forall j, k | 0 <= j < k < |xs| ensures nc(xs[k], xs[j]) != 0 {
      NestedCompareIs(cmp, xs[k], xs[j]);
    }
    AddAllDistinct(nc, init, xs);
  }

  /**
   * The power set of a strictly ascending set of n elements has 2^n members: exactly the
   * subsets picked by the patterns 0 .. 2^n - 1.
   */
  lemma PowerSetLaw<T(!new)>(cmp: (T, T) -> int, s: seq<T>)
    requires IsComparator(cmp) && StrictlyAscending(cmp, s)
    ensures |PowerSetOf(cmp, s)| == Pow2(|s|)
  {
    var n := Pow2(|s|);
    var xs := Enumerated(s, n);
    var ps := PowerSetOf(cmp, s);
    assert |xs| == n - 1;
    PowerSetMultiset(cmp, s);
    MultisetMembers(ps, xs);
  }

  /** Every pattern below 2^n picks a member of the power set. */
  lemma PowerSetHasEvery<T(!new)>(cmp: (T, T) -> int, s: seq<T>, b: nat)
    requires IsComparator(cmp) && StrictlyAscending(cmp, s) && b < Pow2(|s|)
    ensures Picked(s, b) in PowerSetOf(cmp, s)
  {
    var xs := Enumerated(s, Pow2(|s|));
    PowerSetMultiset(cmp, s);
    MultisetMembers(PowerSetOf(cmp, s), xs);
    if b == 0 {
      PickedNone(s);
    } else {
      EnumeratedAt(s, Pow2(|s|), b - 1);
      assert xs[b - 1] in xs;
    }
  }

  /** Every member of the power set is picked by some pattern below 2^n. */
  lemma PowerSetHasOnly<T(!new)>(cmp: (T, T) -> int, s: seq<T>, u: seq<T>)
    requires IsComparator(cmp) && StrictlyAscending(cmp, s) && u in PowerSetOf(cmp, s)
    ensures exists b :: 0 <= b < Pow2(|s|) && u == Picked(s, b)
  {
    var xs := Enumerated(s, Pow2(|s|));
    PowerSetMultiset(cmp, s);
    MultisetMembers(PowerSetOf(cmp, s), xs);
    if u in xs {
      var j :| 0 <= j < |xs| && xs[j] == u;
      EnumeratedAt(s, Pow2(|s|), j);
    } else {
      PickedNone(s);
      assert u == Picked(s, 0);
    }
  }

  /** A sequence holding [] and the members of xs, once each, has 1 + |xs| members, namely those. */
  lemma MultisetMembers<U>(ps: seq<seq<U>>, xs: seq<seq<U>>)
    requires multiset(ps) == multiset{[]} + multiset(xs)
    ensures |ps| == 1 + |xs|
    ensures [] in ps
    ensures forall u :: u in ps <==> u == [] || u in xs
  {
    assert |ps| == |multiset(ps)|;
    assert [] in multiset(ps);
    forall u ensures u in ps <==> u == [] || u in xs {
      assert u in ps <==> u in multiset(ps);
      assert u in xs <==> u in multiset(xs);
    }
  }
}
