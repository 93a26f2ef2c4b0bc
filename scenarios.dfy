/**
 * The concrete expectations of the test program (set_test.c) for subsets, intersection,
 * differences and the power set, stated with the test program's integer comparator.
 */
module Scenarios {
  import opened Order
  import opened Algebra
  import opened Nesting
  import opened Slots
  import opened Findings

  /** Integers that increase from each slot to the next are strictly ascending under IntCompare. */
  lemma {:induction false} AscendingByNeighbours(s: seq<int>)
    requires forall i :: 0 <= i < |s| - 1 ==> s[i] < s[i + 1]
    ensures StrictlyAscending(IntCompare, s)
    decreases |s|
  {
    if |s| > 1 {
      var tail := s[1..];
      AscendingByNeighbours(tail);
      forall i, j | 0 <= i < j < |s|
        ensures IntCompare(s[i], s[j]) < 0
      {
        if i > 0 {
          assert IntCompare(tail[i - 1], tail[j - 1]) < 0;
        } else if j > 1 {
          assert IntCompare(tail[0], tail[j - 1]) < 0;
        }
      }
    }
  }

  /** set1 of the set-operation test (set_test.c:144). */
  function Set1(): seq<int> {
    [1, 3, 5, 6, 9, 12, 15]
  }

  /** set2 of the set-operation test (set_test.c:145). */
  function Set2(): seq<int> {
    [1, 2, 3, 4, 5, 6, 9, 12, 13, 15, 18, 19]
  }

  /** The slots of set1 are sorted. */
  lemma Set1Sorted()
    ensures Sorted(IntCompare, Set1())
  {
    AscendingByNeighbours(Set1());
    StrictlyAscendingIsSorted(IntCompare, Set1());
  }

  /** The slots of set2 are sorted. */
  lemma Set2Sorted()
    ensures Sorted(IntCompare, Set2())
  {
    AscendingByNeighbours(Set2());
    StrictlyAscendingIsSorted(IntCompare, Set2());
  }

  /** Every element of set1 is stored in set2. */
  lemma Set1InSet2()
    ensures forall i :: 0 <= i < |Set1()| ==> HasEqual(IntCompare, Set2(), Set1()[i])
  {
    var a, b := Set1(), Set2();
    forall i | 0 <= i < |a|
      ensures HasEqual(IntCompare, b, a[i])
    {
      var w := [0, 2, 4, 5, 6, 7, 9][i];
      assert IntCompare(a[i], b[w]) == 0;
    }
  }

  /** 2, slot 1 of set2, is not stored in set1. */
  lemma TwoNotInSet1()
    ensures Set2()[1] == 2 && !HasEqual(IntCompare, Set1(), 2)
  {
  }

  /** The test expects set1 to be a subset of set2 (set_test.c:160). */
  lemma Set1SubsetOfSet2()
    ensures AllContained(IntCompare, Set1(), Set2())
  {
    IntCompareIsComparator();
    Set2Sorted();
    Set1InSet2();
    AllContainedMeaning(IntCompare, Set1(), Set2());
  }

  /** The test expects set2 not to be a subset of set1 (set_test.c:161). */
  lemma Set2NotSubsetOfSet1()
    ensures !AllContained(IntCompare, Set2(), Set1())
  {
    IntCompareIsComparator();
    Set1Sorted();
    TwoNotInSet1();
    AllContainedMeaning(IntCompare, Set2(), Set1());
  }

  /** The power set of {1, 3, 5} has 2^3 = 8 members. */
  lemma PowerSetOfThreeSize()
    ensures |PowerSetOf(IntCompare, [1, 3, 5])| == 8
  {
    var s := [1, 3, 5];
    AscendingByNeighbours(s);
    IntCompareIsComparator();
    PowerSetLaw(IntCompare, s);
    assert Pow2(3) == 8;
  }

  /** The power set of {1, 3, 5} holds the empty set. */
  lemma PowerSetOfThreeHasEmpty()
    ensures [] in PowerSetOf(IntCompare, [1, 3, 5])
  {
    var s := [1, 3, 5];
    AscendingByNeighbours(s);
    IntCompareIsComparator();
    PowerSetMultiset(IntCompare, s);
    assert [] in multiset(PowerSetOf(IntCompare, s));
  }

  /** Pattern 7 picks all three slots. */
  lemma PickedAllOfThree()
    ensures Picked([1, 3, 5], 7) == [1, 3, 5]
  {
    assert Picked([5], 1) == [5];
    assert Picked([3, 5], 3) == [3, 5];
  }

  /** The power set of {1, 3, 5} holds {1, 3, 5} itself. */
  lemma PowerSetOfThreeHasAll()
    ensures [1, 3, 5] in PowerSetOf(IntCompare, [1, 3, 5])
  {
    var s := [1, 3, 5];
    AscendingByNeighbours(s);
    IntCompareIsComparator();
    assert Pow2(3) == 8;
    PowerSetHasEvery(IntCompare, s, 7);
    PickedAllOfThree();
  }

  /** On strictly ascending integers, cset_contains answers exactly membership. */
  lemma ContainsInts(s: seq<int>, x: int)
    requires StrictlyAscending(IntCompare, s)
    ensures Contains(IntCompare, s, x) <==> x in s
  {
    IntCompareIsComparator();
    StrictlyAscendingIsSorted(IntCompare, s);
    FindIsMembership(IntCompare, s, x);
    if x in s {
      var i :| 0 <= i < |s| && s[i] == x;
      assert IntCompare(x, s[i]) == 0;
    }
  }

  /** On integers, having an equal slot is membership. */
  lemma HasEqualInts(s: seq<int>, x: int)
    ensures HasEqual(IntCompare, s, x) <==> x in s
  {
    if x in s {
      var i :| 0 <= i < |s| && s[i] == x;
      assert IntCompare(x, s[i]) == 0;
    }
  }

  /** Dropping the first slot keeps integers strictly ascending. */
  lemma TailAscending(s: seq<int>)
    requires StrictlyAscending(IntCompare, s) && s != []
    ensures StrictlyAscending(IntCompare, s[1..])
  {
    var s' := s[1..];
    forall i, j | 0 <= i < j < |s'| ensures IntCompare(s'[i], s'[j]) < 0 {
      assert IntCompare(s[i + 1], s[j + 1]) < 0;
    }
  }

  /** The first slot of strictly ascending integers is below every member of the rest. */
  lemma HeadBelowTail(s: seq<int>, x: int)
    requires StrictlyAscending(IntCompare, s) && s != [] && x in s[1..]
    ensures s[0] < x && x in s
  {
    var i :| 0 <= i < |s| - 1 && s[1..][i] == x;
    assert IntCompare(s[0], s[i + 1]) < 0;
  }

  /** A member of strictly ascending integers is its first slot or a member of the rest. */
  lemma HeadOrTail(s: seq<int>, x: int)
    requires s != [] && x in s
    ensures x == s[0] || x in s[1..]
  {
    var i :| 0 <= i < |s| && s[i] == x;
    if i > 0 {
      assert s[1..][i - 1] == x;
    }
  }

  /** A sequence whose members all lie in an empty one is empty. */
  lemma NoMembersEmpty(s: seq<int>, t: seq<int>)
    requires forall x :: x in s ==> x in t
    requires t == []
    ensures s == []
  {
    var k := if |s| > 0 then s[0] else 0;
    assert |s| > 0 ==> k in s;
  }

  /** Two strictly ascending integer sequences with the same members are the same sequence. */
  lemma {:induction false} AscendingIntsUnique(s: seq<int>, t: seq<int>)
    requires StrictlyAscending(IntCompare, s) && StrictlyAscending(IntCompare, t)
    requires forall x :: x in s ==> x in t
    requires forall x :: x in t ==> x in s
    ensures s == t
    decreases |s|
  {
    if s != [] && t != [] {
      assert s[0] in s && t[0] in t;
      HeadOrTail(s, t[0]);
      HeadOrTail(t, s[0]);
      if s[0] != t[0] {
        if t[0] in s[1..] {
          HeadBelowTail(s, t[0]);
        }
        if s[0] in t[1..] {
          HeadBelowTail(t, s[0]);
        }
      }
      var s', t' := s[1..], t[1..];
      TailAscending(s);
      TailAscending(t);
      forall x ensures x in s' <==> x in t' {
        if x in s' {
          HeadBelowTail(s, x);
          HeadOrTail(t, x);
        }
        if x in t' {
          HeadBelowTail(t, x);
          HeadOrTail(s, x);
        }
      }
      AscendingIntsUnique(s', t');
      assert s == [s[0]] + s' && t == [t[0]] + t';
    } else if t == [] {
      NoMembersEmpty(s, t);
    } else {
      NoMembersEmpty(t, s);
    }
  }

  /** set3 of the set-operation test (set_test.c:163). */
  function Set3(): seq<int> {
    [1, 2, 3, 4, 5]
  }

  /** The slots of set4 (set_test.c:164), added as 8, 7, 6, 5, 4. */
  function Set4(): seq<int> {
    [4, 5, 6, 7, 8]
  }

  /** The slots of set3 and set4 are strictly ascending. */
  lemma Sets34Ascending()
    ensures StrictlyAscending(IntCompare, Set3()) && StrictlyAscending(IntCompare, Set4())
  {
    AscendingByNeighbours(Set3());
    AscendingByNeighbours(Set4());
  }

  /** On strictly ascending integers, the intended intersection is the ascending sequence of common members. */
  lemma IntersectionInts(a: seq<int>, b: seq<int>, r: seq<int>)
    requires StrictlyAscending(IntCompare, a) && StrictlyAscending(IntCompare, b) && StrictlyAscending(IntCompare, r)
    requires forall x :: x in r <==> x in a && x in b
    ensures IntersectionOf(IntCompare, IntCompare, a, b) == r
  {
    IntCompareIsComparator();
    StrictlyAscendingIsSorted(IntCompare, b);
    IntersectionExact(IntCompare, IntCompare, a, b);
    var i := IntersectionOf(IntCompare, IntCompare, a, b);
    forall x | x in i ensures x in r {
      HasEqualInts(b, x);
    }
    forall x | x in r ensures x in i {
      HasEqualInts(b, x);
    }
    AscendingIntsUnique(i, r);
  }

  /** On strictly ascending integers, the difference is the ascending sequence of members of a not in b. */
  lemma DifferenceInts(a: seq<int>, b: seq<int>, r: seq<int>)
    requires StrictlyAscending(IntCompare, a) && StrictlyAscending(IntCompare, b) && StrictlyAscending(IntCompare, r)
    requires forall x :: x in r <==> x in a && x !in b
    ensures DifferenceOf(IntCompare, IntCompare, a, b) == r
  {
    IntCompareIsComparator();
    DifferenceExact(IntCompare, IntCompare, a, b);
    var d := DifferenceOf(IntCompare, IntCompare, a, b);
    forall x | x in d ensures x in r {
      ContainsInts(b, x);
    }
    forall x | x in r ensures x in d {
      ContainsInts(b, x);
    }
    AscendingIntsUnique(d, r);
  }

  /** 4 and 5 are the members set3 and set4 share. */
  lemma Common34(r: seq<int>)
    requires r == [4, 5]
    ensures forall x :: x in r <==> x in Set3() && x in Set4()
  {
  }

  /** 1, 2 and 3 are the members of set3 that set4 lacks. */
  lemma Only3(r: seq<int>)
    requires r == [1, 2, 3]
    ensures forall x :: x in r <==> x in Set3() && x !in Set4()
  {
  }

  /** 6, 7 and 8 are the members of set4 that set3 lacks. */
  lemma Only4(r: seq<int>)
    requires r == [6, 7, 8]
    ensures forall x :: x in r <==> x in Set4() && x !in Set3()
  {
  }

  /** The intersect of set3 and set4 (set_test.c:179) is {4, 5}, both as intended and as written. */
  lemma TestIntersect()
    ensures IntersectionOf(IntCompare, IntCompare, Set3(), Set4()) == [4, 5]
    ensures AsWrittenIntersectionOf(IntCompare, IntCompare, Set3(), Set4()) == [4, 5]
  {
    var r := [4, 5];
    Sets34Ascending();
    AscendingByNeighbours(r);
    Common34(r);
    IntersectionInts(Set3(), Set4(), r);
    IntCompareIsComparator();
    StrictlyAscendingIsSorted(IntCompare, Set4());
    AsWrittenIntersectionSound(IntCompare, IntCompare, Set3(), Set4());
  }

  /** set3 - set4 (set_test.c:182) is {1, 2, 3}. */
  lemma TestDifference34()
    ensures DifferenceOf(IntCompare, IntCompare, Set3(), Set4()) == [1, 2, 3]
  {
    var r := [1, 2, 3];
    Sets34Ascending();
    AscendingByNeighbours(r);
    Only3(r);
    DifferenceInts(Set3(), Set4(), r);
  }

  /** set4 - set3 (set_test.c:183) is {6, 7, 8}. */
  lemma TestDifference43()
    ensures DifferenceOf(IntCompare, IntCompare, Set4(), Set3()) == [6, 7, 8]
  {
    var r := [6, 7, 8];
    Sets34Ascending();
    AscendingByNeighbours(r);
    Only4(r);
    DifferenceInts(Set4(), Set3(), r);
  }

  /** Uniting two integer sets whose concatenation is strictly ascending stores the concatenation. */
  lemma UnionOfAscending(a: seq<int>, b: seq<int>)
    requires StrictlyAscending(IntCompare, a + b)
    ensures UnionOf(IntCompare, a, b) == a + b
  {
    IntCompareIsComparator();
    assert [] + a == (a + b)[..|a|];
    forall i, j | 0 <= i < j < |a| ensures IntCompare(a[i], a[j]) < 0 {
      assert IntCompare((a + b)[i], (a + b)[j]) < 0;
    }
    AddAllAscending(IntCompare, [], a);
    AddAllAscending(IntCompare, a, b);
  }

  /** The symmetric difference of set3 and set4 (set_test.c:184) is {1, 2, 3, 6, 7, 8}. */
  lemma TestSymmetricDifference()
    ensures SymmetricDifferenceOf(IntCompare, IntCompare, Set3(), Set4()) == [1, 2, 3, 6, 7, 8]
  {
    TestDifference34();
    TestDifference43();
    var d1, d2 := [1, 2, 3], [6, 7, 8];
    assert d1 + d2 == [1, 2, 3, 6, 7, 8];
    AscendingByNeighbours(d1 + d2);
    UnionOfAscending(d1, d2);
  }
}
