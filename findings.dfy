/**
 * Two defects of cset.c, each shown on inputs where the code as written misbehaves,
 * next to the intended behaviour that the rest of the model uses.
 *
 * 1. cset_add (cset.c:146-174) refuses an element only when its halving phase happens
 *    to probe an equal slot, and it inserts at an index derived from that phase which
 *    can lie past smaller slots.  The result can hold duplicates and be out of order:
 *    the test program's union of {1, ..., 5} and {4, ..., 8} stores 5 twice
 *    (TestUnionRepeatsFive), where the intended add gives {1, ..., 8} (TestUnionIntended).
 *    Intended (the function's own comment: "a binary searching algorithm"): Slots.AddIndex,
 *    with Slots.AddedSpec proved.
 * 2. cset_intersect (cset.c:294-298) examines only the first min(n1, n2) slots of set1,
 *    so common elements stored later in set1 are lost.  Intended: every slot of set1,
 *    Algebra.IntersectionOf, with Algebra.IntersectionExact proved.
 */
module Findings {
  import opened Wrappers
  import opened Order
  import opened Slots
  import opened Algebra

  // ---------------------------------------------------------------- cset_add as written

  /**
   * The halving loop of cset_add as written (cset.c:148-162): `width` is partial_sz,
   * `index` the probe.  The requires is the loop's range invariant: every probe falls
   * inside the occupied slots.
   */
  function Halve<T>(cmp: (T, T) -> int, s: seq<T>, x: T, width: nat, index: nat): (r: Probe)
    requires width / 2 <= index && index + (width + 1) / 2 <= |s|
    ensures r.Hit? ==> r.at < |s| && cmp(x, s[r.at]) == 0
    ensures r.Settled? ==> r.index <= |s|
    decreases width
  {
    if width <= 1 then Settled(index)
    else
      var c := cmp(x, s[index]);
      var half := width / 2;
      if c == 0 then Hit(index)
      else if c > 0 then Halve(cmp, s, x, half, index + half / 2)
      else Halve(cmp, s, x, half, index - half / 2)
  }

  /** The forward scan of cset_add as written (cset.c:165-168): the first slot at or after i that x does not exceed. */
  function Scan<T>(cmp: (T, T) -> int, s: seq<T>, x: T, i: nat): (r: nat)
    requires i <= |s|
    ensures i <= r <= |s|
    ensures forall k :: i <= k < r ==> cmp(x, s[k]) > 0
    ensures r < |s| ==> cmp(x, s[r]) <= 0
    decreases |s| - i
  {
    if i < |s| && cmp(x, s[i]) > 0 then Scan(cmp, s, x, i + 1) else i
  }

  /** The slot cset_add as written inserts x at, or None when a halving probe compared equal (cset.c:146-168). */
  function AsWrittenIndex<T>(cmp: (T, T) -> int, s: seq<T>, x: T): (r: Option<nat>)
    ensures r.None? ==> HasEqual(cmp, s, x)
    ensures r.Some? ==> r.value <= |s|
  {
    match Halve(cmp, s, x, |s|, |s| / 2)
    case Hit(_) => None
    case Settled(index) => Some(Scan(cmp, s, x, if index == 1 then 0 else index))
  }

  /** The occupied slots after cset_add as written. */
  function AsWrittenAdded<T>(cmp: (T, T) -> int, s: seq<T>, x: T): seq<T> {
    match AsWrittenIndex(cmp, s, x)
    case None => s
    case Some(i) => InsertAt(s, i, x)
  }

  /** Each of xs passed in turn to cset_add as written. */
  function AsWrittenAddAll<T>(cmp: (T, T) -> int, s: seq<T>, xs: seq<T>): seq<T>
    decreases |xs|
  {
    if xs == [] then s else AsWrittenAdded(cmp, AsWrittenAddAll(cmp, s, xs[..|xs| - 1]), xs[|xs| - 1])
  }

  /** cset_union (cset.c:263-278) over cset_add as written. */
  function AsWrittenUnionOf<T>(cmp1: (T, T) -> int, a: seq<T>, b: seq<T>): seq<T> {
    AsWrittenAddAll(cmp1, AsWrittenAddAll(cmp1, [], a), b)
  }

  /** Adding 5 to {5}: the halving phase probes nothing, the scan stops at the equal slot, and 5 is stored twice. */
  lemma AddAcceptsDuplicate()
    ensures AsWrittenIndex(IntCompare, [5], 5) == Some(0)
    ensures AsWrittenAdded(IntCompare, [5], 5) == [5, 5]
    ensures HasEqual(IntCompare, [5], 5)
    ensures !StrictlyAscending(IntCompare, AsWrittenAdded(IntCompare, [5], 5))
  {
    var s := [5];
    assert Halve(IntCompare, s, 5, 1, 0) == Settled(0);
    assert Scan(IntCompare, s, 5, 0) == 0 by { assert IntCompare(5, s[0]) == 0; }
    assert AsWrittenAdded(IntCompare, s, 5) == [] + [5] + s;
  }

  /** Adding 5 to {10, ..., 60}: the halving phase settles on slot 2 and 5 lands after 10 and 20. */
  lemma AddMisorders()
    ensures AsWrittenAdded(IntCompare, [10, 20, 30, 40, 50, 60], 5) == [10, 20, 5, 30, 40, 50, 60]
    ensures !Sorted(IntCompare, AsWrittenAdded(IntCompare, [10, 20, 30, 40, 50, 60], 5))
  {
    var s := [10, 20, 30, 40, 50, 60];
    assert s[3] == 40 && s[2] == 30;
    assert Halve(IntCompare, s, 5, 3, 2) == Halve(IntCompare, s, 5, 1, 2) == Settled(2);
    assert Halve(IntCompare, s, 5, 6, 3) == Settled(2);
    assert Scan(IntCompare, s, 5, 2) == 2;
    assert AsWrittenIndex(IntCompare, s, 5) == Some(2);
    var r := AsWrittenAdded(IntCompare, s, 5);
    assert r == s[..2] + [5] + s[2..];
    assert r == [10, 20, 5, 30, 40, 50, 60];
    assert IntCompare(r[1], r[2]) > 0;
  }

  /**
   * Adding 5 once more to the test program's set3 = {1, 2, 3, 4, 5} (set_test.c:163-171):
   * the halving phase settles on slot 3 without probing slot 4, and the scan inserts a second 5.
   */
  lemma AddRepeatsLast()
    ensures AsWrittenAdded(IntCompare, [1, 2, 3, 4, 5], 5) == [1, 2, 3, 4, 5, 5]
  {
    var a := [1, 2, 3, 4, 5];
    assert Halve(IntCompare, a, 5, 2, 3) == Settled(3);
    assert Halve(IntCompare, a, 5, 5, 2) == Settled(3);
    assert Scan(IntCompare, a, 5, 3) == 4;
    assert AsWrittenIndex(IntCompare, a, 5) == Some(4);
    assert a[..4] + [5] + a[4..] == [1, 2, 3, 4, 5, 5];
  }

  /** Through cset_union the duplicate reaches a result set: {5} united with {5} holds 5 twice. */
  lemma UnionKeepsDuplicate()
    ensures AsWrittenUnionOf(IntCompare, [5], [5]) == [5, 5]
  {
    assert AsWrittenAddAll(IntCompare, [], [5]) == AsWrittenAdded(IntCompare, [], 5) == [5];
    AddAcceptsDuplicate();
    assert AsWrittenAddAll(IntCompare, [5], [5]) == AsWrittenAdded(IntCompare, [5], 5);
  }

  /** Adding one more element to a batch is one more cset_add as written. */
  lemma AsWrittenAddAllSnoc<T>(cmp: (T, T) -> int, s: seq<T>, xs: seq<T>, x: T)
    ensures AsWrittenAddAll(cmp, s, xs + [x]) == AsWrittenAdded(cmp, AsWrittenAddAll(cmp, s, xs), x)
  {
    assert (xs + [x])[..|xs|] == xs;
  }

  /** An element above every slot is never probed equal by the halving loop. */
  lemma {:induction false} HalveMissesBelow<T>(cmp: (T, T) -> int, s: seq<T>, x: T, width: nat, index: nat)
    requires width / 2 <= index && index + (width + 1) / 2 <= |s|
    requires forall k :: 0 <= k < |s| ==> cmp(x, s[k]) > 0
    ensures Halve(cmp, s, x, width, index).Settled?
    decreases width
  {
    if width > 1 {
      var half := width / 2;
      HalveMissesBelow(cmp, s, x, half, index + half / 2);
    }
  }

  /** cset_add as written does append an element that exceeds every slot, as when a set is built in ascending order. */
  lemma AsWrittenAppendsGreatest<T>(cmp: (T, T) -> int, s: seq<T>, x: T)
    requires forall k :: 0 <= k < |s| ==> cmp(x, s[k]) > 0
    ensures AsWrittenAdded(cmp, s, x) == s + [x]
  {
    HalveMissesBelow(cmp, s, x, |s|, |s| / 2);
  }

  /** A batch above the slots, less its last element y, is still above them, and y exceeds every slot of w = s + init. */
  lemma AboveSlots<T(!new)>(cmp: (T, T) -> int, s: seq<T>, ys: seq<T>, init: seq<T>, w: seq<T>)
    requires IsComparator(cmp) && StrictlyAscending(cmp, ys) && ys != []
    requires forall j, k :: 0 <= j < |ys| && 0 <= k < |s| ==> cmp(ys[j], s[k]) > 0
    requires init == ys[..|ys| - 1] && w == s + init
    ensures StrictlyAscending(cmp, init)
    ensures forall j, k :: 0 <= j < |init| && 0 <= k < |s| ==> cmp(init[j], s[k]) > 0
    ensures forall k :: 0 <= k < |w| ==> cmp(ys[|ys| - 1], w[k]) > 0
  {
    forall i, j | 0 <= i < j < |init| ensures cmp(init[i], init[j]) < 0 {
      assert cmp(ys[i], ys[j]) < 0;
    }
    forall j, k | 0 <= j < |init| && 0 <= k < |s| ensures cmp(init[j], s[k]) > 0 {
      assert cmp(ys[j], s[k]) > 0;
    }
    forall k | 0 <= k < |w| ensures cmp(ys[|ys| - 1], w[k]) > 0 {
      if k < |s| {
        assert cmp(ys[|ys| - 1], s[k]) > 0;
      } else {
        assert cmp(ys[k - |s|], ys[|ys| - 1]) < 0;
      }
    }
  }

  /**
   * cset_add as written appends, one by one, a strictly ascending batch whose elements all
   * exceed every slot, as when a set is built in ascending order: the defect needs an element
   * smaller than, or equal to, one already stored.
   */
  lemma {:induction false} AsWrittenAppendsAscending<T(!new)>(cmp: (T, T) -> int, s: seq<T>, ys: seq<T>)
    requires IsComparator(cmp) && StrictlyAscending(cmp, ys)
    requires forall j, k :: 0 <= j < |ys| && 0 <= k < |s| ==> cmp(ys[j], s[k]) > 0
    ensures AsWrittenAddAll(cmp, s, ys) == s + ys
    decreases |ys|
  {
    if ys != [] {
      var init, y := ys[..|ys| - 1], ys[|ys| - 1];
      AboveSlots(cmp, s, ys, init, s + init);
      AsWrittenAppendsAscending(cmp, s, init);
      AsWrittenAppendsGreatest(cmp, s + init, y);
      assert s + init + [y] == s + ys;
    }
  }

  /** Adding 4 to {1, ..., 5}: the first probe, slot 2, holds 3; the second, slot 3, holds 4, and 4 is refused. */
  lemma AddRefusesProbed()
    ensures AsWrittenAdded(IntCompare, [1, 2, 3, 4, 5], 4) == [1, 2, 3, 4, 5]
  {
    var a := [1, 2, 3, 4, 5];
    assert Halve(IntCompare, a, 4, 2, 3) == Hit(3);
    assert Halve(IntCompare, a, 4, 5, 2) == Hit(3);
  }

  /** cset_union's copy loop (cset.c:269-271) rebuilds the test program's set3 (set_test.c:163-171) as {1, ..., 5}. */
  lemma AsWrittenCopiesSet3()
    ensures AsWrittenAddAll(IntCompare, [], [1, 2, 3, 4, 5]) == [1, 2, 3, 4, 5]
  {
    IntCompareIsComparator();
    AsWrittenAppendsAscending(IntCompare, [], [1, 2, 3, 4, 5]);
  }

  /** Five cset_add calls in a row, each taking the slots the previous one left. */
  lemma AsWrittenAddFive<T>(cmp: (T, T) -> int, s: seq<T>, x1: T, x2: T, x3: T, x4: T, x5: T,
                            r1: seq<T>, r2: seq<T>, r3: seq<T>, r4: seq<T>, r5: seq<T>)
    requires AsWrittenAdded(cmp, s, x1) == r1 && AsWrittenAdded(cmp, r1, x2) == r2 && AsWrittenAdded(cmp, r2, x3) == r3
    requires AsWrittenAdded(cmp, r3, x4) == r4 && AsWrittenAdded(cmp, r4, x5) == r5
    ensures AsWrittenAddAll(cmp, s, [x1, x2, x3, x4, x5]) == r5
  {
    assert [] + [x1] == [x1];
    AsWrittenAddAllSnoc(cmp, s, [], x1);
    assert [x1] + [x2] == [x1, x2];
    AsWrittenAddAllSnoc(cmp, s, [x1], x2);
    assert [x1, x2] + [x3] == [x1, x2, x3];
    AsWrittenAddAllSnoc(cmp, s, [x1, x2], x3);
    assert [x1, x2, x3] + [x4] == [x1, x2, x3, x4];
    AsWrittenAddAllSnoc(cmp, s, [x1, x2, x3], x4);
    assert [x1, x2, x3, x4] + [x5] == [x1, x2, x3, x4, x5];
    AsWrittenAddAllSnoc(cmp, s, [x1, x2, x3, x4], x5);
  }

  /**
   * The second to fifth cset_add calls that build the test program's set4 (set_test.c:164-171):
   * each element is below every slot, the halving loop settles on slot 0 or 1, and the
   * index-1 rule (cset.c:163) puts it first.
   */
  lemma Set4AddsSeven()
    ensures AsWrittenAdded(IntCompare, [8], 7) == [7, 8]
  {
    assert Halve(IntCompare, [8], 7, 1, 0) == Settled(0);
    assert Scan(IntCompare, [8], 7, 0) == 0;
    assert InsertAt([8], 0, 7) == [7, 8];
  }

  lemma Set4AddsSix()
    ensures AsWrittenAdded(IntCompare, [7, 8], 6) == [6, 7, 8]
  {
    assert Halve(IntCompare, [7, 8], 6, 2, 1) == Settled(1);
    assert Scan(IntCompare, [7, 8], 6, 0) == 0;
    assert InsertAt([7, 8], 0, 6) == [6, 7, 8];
  }

  lemma Set4AddsFive()
    ensures AsWrittenAdded(IntCompare, [6, 7, 8], 5) == [5, 6, 7, 8]
  {
    assert Halve(IntCompare, [6, 7, 8], 5, 3, 1) == Settled(1);
    assert Scan(IntCompare, [6, 7, 8], 5, 0) == 0;
    assert InsertAt([6, 7, 8], 0, 5) == [5, 6, 7, 8];
  }

  lemma Set4AddsFour()
    ensures AsWrittenAdded(IntCompare, [5, 6, 7, 8], 4) == [4, 5, 6, 7, 8]
  {
    assert Halve(IntCompare, [5, 6, 7, 8], 4, 2, 1) == Settled(1);
    assert Halve(IntCompare, [5, 6, 7, 8], 4, 4, 2) == Settled(1);
    assert Scan(IntCompare, [5, 6, 7, 8], 4, 0) == 0;
    assert InsertAt([5, 6, 7, 8], 0, 4) == [4, 5, 6, 7, 8];
  }

  /** The test program builds set4 by adding 8, 7, 6, 5, 4 (set_test.c:164-171): its slots are 4, ..., 8. */
  lemma AsWrittenBuildsSet4()
    ensures AsWrittenAddAll(IntCompare, [], [8, 7, 6, 5, 4]) == [4, 5, 6, 7, 8]
  {
    AsWrittenAppendsGreatest(IntCompare, [], 8);
    Set4AddsSeven();
    Set4AddsSix();
    Set4AddsFive();
    Set4AddsFour();
    AsWrittenAddFive(IntCompare, [], 8, 7, 6, 5, 4, [8], [7, 8], [6, 7, 8], [5, 6, 7, 8], [4, 5, 6, 7, 8]);
  }

  /** The last three cset_add calls of cset_union's second loop on set3 and set4 append 6, 7 and 8. */
  lemma UnionAddsSix()
    ensures AsWrittenAdded(IntCompare, [1, 2, 3, 4, 5, 5], 6) == [1, 2, 3, 4, 5, 5, 6]
  {
    AsWrittenAppendsGreatest(IntCompare, [1, 2, 3, 4, 5, 5], 6);
  }

  lemma UnionAddsSeven()
    ensures AsWrittenAdded(IntCompare, [1, 2, 3, 4, 5, 5, 6], 7) == [1, 2, 3, 4, 5, 5, 6, 7]
  {
    AsWrittenAppendsGreatest(IntCompare, [1, 2, 3, 4, 5, 5, 6], 7);
  }

  lemma UnionAddsEight()
    ensures AsWrittenAdded(IntCompare, [1, 2, 3, 4, 5, 5, 6, 7], 8) == [1, 2, 3, 4, 5, 5, 6, 7, 8]
  {
    AsWrittenAppendsGreatest(IntCompare, [1, 2, 3, 4, 5, 5, 6, 7], 8);
  }

  /**
   * The second loop of cset_union (cset.c:273-275) adds set4's slots 4, ..., 8 to the copy
   * of set3: 4 is refused, 5 is stored a second time, 6, 7 and 8 are appended.
   */
  lemma AsWrittenUnionTail()
    ensures AsWrittenAddAll(IntCompare, [1, 2, 3, 4, 5], [4, 5, 6, 7, 8]) == [1, 2, 3, 4, 5, 5, 6, 7, 8]
  {
    AddRefusesProbed();
    AddRepeatsLast();
    UnionAddsSix();
    UnionAddsSeven();
    UnionAddsEight();
    AsWrittenAddFive(IntCompare, [1, 2, 3, 4, 5], 4, 5, 6, 7, 8,
      [1, 2, 3, 4, 5], [1, 2, 3, 4, 5, 5], [1, 2, 3, 4, 5, 5, 6], [1, 2, 3, 4, 5, 5, 6, 7], [1, 2, 3, 4, 5, 5, 6, 7, 8]);
  }

  /**
   * The union of the test program's set3 and set4 (set_test.c:176), whose slots are
   * {1, ..., 5} and {4, ..., 8} (AsWrittenCopiesSet3, AsWrittenBuildsSet4): nine slots,
   * 5 twice, where the set {1, ..., 8} is meant.
   */
  lemma TestUnionRepeatsFive()
    ensures AsWrittenUnionOf(IntCompare, [1, 2, 3, 4, 5], [4, 5, 6, 7, 8]) == [1, 2, 3, 4, 5, 5, 6, 7, 8]
  {
    AsWrittenCopiesSet3();
    AsWrittenUnionTail();
  }

  /** The intended cset_add on the same inputs: 5 is refused by {5} and by {1, ..., 5}, and lands first in {10, ..., 60}. */
  lemma AddExamples()
    ensures Added(IntCompare, [5], 5) == [5]
    ensures Added(IntCompare, [1, 2, 3, 4, 5], 5) == [1, 2, 3, 4, 5]
    ensures Added(IntCompare, [10, 20, 30, 40, 50, 60], 5) == [5, 10, 20, 30, 40, 50, 60]
    ensures UnionOf(IntCompare, [5], [5]) == [5]
  {
    var a := [1, 2, 3, 4, 5];
    assert Place(IntCompare, a, 5, 3, 5) == Hit(4);
    assert Place(IntCompare, a, 5, 0, 5) == Hit(4);
    var s := [10, 20, 30, 40, 50, 60];
    assert Place(IntCompare, s, 5, 0, 1) == Settled(0);
    assert Place(IntCompare, s, 5, 0, 3) == Settled(0);
    assert Place(IntCompare, s, 5, 0, 6) == Settled(0);
    assert Added(IntCompare, s, 5) == [5] + s;
    AppendsGreatest(IntCompare, [], 5);
    AddAllSnoc(IntCompare, [], [], 5);
    assert [] + [5] == [5];
    AddAllSnoc(IntCompare, [5], [], 5);
  }

  /** Five intended cset_add calls in a row, each taking the slots the previous one left. */
  lemma AddFive<T>(cmp: (T, T) -> int, s: seq<T>, x1: T, x2: T, x3: T, x4: T, x5: T,
                   r1: seq<T>, r2: seq<T>, r3: seq<T>, r4: seq<T>, r5: seq<T>)
    requires Added(cmp, s, x1) == r1 && Added(cmp, r1, x2) == r2 && Added(cmp, r2, x3) == r3
    requires Added(cmp, r3, x4) == r4 && Added(cmp, r4, x5) == r5
    ensures AddAll(cmp, s, [x1, x2, x3, x4, x5]) == r5
  {
    assert [] + [x1] == [x1];
    AddAllSnoc(cmp, s, [], x1);
    assert [x1] + [x2] == [x1, x2];
    AddAllSnoc(cmp, s, [x1], x2);
    assert [x1, x2] + [x3] == [x1, x2, x3];
    AddAllSnoc(cmp, s, [x1, x2], x3);
    assert [x1, x2, x3] + [x4] == [x1, x2, x3, x4];
    AddAllSnoc(cmp, s, [x1, x2, x3], x4);
    assert [x1, x2, x3, x4] + [x5] == [x1, x2, x3, x4, x5];
    AddAllSnoc(cmp, s, [x1, x2, x3, x4], x5);
  }

  /** Four cset_add calls in a row as written, each taking the slots the previous one left. */
  lemma AsWrittenAddFour<T>(cmp: (T, T) -> int, x1: T, x2: T, x3: T, x4: T,
                            r1: seq<T>, r2: seq<T>, r3: seq<T>, r4: seq<T>)
    requires AsWrittenAdded(cmp, [], x1) == r1 && AsWrittenAdded(cmp, r1, x2) == r2
    requires AsWrittenAdded(cmp, r2, x3) == r3 && AsWrittenAdded(cmp, r3, x4) == r4
    ensures AsWrittenAddAll(cmp, [], [x1, x2, x3, x4]) == r4
  {
    var p1 := [] + [x1];
    var p2 := p1 + [x2];
    var p3 := p2 + [x3];
    var p4 := p3 + [x4];
    AsWrittenAddAllSnoc(cmp, [], [], x1);
    assert p1 == [x1];
    AsWrittenAddAllSnoc(cmp, [], p1, x2);
    AsWrittenAddAllSnoc(cmp, [], p2, x3);
    AsWrittenAddAllSnoc(cmp, [], p3, x4);
    assert p4 == [x1, x2, x3, x4];
  }

  /** Adding 2 to {5} as written: nothing is probed and the scan stops at slot 0. */
  lemma AsWrittenAddsTwoToFive()
    ensures AsWrittenAdded(IntCompare, [5], 2) == [2, 5]
  {
    assert Halve(IntCompare, [5], 2, 1, 0) == Settled(0);
    assert Scan(IntCompare, [5], 2, 0) == 0;
    assert InsertAt([5], 0, 2) == [2, 5];
  }

  /** Adding 8 to {2, 5} as written: the halving loop settles on slot 1, the scan restarts at 0 and stops at the end. */
  lemma AsWrittenAddsEight()
    ensures AsWrittenAdded(IntCompare, [2, 5], 8) == [2, 5, 8]
  {
    assert Halve(IntCompare, [2, 5], 8, 2, 1) == Settled(1);
    assert Scan(IntCompare, [2, 5], 8, 0) == 2;
    assert InsertAt([2, 5], 2, 8) == [2, 5, 8];
  }

  /** Adding 2 again to {2, 5, 8} as written: the only probe, slot 1, holds 5, the scan restarts at 0 and 2 is stored twice. */
  lemma AsWrittenAddsTwoAgain()
    ensures AsWrittenAdded(IntCompare, [2, 5, 8], 2) == [2, 2, 5, 8]
  {
    assert Halve(IntCompare, [2, 5, 8], 2, 3, 1) == Settled(1);
    assert Scan(IntCompare, [2, 5, 8], 2, 0) == 0;
    assert InsertAt([2, 5, 8], 0, 2) == [2, 2, 5, 8];
  }

  /** Adding 5, 2, 8, 2 to an empty set as written stores 2 twice, where the set {2, 5, 8} is meant. */
  lemma AsWrittenFiveTwoEightTwo()
    ensures AsWrittenAddAll(IntCompare, [], [5, 2, 8, 2]) == [2, 2, 5, 8]
  {
    AsWrittenAppendsGreatest(IntCompare, [], 5);
    AsWrittenAddsTwoToFive();
    AsWrittenAddsEight();
    AsWrittenAddsTwoAgain();
    AsWrittenAddFour(IntCompare, 5, 2, 8, 2, [5], [2, 5], [2, 5, 8], [2, 2, 5, 8]);
  }

  /** Four intended cset_add calls in a row, each taking the slots the previous one left. */
  lemma AddFour<T>(cmp: (T, T) -> int, x1: T, x2: T, x3: T, x4: T,
                   r1: seq<T>, r2: seq<T>, r3: seq<T>, r4: seq<T>)
    requires Added(cmp, [], x1) == r1 && Added(cmp, r1, x2) == r2
    requires Added(cmp, r2, x3) == r3 && Added(cmp, r3, x4) == r4
    ensures AddAll(cmp, [], [x1, x2, x3, x4]) == r4
  {
    var p1 := [] + [x1];
    var p2 := p1 + [x2];
    var p3 := p2 + [x3];
    var p4 := p3 + [x4];
    AddAllSnoc(cmp, [], [], x1);
    assert p1 == [x1];
    AddAllSnoc(cmp, [], p1, x2);
    AddAllSnoc(cmp, [], p2, x3);
    AddAllSnoc(cmp, [], p3, x4);
    assert p4 == [x1, x2, x3, x4];
  }

  /** The intended add puts 2 before 5. */
  lemma AddsTwoToFive()
    ensures Added(IntCompare, [5], 2) == [2, 5]
  {
    assert Place(IntCompare, [5], 2, 0, 0) == Settled(0);
    assert Place(IntCompare, [5], 2, 0, 1) == Settled(0);
    assert InsertAt([5], 0, 2) == [2, 5];
  }

  /** The intended add refuses 2 for {2, 5, 8}: the second probe, slot 0, holds 2. */
  lemma RefusesTwo()
    ensures Added(IntCompare, [2, 5, 8], 2) == [2, 5, 8]
  {
    assert Place(IntCompare, [2, 5, 8], 2, 0, 1) == Hit(0);
    assert Place(IntCompare, [2, 5, 8], 2, 0, 3) == Hit(0);
  }

  /** With the intended add, 5, 2, 8, 2 added to an empty set give {2, 5, 8}: three slots, ascending. */
  lemma FiveTwoEightTwo()
    ensures AddAll(IntCompare, [], [5, 2, 8, 2]) == [2, 5, 8]
  {
    AppendsGreatest(IntCompare, [], 5);
    assert [] + [5] == [5];
    AddsTwoToFive();
    AppendsGreatest(IntCompare, [2, 5], 8);
    RefusesTwo();
    AddFour(IntCompare, 5, 2, 8, 2, [5], [2, 5], [2, 5, 8], [2, 5, 8]);
  }

  /** The intended cset_add refuses 4 for {1, ..., 5}: the third probe, slot 3, holds 4. */
  lemma AddRefusesFour()
    ensures Added(IntCompare, [1, 2, 3, 4, 5], 4) == [1, 2, 3, 4, 5]
  {
    var a := [1, 2, 3, 4, 5];
    assert Place(IntCompare, a, 4, 3, 4) == Hit(3);
    assert Place(IntCompare, a, 4, 3, 5) == Hit(3);
    assert Place(IntCompare, a, 4, 0, 5) == Hit(3);
  }

  lemma AddsSix()
    ensures Added(IntCompare, [1, 2, 3, 4, 5], 6) == [1, 2, 3, 4, 5, 6]
  {
    AppendsGreatest(IntCompare, [1, 2, 3, 4, 5], 6);
  }

  lemma AddsSeven()
    ensures Added(IntCompare, [1, 2, 3, 4, 5, 6], 7) == [1, 2, 3, 4, 5, 6, 7]
  {
    AppendsGreatest(IntCompare, [1, 2, 3, 4, 5, 6], 7);
  }

  lemma AddsEight()
    ensures Added(IntCompare, [1, 2, 3, 4, 5, 6, 7], 8) == [1, 2, 3, 4, 5, 6, 7, 8]
  {
    AppendsGreatest(IntCompare, [1, 2, 3, 4, 5, 6, 7], 8);
  }

  /** The slots of the test program's set3. */
  lemma Set3Ascending(a: seq<int>)
    requires a == [1, 2, 3, 4, 5]
    ensures StrictlyAscending(IntCompare, a)
  {
    forall i, j | 0 <= i < j < |a|
      ensures IntCompare(a[i], a[j]) < 0
    {
      assert a[i] == i + 1 && a[j] == j + 1;
    }
  }

  /** The intended cset_add copies {1, ..., 5} slot by slot. */
  lemma CopiesSet3()
    ensures AddAll(IntCompare, [], [1, 2, 3, 4, 5]) == [1, 2, 3, 4, 5]
  {
    var a := [1, 2, 3, 4, 5];
    Set3Ascending(a);
    IntCompareIsComparator();
    assert [] + a == a;
    AddAllAscending(IntCompare, [], a);
  }

  /** With the intended cset_add, the union of the test program's set3 and set4 (set_test.c:176) is {1, ..., 8}. */
  lemma TestUnionIntended()
    ensures UnionOf(IntCompare, [1, 2, 3, 4, 5], [4, 5, 6, 7, 8]) == [1, 2, 3, 4, 5, 6, 7, 8]
  {
    CopiesSet3();
    AddRefusesFour();
    AddExamples();
    AddsSix();
    AddsSeven();
    AddsEight();
    AddFive(IntCompare, [1, 2, 3, 4, 5], 4, 5, 6, 7, 8,
      [1, 2, 3, 4, 5], [1, 2, 3, 4, 5], [1, 2, 3, 4, 5, 6], [1, 2, 3, 4, 5, 6, 7], [1, 2, 3, 4, 5, 6, 7, 8]);
  }

  // ---------------------------------------------------------------- cset_intersect

  function Min(x: nat, y: nat): nat {
    if x < y then x else y
  }

  /**
   * cset_intersect as written (cset.c:287-301): the slots among the first min(|a|, |b|)
   * of a that b contains, passed in turn to cset_add as written.
   */
  function AsWrittenIntersectionOf<T>(cmp1: (T, T) -> int, cmp2: (T, T) -> int, a: seq<T>, b: seq<T>): seq<T> {
    AsWrittenAddAll(cmp1, [], Matching(cmp2, a[..Min(|a|, |b|)], b, true))
  }

  /** cset_add as written, given a strictly ascending batch on an empty set, stores the batch. */
  lemma AsWrittenCopiesAscending<T(!new)>(cmp: (T, T) -> int, xs: seq<T>)
    requires IsComparator(cmp) && StrictlyAscending(cmp, xs)
    ensures AsWrittenAddAll(cmp, [], xs) == xs
  {
    AsWrittenAppendsAscending(cmp, [], xs);
    assert [] + xs == xs;
  }

  /** A prefix of a strictly ascending sequence is strictly ascending. */
  lemma PrefixAscending<T>(cmp: (T, T) -> int, a: seq<T>, p: seq<T>)
    requires StrictlyAscending(cmp, a) && |p| <= |a| && p == a[..|p|]
    ensures StrictlyAscending(cmp, p)
  {
    forall i, j | 0 <= i < j < |p| ensures cmp(p[i], p[j]) < 0 {
      assert cmp(a[i], a[j]) < 0;
    }
  }

  /**
   * What cset_intersect as written computes on a well-formed set1: exactly the slots among
   * its first min(n1, n2) that set2 contains, in set1's order; so the intended intersection
   * when set1 is not larger than set2, and otherwise still only elements of set1 that set2 holds.
   */
  lemma AsWrittenIntersectionSound<T(!new)>(cmp1: (T, T) -> int, cmp2: (T, T) -> int, a: seq<T>, b: seq<T>)
    requires IsComparator(cmp1) && StrictlyAscending(cmp1, a)
    requires IsComparator(cmp2) && Sorted(cmp2, b)
    ensures AsWrittenIntersectionOf(cmp1, cmp2, a, b) == Matching(cmp2, a[..Min(|a|, |b|)], b, true)
    ensures |a| <= |b| ==> AsWrittenIntersectionOf(cmp1, cmp2, a, b) == IntersectionOf(cmp1, cmp2, a, b)
    ensures forall x :: x in AsWrittenIntersectionOf(cmp1, cmp2, a, b) ==> x in a && HasEqual(cmp2, b, x)
  {
    var p := a[..Min(|a|, |b|)];
    PrefixAscending(cmp1, a, p);
    var selected := Matching(cmp2, p, b, true);
    MatchingAscending(cmp2, cmp1, p, b, true);
    AsWrittenCopiesAscending(cmp1, selected);
    if |a| <= |b| {
      assert p == a;
      AddAllAscending(cmp1, [], selected);
      assert [] + selected == selected;
    }
    forall x | x in selected
      ensures x in a && HasEqual(cmp2, b, x)
    {
      var i :| 0 <= i < |selected| && selected[i] == x;
      assert x in p;
      FindIsMembership(cmp2, b, x);
    }
  }

  /** 5 is found in {5, 6}. */
  lemma FiveInFiveSix()
    ensures Contains(IntCompare, [5, 6], 5)
  {
    var s := [5, 6];
    IntCompareIsComparator();
    assert Sorted(IntCompare, s);
    assert IntCompare(5, s[0]) == 0;
    FindIsMembership(IntCompare, s, 5);
  }

  /** Both slots of [5, 5] are in {5, 6}, so both are selected. */
  lemma SelectsBothFives()
    ensures Matching(IntCompare, [5, 5], [5, 6], true) == [5, 5]
  {
    FiveInFiveSix();
    MatchingSnoc(IntCompare, [], [5, 6], true, 5);
    MatchingSnoc(IntCompare, [5], [5, 6], true, 5);
    assert [] + [5] == [5] && [5] + [5] == [5, 5];
  }

  /**
   * The intersect as written adds with cset_add as written: set1 = [5, 5], the slots that
   * adding 5 to {5} leaves (AddAcceptsDuplicate), intersected with {5, 6} keeps both 5s.
   */
  lemma IntersectKeepsDuplicate()
    ensures AsWrittenIntersectionOf(IntCompare, IntCompare, [5, 5], [5, 6]) == [5, 5]
  {
    SelectsBothFives();
    assert [5, 5][..Min(2, 2)] == [5, 5];
    assert AsWrittenAddAll(IntCompare, [], [5]) == AsWrittenAdded(IntCompare, [], 5) == [5];
    AddAcceptsDuplicate();
    assert AsWrittenAddAll(IntCompare, [], [5, 5]) == AsWrittenAdded(IntCompare, [5], 5);
  }

  /** {4, 5} intersected with {5}: only slot 0 of set1 is examined and 5 is lost. */
  lemma IntersectMissesLaterSlots()
    ensures AsWrittenIntersectionOf(IntCompare, IntCompare, [4, 5], [5]) == []
    ensures 5 in [4, 5] && HasEqual(IntCompare, [5], 5)
  {
    assert IntCompare(5, [5][0]) == 0;
  }

  /** The intended intersection keeps the 5 that the code as written loses. */
  lemma IntersectionExample()
    ensures IntersectionOf(IntCompare, IntCompare, [4, 5], [5]) == [5]
  {
    assert !Contains(IntCompare, [5], 4);
    assert Contains(IntCompare, [5], 5);
    MatchingSnoc(IntCompare, [], [5], true, 4);
    MatchingSnoc(IntCompare, [4], [5], true, 5);
    assert [] + [4] == [4] && [4] + [5] == [4, 5];
    assert Matching(IntCompare, [4, 5], [5], true) == [5];
    AppendsGreatest(IntCompare, [], 5);
    AddAllSnoc(IntCompare, [], [], 5);
    assert [] + [5] == [5];
  }
}
