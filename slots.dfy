/**
 * The search-and-mutate engine of cset.c, stated on the sequence of occupied slots
 * `s` (slots [0, n_elements) of the buffer).  The functions follow the C code
 * step by step; the lemmas state what the steps achieve.  The search of cset_add is
 * the binary search its comments describe; the search as written is kept, with the
 * inputs on which it goes wrong, in module Findings.
 */
module Slots {
  import opened Wrappers
  import opened Order

  /** How a search for the key ends: at a slot equal to it, or at the slot where it belongs. */
  datatype Probe = Hit(at: nat) | Settled(index: nat)

  /**
   * The binary search of cset_add over slots [lo, hi) (cset.c:148-162): a probe that
   * compares equal ends the search, otherwise the half that can hold the key is kept.
   */
  function Place<T>(cmp: (T, T) -> int, s: seq<T>, x: T, lo: nat, hi: nat): (r: Probe)
    requires lo <= hi <= |s|
    ensures r.Hit? ==> lo <= r.at < hi && cmp(x, s[r.at]) == 0
    ensures r.Settled? ==> lo <= r.index <= hi
    decreases hi - lo
  {
    if lo == hi then Settled(lo)
    else
      var mid := (lo + hi) / 2;
      var c := cmp(x, s[mid]);
      if c == 0 then Hit(mid)
      else if c > 0 then Place(cmp, s, x, mid + 1, hi)
      else Place(cmp, s, x, lo, mid)
  }

  /**
   * The slot cset_add inserts x at, or None when it returns false (cset.c:146-168):
   * it refuses when a probe compares equal.
   */
  function AddIndex<T>(cmp: (T, T) -> int, s: seq<T>, x: T): (r: Option<nat>)
    ensures r.None? ==> HasEqual(cmp, s, x)
    ensures r.Some? ==> r.value <= |s|
  {
    match Place(cmp, s, x, 0, |s|)
    case Hit(_) => None
    case Settled(index) => Some(index)
  }

  /** The helper `insert` (cset.c:85-93): slots from i on move up by one and x fills slot i. */
  function InsertAt<T>(s: seq<T>, i: nat, x: T): (r: seq<T>)
    requires i <= |s|
    ensures |r| == |s| + 1 && r[i] == x
    ensures r[..i] == s[..i] && r[i + 1..] == s[i..]
  {
    s[..i] + [x] + s[i..]
  }

  /** The occupied slots after cset_add. */
  function Added<T>(cmp: (T, T) -> int, s: seq<T>, x: T): seq<T> {
    match AddIndex(cmp, s, x)
    case None => s
    case Some(i) => InsertAt(s, i, x)
  }

  /** The occupied slots after calling cset_add with each of xs in turn, as every set operation does. */
  function AddAll<T>(cmp: (T, T) -> int, s: seq<T>, xs: seq<T>): seq<T>
    decreases |xs|
  {
    if xs == [] then s else Added(cmp, AddAll(cmp, s, xs[..|xs| - 1]), xs[|xs| - 1])
  }

  /**
   * The C library's bsearch over slots [lo, hi) (cset.c:195, cset.c:205): the classic
   * halving search that returns a slot comparing equal to the key, if it meets one.
   */
  function Search<T>(cmp: (T, T) -> int, s: seq<T>, x: T, lo: nat, hi: nat): (r: Option<nat>)
    requires lo <= hi <= |s|
    ensures r.Some? ==> lo <= r.value < hi && cmp(x, s[r.value]) == 0
    decreases hi - lo
  {
    if lo == hi then None
    else
      var mid := (lo + hi) / 2;
      var c := cmp(x, s[mid]);
      if c < 0 then Search(cmp, s, x, lo, mid)
      else if c > 0 then Search(cmp, s, x, mid + 1, hi)
      else Some(mid)
  }

  /** bsearch over all occupied slots: a found index is an occupied slot equal to x. */
  function Find<T>(cmp: (T, T) -> int, s: seq<T>, x: T): (r: Option<nat>)
    ensures r.Some? ==> r.value < |s| && cmp(x, s[r.value]) == 0
  {
    Search(cmp, s, x, 0, |s|)
  }

  /** cset_contains (cset.c:194-196): a true answer always means some slot equals x, sorted or not. */
  function Contains<T>(cmp: (T, T) -> int, s: seq<T>, x: T): (r: bool)
    ensures r ==> HasEqual(cmp, s, x)
  {
    Find(cmp, s, x).Some?
  }

  /** The occupied slots after cset_remove closes the gap at slot i (cset.c:209-212). */
  function Removed<T>(s: seq<T>, i: nat): (r: seq<T>)
    requires i < |s|
    ensures |r| == |s| - 1
    ensures r[..i] == s[..i] && r[i..] == s[i + 1..]
  {
    s[..i] + s[i + 1..]
  }

  // ---------------------------------------------------------------- add

  /**
   * cset_add either refuses and changes nothing, or puts x at one slot p with every old
   * element keeping its relative order around it; the multiset of slots grows by x.
   */
  lemma AddedShape<T>(cmp: (T, T) -> int, s: seq<T>, x: T)
    ensures AddIndex(cmp, s, x).None? ==> Added(cmp, s, x) == s && HasEqual(cmp, s, x)
    ensures AddIndex(cmp, s, x).Some? ==>
              var p := AddIndex(cmp, s, x).value;
              && p <= |s|
              && Added(cmp, s, x) == s[..p] + [x] + s[p..]
              && multiset(Added(cmp, s, x)) == multiset(s) + multiset{x}
  {
    match AddIndex(cmp, s, x)
    case None =>
    case Some(p) =>
      assert s == s[..p] + s[p..];
      assert multiset(s) == multiset(s[..p]) + multiset(s[p..]);
  }

  /** After cset_add, every old element is still stored and x has an equal slot. */
  lemma AddedCovers<T(!new)>(cmp: (T, T) -> int, s: seq<T>, x: T)
    requires Reflexive(cmp)
    ensures HasEqual(cmp, Added(cmp, s, x), x)
    ensures forall y :: y in s ==> y in Added(cmp, s, x)
  {
    var r := Added(cmp, s, x);
    match AddIndex(cmp, s, x)
    case None =>
    case Some(p) =>
      assert r[p] == x;
      assert r == s[..p] + [x] + s[p..];
      assert s == s[..p] + s[p..];
  }

  /** A slot equal to y survives in any sequence that keeps every element. */
  lemma HasEqualKept<T>(cmp: (T, T) -> int, s: seq<T>, r: seq<T>, y: T)
    requires forall z :: z in s ==> z in r
    requires HasEqual(cmp, s, y)
    ensures HasEqual(cmp, r, y)
  {
    var i :| 0 <= i < |s| && cmp(y, s[i]) == 0;
    assert s[i] in r;
  }

  /** The search passes over slots that are all below the key. */
  lemma {:induction false} PlaceAbove<T>(cmp: (T, T) -> int, s: seq<T>, x: T, lo: nat, hi: nat)
    requires lo <= hi <= |s|
    requires forall k :: lo <= k < hi ==> cmp(x, s[k]) > 0
    ensures Place(cmp, s, x, lo, hi) == Settled(hi)
    decreases hi - lo
  {
    if lo < hi {
      PlaceAbove(cmp, s, x, (lo + hi) / 2 + 1, hi);
    }
  }

  /** An element greater than every stored one is appended at the end. */
  lemma AppendsGreatest<T>(cmp: (T, T) -> int, s: seq<T>, x: T)
    requires forall i :: 0 <= i < |s| ==> cmp(x, s[i]) > 0
    ensures AddIndex(cmp, s, x) == Some(|s|)
    ensures Added(cmp, s, x) == s + [x]
  {
    PlaceAbove(cmp, s, x, 0, |s|);
    assert s[..|s|] == s;
  }

  /**
   * On a strictly ascending buffer the search keeps every slot left of [lo, hi) below
   * the key and every slot right of it above; where it settles, the slots split so.
   */
  lemma {:induction false} PlaceBetween<T(!new)>(cmp: (T, T) -> int, s: seq<T>, x: T, lo: nat, hi: nat)
    requires IsComparator(cmp) && StrictlyAscending(cmp, s) && lo <= hi <= |s|
    requires forall k :: 0 <= k < lo ==> cmp(s[k], x) < 0
    requires forall k :: hi <= k < |s| ==> cmp(x, s[k]) < 0
    ensures Place(cmp, s, x, lo, hi).Settled? ==>
              var p := Place(cmp, s, x, lo, hi).index;
              && (forall k :: 0 <= k < p ==> cmp(s[k], x) < 0)
              && (forall k :: p <= k < |s| ==> cmp(x, s[k]) < 0)
    decreases hi - lo
  {
    if lo < hi {
      var mid := (lo + hi) / 2;
      var c := cmp(x, s[mid]);
      if c > 0 {
        forall k | 0 <= k < mid + 1 ensures cmp(s[k], x) < 0 {
          if lo <= k < mid {
            LessThenAtMost(cmp, s[k], s[mid], x);
          }
        }
        PlaceBetween(cmp, s, x, mid + 1, hi);
      } else if c < 0 {
        forall k | mid <= k < |s| ensures cmp(x, s[k]) < 0 {
          if mid < k < hi {
            LessThenAtMost(cmp, x, s[mid], s[k]);
          }
        }
        PlaceBetween(cmp, s, x, lo, mid);
      }
    }
  }

  /** Putting x between the slots below it and the slots above it keeps a buffer strictly ascending. */
  lemma InsertBetween<T(!new)>(cmp: (T, T) -> int, s: seq<T>, x: T, p: nat)
    requires IsComparator(cmp) && StrictlyAscending(cmp, s) && p <= |s|
    requires forall k :: 0 <= k < p ==> cmp(s[k], x) < 0
    requires forall k :: p <= k < |s| ==> cmp(x, s[k]) < 0
    ensures StrictlyAscending(cmp, InsertAt(s, p, x))
  {
    var r := InsertAt(s, p, x);
    forall j, k | 0 <= j < k < |r| ensures cmp(r[j], r[k]) < 0 {
      if k < p {
        assert r[j] == s[j] && r[k] == s[k];
      } else if k == p {
        assert r[j] == s[j];
      } else if j < p {
        assert r[j] == s[j] && r[k] == s[k - 1];
        LessThenAtMost(cmp, s[j], x, s[k - 1]);
      } else if j == p {
        assert r[k] == s[k - 1];
      } else {
        assert r[j] == s[j - 1] && r[k] == s[k - 1];
      }
    }
  }

  /**
   * cset_add on a set in strictly ascending order: it refuses x exactly when a slot
   * compares equal to it, and the set stays strictly ascending either way.
   */
  lemma AddedSpec<T(!new)>(cmp: (T, T) -> int, s: seq<T>, x: T)
    requires IsComparator(cmp) && StrictlyAscending(cmp, s)
    ensures AddIndex(cmp, s, x).None? <==> HasEqual(cmp, s, x)
    ensures StrictlyAscending(cmp, Added(cmp, s, x))
  {
    PlaceBetween(cmp, s, x, 0, |s|);
    match AddIndex(cmp, s, x)
    case None =>
    case Some(p) =>
      forall k | 0 <= k < |s| ensures cmp(x, s[k]) != 0 {
        if k < p {
          assert cmp(s[k], x) < 0;
        }
      }
      InsertBetween(cmp, s, x, p);
  }

  // ---------------------------------------------------------------- add, repeated

  /** Adding xs and then y is adding xs + [y]: the step of every copying loop. */
  lemma AddAllSnoc<T>(cmp: (T, T) -> int, s: seq<T>, xs: seq<T>, y: T)
    ensures AddAll(cmp, s, xs + [y]) == Added(cmp, AddAll(cmp, s, xs), y)
  {
    assert (xs + [y])[..|xs|] == xs;
  }

  /** Adding one more element of a: the step of every loop that adds a's slots in turn. */
  lemma AddAllPrefix<T>(cmp: (T, T) -> int, s: seq<T>, a: seq<T>, i: nat)
    requires i < |a|
    ensures AddAll(cmp, s, a[..i + 1]) == Added(cmp, AddAll(cmp, s, a[..i]), a[i])
  {
    assert a[..i + 1] == a[..i] + [a[i]];
    AddAllSnoc(cmp, s, a[..i], a[i]);
  }

  /** A run of adds keeps a strictly ascending set strictly ascending. */
  lemma {:induction false} AddAllKeepsOrder<T(!new)>(cmp: (T, T) -> int, s: seq<T>, xs: seq<T>)
    requires IsComparator(cmp) && StrictlyAscending(cmp, s)
    ensures StrictlyAscending(cmp, AddAll(cmp, s, xs))
    decreases |xs|
  {
    if xs != [] {
      AddAllKeepsOrder(cmp, s, xs[..|xs| - 1]);
      AddedSpec(cmp, AddAll(cmp, s, xs[..|xs| - 1]), xs[|xs| - 1]);
    }
  }

  /** The number of slots after a run of adds is at most the old number plus the number of adds. */
  lemma {:induction false} AddAllBound<T>(cmp: (T, T) -> int, s: seq<T>, xs: seq<T>)
    ensures |AddAll(cmp, s, xs)| <= |s| + |xs|
    decreases |xs|
  {
    if xs != [] {
      AddAllBound(cmp, s, xs[..|xs| - 1]);
      AddedShape(cmp, AddAll(cmp, s, xs[..|xs| - 1]), xs[|xs| - 1]);
    }
  }

  /** Every slot after a run of adds holds an element that was there before or was added. */
  lemma {:induction false} AddAllFrom<T>(cmp: (T, T) -> int, s: seq<T>, xs: seq<T>)
    ensures multiset(AddAll(cmp, s, xs)) <= multiset(s) + multiset(xs)
    decreases |xs|
  {
    if xs != [] {
      var init := xs[..|xs| - 1];
      var last := xs[|xs| - 1];
      AddAllFrom(cmp, s, init);
      AddedShape(cmp, AddAll(cmp, s, init), last);
      assert xs == init + [last];
      assert multiset(xs) == multiset(init) + multiset{last};
    }
  }

  /** After a run of adds, every old element is still stored and every added element has an equal slot. */
  lemma {:induction false} AddAllCovers<T(!new)>(cmp: (T, T) -> int, s: seq<T>, xs: seq<T>)
    requires Reflexive(cmp)
    ensures forall y :: y in s ==> y in AddAll(cmp, s, xs)
    ensures forall i :: 0 <= i < |xs| ==> HasEqual(cmp, AddAll(cmp, s, xs), xs[i])
    decreases |xs|
  {
    if xs != [] {
      var init := xs[..|xs| - 1];
      var last := xs[|xs| - 1];
      var before := AddAll(cmp, s, init);
      AddAllCovers(cmp, s, init);
      AddedCovers(cmp, before, last);
      forall i | 0 <= i < |xs| ensures HasEqual(cmp, AddAll(cmp, s, xs), xs[i]) {
        if i < |xs| - 1 {
          assert xs[i] == init[i];
          HasEqualKept(cmp, before, AddAll(cmp, s, xs), xs[i]);
        }
      }
    }
  }

  /** Adding, in order, elements that continue a strictly ascending sequence appends them. */
  lemma {:induction false} AddAllAscending<T(!new)>(cmp: (T, T) -> int, s: seq<T>, xs: seq<T>)
    requires IsComparator(cmp)
    requires StrictlyAscending(cmp, s + xs)
    ensures AddAll(cmp, s, xs) == s + xs
    decreases |xs|
  {
    if xs != [] {
      var init := xs[..|xs| - 1];
      var last := xs[|xs| - 1];
      assert s + xs == (s + init) + [last];
      assert StrictlyAscending(cmp, s + init) by {
        forall i, j | 0 <= i < j < |s + init| ensures cmp((s + init)[i], (s + init)[j]) < 0 {
          assert (s + init)[i] == (s + xs)[i] && (s + init)[j] == (s + xs)[j];
        }
      }
      AddAllAscending(cmp, s, init);
      forall i | 0 <= i < |s + init| ensures cmp(last, (s + init)[i]) > 0 {
        assert cmp((s + xs)[i], (s + xs)[|s + xs| - 1]) < 0;
      }
      AppendsGreatest(cmp, s + init, last);
    }
  }

  /** An element unequal to everything in s and xs is unequal to every slot of a rearrangement of them. */
  lemma NotAmong<T>(cmp: (T, T) -> int, r: seq<T>, s: seq<T>, xs: seq<T>, x: T)
    requires multiset(r) == multiset(s) + multiset(xs)
    requires forall i :: 0 <= i < |s| ==> cmp(x, s[i]) != 0
    requires forall i :: 0 <= i < |xs| ==> cmp(x, xs[i]) != 0
    ensures !HasEqual(cmp, r, x)
  {
    forall i | 0 <= i < |r| ensures cmp(x, r[i]) != 0 {
      assert r[i] in multiset(r);
      if r[i] in multiset(s) {
        var m :| 0 <= m < |s| && s[m] == r[i];
      } else {
        var m :| 0 <= m < |xs| && xs[m] == r[i];
      }
    }
  }

  /**
   * Adding elements that compare unequal to each other and to every stored element
   * never refuses: each add grows the set by one.
   */
  lemma {:induction false} AddAllDistinct<T>(cmp: (T, T) -> int, s: seq<T>, xs: seq<T>)
    requires forall k, i :: 0 <= k < |xs| && 0 <= i < |s| ==> cmp(xs[k], s[i]) != 0
    requires forall j, k :: 0 <= j < k < |xs| ==> cmp(xs[k], xs[j]) != 0
    ensures multiset(AddAll(cmp, s, xs)) == multiset(s) + multiset(xs)
    ensures |AddAll(cmp, s, xs)| == |s| + |xs|
    decreases |xs|
  {
    if xs != [] {
      var init := xs[..|xs| - 1];
      var last := xs[|xs| - 1];
      assert xs == init + [last];
      AddAllDistinct(cmp, s, init);
      var before := AddAll(cmp, s, init);
      NotAmong(cmp, before, s, init, last);
      AddedShape(cmp, before, last);
    }
  }

  /** A run of adds that meets an element equal to an original slot stores fewer than |s| + |xs| slots. */
  lemma {:induction false} AddAllRefused<T(!new)>(cmp: (T, T) -> int, s: seq<T>, xs: seq<T>, k: nat)
    requires IsComparator(cmp) && StrictlyAscending(cmp, s)
    requires k < |xs| && HasEqual(cmp, s, xs[k])
    ensures |AddAll(cmp, s, xs)| < |s| + |xs|
    decreases |xs|
  {
    var init := xs[..|xs| - 1];
    var before := AddAll(cmp, s, init);
    if k < |xs| - 1 {
      assert init[k] == xs[k];
      AddAllRefused(cmp, s, init, k);
      AddedShape(cmp, before, xs[|xs| - 1]);
    } else {
      ComparatorIsReflexive(cmp);
      AddAllCovers(cmp, s, init);
      HasEqualKept(cmp, s, before, xs[k]);
      AddAllKeepsOrder(cmp, s, init);
      AddedSpec(cmp, before, xs[k]);
      AddedShape(cmp, before, xs[k]);
      AddAllBound(cmp, s, init);
    }
  }

  // ---------------------------------------------------------------- contains and remove

  /** On a sorted buffer, bsearch over [lo, hi) finds a slot whenever one there compares equal. */
  lemma {:induction false} SearchComplete<T(!new)>(cmp: (T, T) -> int, s: seq<T>, x: T, lo: nat, hi: nat, k: nat)
    requires IsComparator(cmp) && Sorted(cmp, s)
    requires lo <= k < hi <= |s| && cmp(x, s[k]) == 0
    ensures Search(cmp, s, x, lo, hi).Some?
    decreases hi - lo
  {
    var mid := (lo + hi) / 2;
    var c := cmp(x, s[mid]);
    if c < 0 {
      assert Chains(cmp, s[mid], s[k], x);
      SearchComplete(cmp, s, x, lo, mid, k);
    } else if c > 0 {
      assert Chains(cmp, x, s[k], s[mid]);
      SearchComplete(cmp, s, x, mid + 1, hi, k);
    }
  }

  /** On a sorted buffer, cset_contains is true exactly when some slot compares equal. */
  lemma FindIsMembership<T(!new)>(cmp: (T, T) -> int, s: seq<T>, x: T)
    requires IsComparator(cmp) && Sorted(cmp, s)
    ensures Contains(cmp, s, x) <==> HasEqual(cmp, s, x)
  {
    if HasEqual(cmp, s, x) {
      var k :| 0 <= k < |s| && cmp(x, s[k]) == 0;
      SearchComplete(cmp, s, x, 0, |s|, k);
    }
  }

  /** Closing the gap keeps a strictly ascending buffer strictly ascending. */
  lemma RemovedAscending<T>(cmp: (T, T) -> int, s: seq<T>, i: nat)
    requires i < |s| && StrictlyAscending(cmp, s)
    ensures StrictlyAscending(cmp, Removed(s, i))
  {
    var r := Removed(s, i);
    forall a, b | 0 <= a < b < |r| ensures cmp(r[a], r[b]) < 0 {
      var a' := if a < i then a else a + 1;
      var b' := if b < i then b else b + 1;
      assert r[a] == s[a'] && r[b] == s[b'];
    }
  }

  /**
   * On a strictly ascending buffer, after cset_remove has removed the slot bsearch found,
   * nothing compares equal to the removed key any more.
   */
  lemma RemoveThenAbsent<T(!new)>(cmp: (T, T) -> int, s: seq<T>, x: T, i: nat)
    requires IsComparator(cmp) && StrictlyAscending(cmp, s)
    requires Find(cmp, s, x) == Some(i)
    ensures !HasEqual(cmp, Removed(s, i), x)
    ensures !Contains(cmp, Removed(s, i), x)
  {
    var r := Removed(s, i);
    forall a | 0 <= a < |r| ensures cmp(x, r[a]) != 0 {
      if a < i {
        assert r[a] == s[a] && cmp(s[a], s[i]) < 0;
        LessThenAtMost(cmp, s[a], s[i], x);
      } else {
        assert r[a] == s[a + 1] && cmp(s[i], s[a + 1]) < 0;
        AtMostThenLess(cmp, x, s[i], s[a + 1]);
      }
    }
    RemovedAscending(cmp, s, i);
    StrictlyAscendingIsSorted(cmp, r);
    FindIsMembership(cmp, r, x);
  }
}
