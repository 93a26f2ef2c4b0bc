/**
 * The container of cset.c: a sorted, growable array of fixed-size slots with the three
 * client hooks.  The buffer is an array whose length is the capacity; the occupied
 * slots are elements[0..count), kept in strictly ascending order under the set's
 * comparator.  Each mutating method is proved to leave exactly the slots that the
 * corresponding function of modules Slots and Algebra describes.
 */
module CSets {
  import opened Wrappers
  import opened Order
  import opened Slots
  import opened Algebra
  import opened Nesting
  import Render

  /** Capacity used when the hint is zero (cset.c:28). */
  const DEFAULT_CAPACITY: nat := 32

  /** Factor by which a full buffer grows (cset.c:29). */
  const RESIZE_FACTOR: nat := 2

  /** The element size of a set of sets: one handle, sizeof(CSet*) on a 64-bit target (cset.c:353). */
  const HANDLE_SIZE: nat := 8

  class CSet<T(0, !new)> {
    /** The buffer; its length is the capacity. */
    var elements: array<T>
    /** n_elements: the number of occupied slots. */
    var count: nat
    var capacity: nat
    /** The element size fixed at creation; only compared, never used for layout here. */
    const elemsz: nat
    /** The ordering hook. */
    const cmp: (T, T) -> int
    /** Whether a cleanup hook was supplied. */
    const hasCleanup: bool
    /** The formatting hook, if one was supplied. */
    const format: Option<T -> string>
    /** Every element handed to the cleanup hook so far, in call order. */
    ghost var cleaned: seq<T>

    /** The buffer is as long as the capacity, and one slot past the occupied ones always exists. */
    ghost predicate Sized()
      reads this
    {
      capacity == elements.Length && count < capacity
    }

    /** A well-formed set: sized, with a comparator for a hook and its occupied slots strictly ascending under it. */
    ghost predicate Valid()
      reads this, elements
    {
      Sized() && IsComparator(cmp) && StrictlyAscending(cmp, Contents())
    }

    /** The occupied slots. */
    function Contents(): seq<T>
      reads this, elements
      requires Sized()
    {
      elements[..count]
    }

    /** cset_create (cset.c:103-122): an empty set whose capacity is the hint, or 32 for a zero hint. */
    constructor (elemsz: nat, capacityHint: nat, cmp: (T, T) -> int, hasCleanup: bool, format: Option<T -> string>)
      requires IsComparator(cmp)
      ensures Valid() && fresh(elements)
      ensures Contents() == [] && cleaned == []
      ensures capacity == if capacityHint == 0 then DEFAULT_CAPACITY else capacityHint
      ensures this.elemsz == elemsz && this.cmp == cmp
      ensures this.hasCleanup == hasCleanup && this.format == format
    {
      var initial := if capacityHint == 0 then DEFAULT_CAPACITY else capacityHint;
      this.elemsz := elemsz;
      this.cmp := cmp;
      this.hasCleanup := hasCleanup;
      this.format := format;
      elements := new T[initial];
      count := 0;
      capacity := initial;
      cleaned := [];
    }

    /**
     * check_resize (cset.c:73-79): doubles the capacity when the occupied slots reach
     * capacity - 1, keeping every slot at its position, so that one more element fits
     * and a free slot still follows it.
     */
    method CheckResize()
      requires Valid()
      modifies this
      ensures Valid() && count == old(count) && Contents() == old(Contents())
      ensures capacity == if old(count) >= old(capacity) - 1 then old(capacity) * RESIZE_FACTOR else old(capacity)
      ensures count + 1 < capacity
      ensures elements == old(elements) || fresh(elements)
      ensures cleaned == old(cleaned)
    {
      if count >= capacity - 1 {
        var grown := new T[capacity * RESIZE_FACTOR];
        forall i | 0 <= i < capacity {
          grown[i] := elements[i];
        }
        assert grown[..count] == elements[..count];
        capacity := capacity * RESIZE_FACTOR;
        elements := grown;
      }
    }

    /** insert (cset.c:85-93): shifts slots [index, count) up by one, highest first, and copies x into slot index. */
    method Insert(x: T, index: nat)
      requires Sized() && index <= count
      modifies elements
      ensures elements[..count + 1] == InsertAt(old(elements[..count]), index, x)
    {
      ghost var s := elements[..count];
      var j := count;
      while j > index
        invariant index <= j <= count
        invariant forall k :: 0 <= k < j ==> elements[k] == s[k]
        invariant forall k :: j < k <= count ==> elements[k] == s[k - 1]
        decreases j
      {
        elements[j] := elements[j - 1];
        j := j - 1;
      }
      elements[index] := x;
      assert elements[..count + 1] == InsertAt(s, index, x) by {
        forall k | 0 <= k <= count ensures elements[k] == InsertAt(s, index, x)[k] {
          if k < index {
            assert InsertAt(s, index, x)[..index][k] == s[..index][k];
          } else if k > index {
            assert InsertAt(s, index, x)[index + 1..][k - index - 1] == s[index..][k - index - 1];
          }
        }
      }
    }

    /**
     * The binary search of cset_add (cset.c:148-162) over the occupied slots: it stops at
     * a probe that compares equal, or settles where x belongs.
     */
    method Locate(x: T) returns (p: Probe)
      requires Sized()
      ensures p == Place(cmp, Contents(), x, 0, count)
    {
      var lo: nat, hi: nat := 0, count;
      while lo < hi
        invariant lo <= hi <= count
        invariant Place(cmp, Contents(), x, lo, hi) == Place(cmp, Contents(), x, 0, count)
        decreases hi - lo
      {
        var mid := (lo + hi) / 2;
        var c := cmp(x, elements[mid]);
        if c == 0 {
          return Hit(mid);
        }
        if c > 0 {
          lo := mid + 1;
        } else {
          hi := mid;
        }
      }
      return Settled(lo);
    }

    /**
     * cset_add (cset.c:146-174): the binary search, then, unless it met an equal slot,
     * a growth check and an insertion at the slot where x belongs.
     */
    method Add(x: T) returns (added: bool)
      requires Valid()
      modifies this, elements
      ensures Valid()
      ensures added <==> !HasEqual(cmp, old(Contents()), x)
      ensures Contents() == Added(cmp, old(Contents()), x)
      ensures capacity == if added && old(count) >= old(capacity) - 1 then old(capacity) * RESIZE_FACTOR else old(capacity)
      ensures elements == old(elements) || fresh(elements)
      ensures cleaned == old(cleaned)
    {
      AddedSpec(cmp, Contents(), x);
      var p := Locate(x);
      if p.Hit? {
        return false;
      }
      CheckResize();
      Insert(x, p.index);
      count := count + 1;
      return true;
    }

    /** The cleanup loop shared by cset_clear and cset_delete: the hook sees slots 0..count-1 in order. */
    method ReleaseAll()
      requires Valid()
      modifies this`cleaned
      ensures cleaned == old(cleaned) + (if hasCleanup then Contents() else [])
    {
      if hasCleanup {
        var i := 0;
        while i < count
          invariant 0 <= i <= count
          invariant cleaned == old(cleaned) + elements[..i]
        {
          cleaned := cleaned + [elements[i]];
          i := i + 1;
        }
      }
    }

    /** cset_clear (cset.c:180-187): releases every element, then empties the set; the capacity stays. */
    method Clear()
      requires Valid()
      modifies this
      ensures Valid() && Contents() == []
      ensures capacity == old(capacity) && elements == old(elements)
      ensures cleaned == old(cleaned) + (if hasCleanup then old(Contents()) else [])
    {
      ReleaseAll();
      count := 0;
    }

    /** cset_delete (cset.c:128-138): releases every element; freeing the buffer is not modelled. */
    method Delete()
      requires Valid()
      modifies this`cleaned
      ensures cleaned == old(cleaned) + (if hasCleanup then Contents() else [])
    {
      ReleaseAll();
    }

    /**
     * cset_remove (cset.c:204-214): bsearch for x; if found, the gap is closed and the
     * count drops, so nothing equal to x is left.  The cleanup hook is not called.
     */
    method Remove(x: T) returns (removed: bool)
      requires Valid()
      modifies this, elements
      ensures Valid() && capacity == old(capacity) && elements == old(elements)
      ensures cleaned == old(cleaned)
      ensures removed <==> HasEqual(cmp, old(Contents()), x)
      ensures !HasEqual(cmp, Contents(), x)
      ensures Contents() == match Find(cmp, old(Contents()), x)
                            case None => old(Contents())
                            case Some(i) => Removed(old(Contents()), i)
    {
      ghost var s := Contents();
      StrictlyAscendingIsSorted(cmp, s);
      FindIsMembership(cmp, s, x);
      var found := Find(cmp, elements[..count], x);
      if found.None? {
        return false;
      }
      RemoveThenAbsent(cmp, s, x, found.value);
      RemovedAscending(cmp, s, found.value);
      CloseGap(found.value);
      count := count - 1;
      return true;
    }

    /**
     * The memmove of cset_remove (cset.c:209-211): slots index+1..count move down by one;
     * the last of them is the free slot past the occupied ones.
     */
    method CloseGap(index: nat)
      requires Sized() && index < count
      modifies elements
      ensures elements[..count - 1] == Removed(old(elements[..count]), index)
    {
      var j := index;
      while j < count
        invariant index <= j <= count
        invariant elements[..index] == old(elements[..index])
        invariant elements[index..j] == old(elements[index + 1..j + 1])
        invariant elements[j..] == old(elements[j..])
        decreases count - j
      {
        elements[j] := elements[j + 1];
        j := j + 1;
      }
      assert elements[..count - 1] == elements[..index] + elements[index..count - 1];
    }

    /** cset_size and its alias cset_cardinality (cset.c:220-230). */
    function Size(): (n: nat)
      reads this, elements
      requires Valid()
      ensures n == |Contents()|
    {
      count
    }

    /** cset_isEmpty (cset.c:236-238). */
    function IsEmpty(): (r: bool)
      reads this, elements
      requires Valid()
      ensures r <==> Contents() == []
    {
      count == 0
    }

    /**
     * cset_contains (cset.c:194-196): a bsearch with the set's own comparator, which on
     * the ascending buffer answers true exactly when some slot compares equal to x.
     */
    function Contains(x: T): (r: bool)
      reads this, elements
      requires Valid()
      ensures r <==> HasEqual(cmp, Contents(), x)
    {
      StrictlyAscendingIsSorted(cmp, elements[..count]);
      FindIsMembership(cmp, elements[..count], x);
      Slots.Contains(cmp, elements[..count], x)
    }

    /** cset_first (cset.c:376-379): the handle of slot 0, or none for an empty set. */
    function First(): (r: Option<nat>)
      reads this
      requires Sized()
      ensures r.None? <==> count == 0
      ensures r.Some? ==> r.value == 0
    {
      if count == 0 then None else Some(0)
    }

    /** cset_next (cset.c:386-390): from slot i, the handle of slot i + 1, or none from the last slot. */
    function Next(i: nat): (r: Option<nat>)
      reads this
      requires Sized() && i < count
      ensures r.None? <==> i == count - 1
      ensures r.Some? ==> r.value == i + 1 && r.value < count
    {
      if i == count - 1 then None else Some(i + 1)
    }

    /** The handles a first/next walk yields from handle h on. */
    ghost function WalkFrom(h: Option<nat>): seq<nat>
      reads this
      requires Sized() && (h.Some? ==> h.value < count)
      decreases if h.Some? then count - h.value else 0
    {
      match h
      case None => []
      case Some(i) => [i] + WalkFrom(Next(i))
    }

    /** A walk from slot i visits i, i + 1, ..., count - 1, once each and in order. */
    lemma {:induction false} WalkFromSlot(i: nat)
      requires Sized() && i < count
      ensures WalkFrom(Some(i)) == seq(count - i, k => i + k)
      decreases count - i
    {
      if i < count - 1 {
        WalkFromSlot(i + 1);
      }
    }

    /** Iterating with cset_first and cset_next visits every occupied slot once, in ascending order. */
    lemma WalkVisitsEverySlot()
      requires Sized()
      ensures WalkFrom(First()) == seq(count, k => k)
    {
      if count > 0 {
        WalkFromSlot(0);
      }
    }

    /**
     * cset_toString (cset.c:398-410): none without a formatting hook; otherwise the
     * element texts in slot order between braces, separated by ", ".
     */
    method ToString() returns (r: Option<string>)
      requires Valid()
      ensures format.None? ==> r.None?
      ensures format.Some? ==> r == Some(Render.SetText(format.value, Contents()))
    {
      if format.None? {
        return None;
      }
      var f := format.value;
      var text := "{";
      var i := 0;
      while i < count
        invariant 0 <= i <= count
        invariant text == "{" + Render.Join(f, elements[..i]) + (if 0 < i < count then ", " else "")
      {
        if i > 0 {
          assert elements[..i + 1] == elements[..i] + [elements[i]];
          Render.JoinSnoc(f, elements[..i], elements[i]);
        }
        text := text + f(elements[i]);
        if i != count - 1 {
          text := text + ", ";
        }
        i := i + 1;
      }
      assert text == "{" + Render.Join(f, elements[..count]);
      text := text + "}";
      assert elements[..count] == Contents();
      return Some(text);
    }
  }

  /** A result set created with `base`'s element size and hooks. */
  ghost predicate SameHooks<T(0, !new)>(r: CSet<T>, base: CSet<T>) {
    r.elemsz == base.elemsz && r.cmp == base.cmp && r.hasCleanup == base.hasCleanup && r.format == base.format
  }

  /** A set created inside the operation: fresh, with a fresh buffer, well formed and not yet cleaned. */
  ghost predicate Created<T(0, !new)>(r: CSet<T>)
    reads r, r.elements
  {
    r.Valid() && r.cleaned == []
  }

  /**
   * The copying loops of cset_union (cset.c:269-275): every slot of `from`, in slot
   * order, is passed to cset_add on `into`.
   */
  method AddEach<T(0, !new)>(into: CSet<T>, from: CSet<T>)
    requires into.Valid() && from.Valid()
    requires into != from && into.elements != from.elements
    modifies into, into.elements
    ensures into.Valid() && into.cleaned == old(into.cleaned)
    ensures into.Contents() == AddAll(into.cmp, old(into.Contents()), from.Contents())
    ensures into.elements == old(into.elements) || fresh(into.elements)
  {
    ghost var start := into.Contents();
    ghost var a := from.Contents();
    var i := 0;
    while i < from.count
      invariant 0 <= i <= from.count
      invariant into.Valid() && into.cleaned == old(into.cleaned)
      invariant into.elements == old(into.elements) || fresh(into.elements)
      invariant from.Contents() == a
      invariant into.Contents() == AddAll(into.cmp, start, a[..i])
    {
      var _ := into.Add(from.elements[i]);
      AddAllPrefix(into.cmp, start, a, i);
      i := i + 1;
    }
    assert a[..from.count] == a;
  }

  /**
   * cset_union (cset.c:263-278): null if either operand is null; otherwise a new set with
   * set1's hooks, into which every element of set1 and then every element of set2 is added.
   */
  method Union<T(0, !new)>(set1: CSet?<T>, set2: CSet?<T>) returns (u: CSet?<T>)
    requires set1 != null ==> set1.Valid()
    requires set2 != null ==> set2.Valid()
    requires set1 != null && set2 != null ==> set1.elemsz == set2.elemsz
    ensures u == null <==> set1 == null || set2 == null
    ensures u != null ==> fresh(u) && fresh(u.elements) && Created(u) && SameHooks(u, set1)
    ensures u != null ==> u.Contents() == UnionOf(set1.cmp, set1.Contents(), set2.Contents())
  {
    if set1 == null || set2 == null {
      return null;
    }
    u := CopyOf(set1);
    AddEach(u, set2);
  }

  /** The first half of cset_union (cset.c:265-272): a new set with set1's hooks and capacity, holding set1's elements. */
  method CopyOf<T(0, !new)>(set1: CSet<T>) returns (u: CSet<T>)
    requires set1.Valid()
    ensures fresh(u) && fresh(u.elements) && Created(u) && SameHooks(u, set1)
    ensures u.Contents() == AddAll(set1.cmp, [], set1.Contents())
  {
    u := new CSet(set1.elemsz, set1.capacity, set1.cmp, set1.hasCleanup, set1.format);
    AddEach(u, set1);
  }

  /**
   * The selecting loops of cset_intersect and cset_difference (cset.c:295-298,
   * cset.c:315-317): each slot of `from`, in slot order, is added to `into` when
   * cset_contains(other, slot) answers `inside`.
   */
  method AddMatching<T(0, !new)>(into: CSet<T>, from: CSet<T>, other: CSet<T>, inside: bool)
    requires into.Valid() && from.Valid() && other.Valid()
    requires into != from && into != other && into.elements != from.elements && into.elements != other.elements
    modifies into, into.elements
    ensures into.Valid() && into.cleaned == old(into.cleaned)
    ensures into.Contents() == AddAll(into.cmp, old(into.Contents()), Matching(other.cmp, from.Contents(), other.Contents(), inside))
    ensures into.elements == old(into.elements) || fresh(into.elements)
  {
    ghost var start := into.Contents();
    ghost var a := from.Contents();
    ghost var b := other.Contents();
    var i := 0;
    while i < from.count
      invariant 0 <= i <= from.count
      invariant into.Valid() && into.cleaned == old(into.cleaned)
      invariant into.elements == old(into.elements) || fresh(into.elements)
      invariant from.Contents() == a && other.Contents() == b
      invariant into.Contents() == AddAll(into.cmp, start, Matching(other.cmp, a[..i], b, inside))
    {
      SelectAt(into, from, other, inside, start, i);
      i := i + 1;
    }
    assert a[..from.count] == a;
  }

  /** One pass of a selecting loop: cset_add(into, slot i of from) when cset_contains(other, it) answers `inside`. */
  method SelectAt<T(0, !new)>(into: CSet<T>, from: CSet<T>, other: CSet<T>, inside: bool, ghost start: seq<T>, i: nat)
    requires into.Valid() && from.Valid() && other.Valid() && i < from.count
    requires into != from && into != other && into.elements != from.elements && into.elements != other.elements
    requires into.Contents() == AddAll(into.cmp, start, Matching(other.cmp, from.Contents()[..i], other.Contents(), inside))
    modifies into, into.elements
    ensures into.Valid() && into.cleaned == old(into.cleaned)
    ensures into.elements == old(into.elements) || fresh(into.elements)
    ensures into.Contents() == AddAll(into.cmp, start, Matching(other.cmp, from.Contents()[..i + 1], other.Contents(), inside))
  {
    ghost var a, b := from.Contents(), other.Contents();
    var y := from.elements[i];
    SelectPrefix(into.cmp, other.cmp, start, a, b, inside, i);
    var selected := other.Contains(y);
    if selected == inside {
      var _ := into.Add(y);
    }
  }

  /**
   * cset_intersect (cset.c:287-301): null if either operand is null; otherwise a new set
   * with set1's hooks holding the slots of set1 that set2 contains.
   */
  method Intersect<T(0, !new)>(set1: CSet?<T>, set2: CSet?<T>) returns (u: CSet?<T>)
    requires set1 != null ==> set1.Valid()
    requires set2 != null ==> set2.Valid()
    requires set1 != null && set2 != null ==> set1.elemsz == set2.elemsz
    ensures u == null <==> set1 == null || set2 == null
    ensures u != null ==> fresh(u) && fresh(u.elements) && Created(u) && SameHooks(u, set1)
    ensures u != null ==> u.Contents() == IntersectionOf(set1.cmp, set2.cmp, set1.Contents(), set2.Contents())
  {
    if set1 == null || set2 == null {
      return null;
    }
    u := new CSet(set1.elemsz, set1.capacity, set1.cmp, set1.hasCleanup, set1.format);
    AddMatching(u, set1, set2, true);
  }

  /**
   * cset_difference (cset.c:309-320): null if either operand is null; otherwise a new set
   * with set1's hooks holding the slots of set1 that set2 does not contain.
   */
  method Difference<T(0, !new)>(set1: CSet?<T>, set2: CSet?<T>) returns (u: CSet?<T>)
    requires set1 != null ==> set1.Valid()
    requires set2 != null ==> set2.Valid()
    requires set1 != null && set2 != null ==> set1.elemsz == set2.elemsz
    ensures u == null <==> set1 == null || set2 == null
    ensures u != null ==> fresh(u) && fresh(u.elements) && Created(u) && SameHooks(u, set1)
    ensures u != null ==> u.Contents() == DifferenceOf(set1.cmp, set2.cmp, set1.Contents(), set2.Contents())
  {
    if set1 == null || set2 == null {
      return null;
    }
    u := new CSet(set1.elemsz, set1.capacity, set1.cmp, set1.hasCleanup, set1.format);
    AddMatching(u, set1, set2, false);
  }

  /**
   * cset_symmetricDifference (cset.c:326-335): (set1 - set2) u (set2 - set1); both
   * temporary differences are deleted, so their cleanup hooks see their elements.
   * A null operand is not accepted: cset_delete would dereference it.
   */
  method SymmetricDifference<T(0, !new)>(set1: CSet<T>, set2: CSet<T>) returns (u: CSet<T>)
    requires set1.Valid() && set2.Valid() && set1.elemsz == set2.elemsz
    ensures fresh(u) && fresh(u.elements) && Created(u) && SameHooks(u, set1)
    ensures u.Contents() == SymmetricDifferenceOf(set1.cmp, set2.cmp, set1.Contents(), set2.Contents())
  {
    var symm, diff1, diff2 := SymmetricParts(set1, set2);
    diff1.Delete();
    diff2.Delete();
    return symm;
  }

  /** The three sets cset_symmetricDifference builds (cset.c:327-329): set1 - set2, set2 - set1 and their union. */
  method SymmetricParts<T(0, !new)>(set1: CSet<T>, set2: CSet<T>) returns (symm: CSet<T>, diff1: CSet<T>, diff2: CSet<T>)
    requires set1.Valid() && set2.Valid() && set1.elemsz == set2.elemsz
    ensures fresh(symm) && fresh(symm.elements) && Created(symm) && SameHooks(symm, set1)
    ensures symm.Contents() == SymmetricDifferenceOf(set1.cmp, set2.cmp, set1.Contents(), set2.Contents())
    ensures fresh(diff1) && fresh(diff2) && diff1.Valid() && diff2.Valid()
    ensures symm != diff1 && symm != diff2 && diff1 != diff2
  {
    diff1 := Difference(set1, set2);
    diff2 := Difference(set2, set1);
    symm := Union(diff1, diff2);
  }

  /**
   * cset_isSubsetOf (cset.c:245-253): true for the same handle; otherwise whether set2
   * contains every element of set1, asked with set2's comparator.
   */
  function IsSubsetOf<T(0, !new)>(set1: CSet<T>, set2: CSet<T>): (r: bool)
    reads set1, set1.elements, set2, set2.elements
    requires set1.Valid() && set2.Valid()
    ensures set1 == set2 ==> r
    ensures r <==> forall i :: 0 <= i < |set1.Contents()| ==> HasEqual(set2.cmp, set2.Contents(), set1.Contents()[i])
  {
    StrictlyAscendingIsSorted(set2.cmp, set2.Contents());
    SubsetMeaning(set2.cmp, set1.Contents(), set2.Contents(), set1 == set2);
    if set1 == set2 then true else AllContained(set2.cmp, set1.Contents(), set2.Contents())
  }

  /**
   * cset_compare (cset.c:418-433) on two handles: zero for the same handle; then the
   * element counts decide, then the element sizes, then set1's comparator on the slots
   * pairwise, the first nonzero answer winning.
   */
  function Compare<T(0, !new)>(set1: CSet<T>, set2: CSet<T>): (r: int)
    reads set1, set1.elements, set2, set2.elements
    requires set1.Valid() && set2.Valid()
    ensures set1 == set2 ==> r == 0
    ensures set1 != set2 && set1.count != set2.count ==> r != 0 && (r < 0 <==> set1.count < set2.count)
    ensures set1 != set2 && set1.count == set2.count && set1.elemsz != set2.elemsz ==>
      r != 0 && (r < 0 <==> set1.elemsz < set2.elemsz)
    ensures set1 != set2 && set1.count == set2.count && set1.elemsz == set2.elemsz ==>
      (r == 0 <==> forall k :: 0 <= k < set1.count ==> set1.cmp(set1.Contents()[k], set2.Contents()[k]) == 0)
  {
    if set1 == set2 then 0
    else if set1.count != set2.count then set1.count - set2.count
    else if set1.elemsz != set2.elemsz then set1.elemsz - set2.elemsz
    else ContentsCompare(set1.cmp, set1.Contents(), set2.Contents())
  }

  /**
   * Two different handles of one element size compare as their slot sequences do under
   * the nested comparator; this is what lets the power set hold subsets by value.
   */
  lemma CompareIsNested<T(0, !new)>(set1: CSet<T>, set2: CSet<T>)
    requires set1.Valid() && set2.Valid()
    requires set1 != set2 && set1.elemsz == set2.elemsz
    ensures Compare(set1, set2) == NestedCompare(set1.cmp)(set1.Contents(), set2.Contents())
  {
  }

  /**
   * The body of cset_powerSet's outer loop before the final add (cset.c:362-365): a new
   * set with base's hooks and capacity popcount(b), into which every slot whose bit is
   * set in b is added, in slot order.
   */
  method BuildSubset<T(0, !new)>(base: CSet<T>, b: nat) returns (subset: CSet<T>)
    requires base.Valid() && b >= 1
    ensures fresh(subset) && fresh(subset.elements) && Created(subset) && SameHooks(subset, base)
    ensures subset.Contents() == SubsetFor(base.cmp, base.Contents(), b) == Picked(base.Contents(), b)
  {
    var s := base.Contents();
    subset := new CSet<T>(base.elemsz, PopCount(b), base.cmp, base.hasCleanup, base.format);
    var i := 0;
    while i < base.count
      invariant 0 <= i <= base.count
      invariant fresh(subset) && fresh(subset.elements) && Created(subset)
      invariant subset.Contents() == AddAll(base.cmp, [], Picked(s[..i], b))
    {
      PickedSnoc(s, b, i);
      if Bit(b, i) {
        var _ := subset.Add(base.elements[i]);
        AddAllSnoc(base.cmp, [], Picked(s[..i], b), s[i]);
      } else {
        assert Picked(s[..i], b) + [] == Picked(s[..i], b);
      }
      i := i + 1;
    }
    assert s[..base.count] == s;
    SubsetForExact(base.cmp, s, b);
  }

  /**
   * cset_powerSet (cset.c:350-370): a set of sets with capacity 2^n holding the empty set
   * and, for every bit pattern b from 1 to 2^n - 1, the set built by adding the slots
   * whose bit is set in b.  Each subset is held by its slots.  1 << n must fit an int.
   */
  method PowerSet<T(0, !new)>(base: CSet<T>) returns (ps: CSet<seq<T>>)
    requires base.Valid() && base.count < 31
    ensures fresh(ps) && fresh(ps.elements) && Created(ps)
    ensures ps.elemsz == HANDLE_SIZE && ps.cmp == NestedCompare(base.cmp) && ps.hasCleanup
    ensures ps.Contents() == PowerSetOf(base.cmp, base.Contents())
  {
    ps := NewPowerSet(base);
    AddSubsets(ps, base);
  }

  /**
   * The start of cset_powerSet (cset.c:351-358): the set of sets with capacity 2^n and
   * the set comparator, holding the empty set.
   */
  method NewPowerSet<T(0, !new)>(base: CSet<T>) returns (ps: CSet<seq<T>>)
    requires base.Valid() && base.count < 31
    ensures fresh(ps) && fresh(ps.elements) && Created(ps)
    ensures ps.elemsz == HANDLE_SIZE && ps.cmp == NestedCompare(base.cmp) && ps.hasCleanup
    ensures ps.Contents() == Added(ps.cmp, [], [])
  {
    var nested := if base.format.Some? then Some(NestedText(base.format.value)) else None;
    NestedIsComparator(base.cmp);
    ps := new CSet<seq<T>>(HANDLE_SIZE, Pow2(base.count), NestedCompare(base.cmp), true, nested);
    var empty := new CSet<T>(base.elemsz, 1, base.cmp, base.hasCleanup, base.format);
    var _ := ps.Add(empty.Contents());
  }

  /** The outer loop of cset_powerSet (cset.c:360-367): the subset of every pattern 1 .. 2^n - 1, in turn. */
  method AddSubsets<T(0, !new)>(ps: CSet<seq<T>>, base: CSet<T>)
    requires ps.Valid() && base.Valid()
    requires ps as object != base as object && ps.elements as object != base.elements as object
    modifies ps, ps.elements
    ensures ps.Valid() && ps.cleaned == old(ps.cleaned)
    ensures ps.elements == old(ps.elements) || fresh(ps.elements)
    ensures ps.Contents() == AddAll(ps.cmp, old(ps.Contents()), Enumerated(base.Contents(), Pow2(base.count)))
  {
    var total := Pow2(base.count);
    ghost var first := ps.Contents();
    ghost var s := base.Contents();
    for b := 1 to total
      invariant ps.Valid() && ps.cleaned == old(ps.cleaned)
      invariant ps.elements == old(ps.elements) || fresh(ps.elements)
      invariant base.Contents() == s
      invariant ps.Contents() == AddAll(ps.cmp, first, Enumerated(s, b))
    {
      AddSubset(ps, base, first, b);
    }
  }

  /** One pass of cset_powerSet's outer loop (cset.c:362-366): build the subset for b and add it. */
  method AddSubset<T(0, !new)>(ps: CSet<seq<T>>, base: CSet<T>, ghost first: seq<seq<T>>, b: nat)
    requires ps.Valid() && base.Valid() && b >= 1
    requires ps as object != base as object && ps.elements as object != base.elements as object
    requires ps.Contents() == AddAll(ps.cmp, first, Enumerated(base.Contents(), b))
    modifies ps, ps.elements
    ensures ps.Valid() && ps.cleaned == old(ps.cleaned)
    ensures ps.elements == old(ps.elements) || fresh(ps.elements)
    ensures ps.Contents() == AddAll(ps.cmp, first, Enumerated(base.Contents(), b + 1))
  {
    var subset := BuildSubset(base, b);
    EnumeratedStep(ps.cmp, base.Contents(), first, b);
    var _ := ps.Add(subset.Contents());
  }

  /** cset_genericToString (cset.c:448-451) for a set of sets whose subsets format with f. */
  function NestedText<T>(f: T -> string): seq<T> -> string {
    (u: seq<T>) => Render.SetText(f, u)
  }

  /** What cset_isSubsetOf answers, in terms of equal elements. */
  lemma SubsetMeaning<T(!new)>(cmp: (T, T) -> int, a: seq<T>, b: seq<T>, same: bool)
    requires same ==> a == b
    ensures !same && AllContained(cmp, a, b) ==> forall i :: 0 <= i < |a| ==> HasEqual(cmp, b, a[i])
    ensures IsComparator(cmp) && Sorted(cmp, b) ==>
      ((same || AllContained(cmp, a, b)) <==> forall i :: 0 <= i < |a| ==> HasEqual(cmp, b, a[i]))
  {
    if IsComparator(cmp) && Sorted(cmp, b) {
      AllContainedMeaning(cmp, a, b);
      if same {
        SelfContained(cmp, a);
      }
    }
    if !same && AllContained(cmp, a, b) {
      forall i | 0 <= i < |a| ensures HasEqual(cmp, b, a[i]) {
        FindIsMembershipWhenSorted(cmp, b, a[i]);
      }
    }
  }

  /** Bridges the set's Contains to the membership lemma of the engine. */
  lemma FindIsMembershipWhenSorted<T(!new)>(cmp: (T, T) -> int, s: seq<T>, x: T)
    ensures Slots.Contains(cmp, s, x) ==> HasEqual(cmp, s, x)
    ensures IsComparator(cmp) && Sorted(cmp, s) ==> (Slots.Contains(cmp, s, x) <==> HasEqual(cmp, s, x))
  {
    if IsComparator(cmp) && Sorted(cmp, s) {
      FindIsMembership(cmp, s, x);
    }
  }
}
