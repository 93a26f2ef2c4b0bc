# CSet in Dafny

CSet is a generic set library written in C. A set is a growable array of fixed-size
slots. The occupied slots `elements[0..n_elements)` are kept in ascending order under a
comparator hook that the client supplies. Two more hooks are optional: a cleanup hook,
called on every element a set releases, and a formatting hook used by `cset_toString`.
Lookup is a binary search (`bsearch`). Insertion finds its slot by binary search, shifts
the later slots up and copies the element in. Union, intersection, difference,
symmetric difference and subset are built from `cset_add` and `cset_contains`. Because
`cset_compare` is itself a comparator, sets can hold sets, and `cset_powerSet` enumerates
the subsets of a set by bit pattern.

The project has two layers:

- **Value layer.** Functions and lemmas on the sequence of occupied slots:
  - `Order`: comparators;
  - `Slots`: search, add, remove and insert;
  - `Algebra`: the set operations;
  - `Nesting`: the set comparator and the power set;
  - `Render`: the text form.
- **Imperative layer.** `CSets.CSet` is a class over an `array<T>` whose length is the
  capacity. Every method is proved to leave exactly the slots that the value layer
  describes. `Valid()` says:
  - the occupied slots fit the buffer;
  - the comparator is a total preorder;
  - the slots are strictly ascending.

  - `Add`, `Remove`, `Clear` and `CheckResize` keep `Valid()`.
  - The helpers `Insert` and `CloseGap` need and keep only `Sized()`: the occupied
    slots fit the buffer.
  - `ReleaseAll` and `Delete` change only the record of elements passed to the cleanup
    hook.

`cset_add` as written can break that order. The class uses the intended binary-search
insertion. The code as written is kept in module `Findings`, with inputs that show how
it goes wrong (see "## Findings").

The element type `T` is abstract. The comparator is a Dafny function `(T, T) -> int`
with the three-way convention of `cset.h:24-32`. The cleanup hook is a flag: every
element it is called on is appended to the ghost trace `cleaned`. The formatting hook
is an `Option<T -> string>`.

Where the header comments or the library description disagree with the code, the model
follows the code:

- `cset_remove` does not call the cleanup hook, although `cset.h:101-106` says it does.
- `cset_isSubsetOf` looks elements up with set2's comparator, through
  `cset_contains(set2, ...)`, although `cset.c:243` says set1's.

Two defects are the exception (see "## Findings"). There the class `CSets.CSet` and the
value functions it uses follow the intended behaviour. Module `Findings` models the code
as written:

- `cset_intersect` walks set1 for only `min(n1, n2)` slots, not every slot.
  - As written: `Findings.AsWrittenIntersectionOf`, which also passes its matches to
    `cset_add` as written.
  - Intended: `Algebra.IntersectionOf`, used by `CSets.Intersect`.
- `cset_add` can store an element twice or out of order. As a result, `cset_union` of
  `{1, ..., 5}` and `{4, ..., 8}` holds 5 twice rather than the expected `{1, ..., 8}`.
  - As written: `Findings.AsWrittenAdded`, `Findings.AsWrittenUnionOf`.
  - Intended: `Slots.Added`, `Algebra.UnionOf`, used by `CSets.CSet.Add` and `CSets.Union`.

Module `Scenarios` states the test program's expectations (set_test.c) for subsets,
for the intersect and differences of set3 and set4, and for the power set of {1, 3, 5}.

## Model

| member | source | states |
|---|---|---|
| Order.IntCompareIsComparator | set_test.c:13-17 | the test program's integer comparator answers 0 on equal arguments, flips sign when the arguments swap, and makes "at most" transitive |
| Order.LessThenAtMost | cset.h:24-32 | under a comparator, a < b and b <= c give a < c |
| Order.AtMostThenLess | cset.h:24-32 | under a comparator, a <= b and b < c give a < c |
| Slots.Place | cset.c:148-162 | the intended binary search over slots [lo, hi): a hit is a slot in range equal to x; otherwise it settles on an insertion index within [lo, hi] |
| Slots.AddIndex | cset.c:146-168 | add refuses x only if some slot equals x; otherwise the insertion index is at most the slot count |
| Slots.InsertAt | cset.c:85-93 | insert yields one more slot, x at index i, the slots before i unchanged and the slots from i shifted up by one |
| Slots.Search | cset.c:194-196 | bsearch returns only an index in range whose slot equals x |
| Slots.Added | cset.c:146-174 | definition: the slots after the intended add, unchanged when refused, otherwise x inserted at its index; its properties are AddedShape, AddedCovers and AddedSpec |
| Slots.AddAll | cset.c:269-275 | definition: the slots after adding each element of a list in turn, as every copying loop does; its properties are the AddAll lemmas below |
| Slots.Find | cset.c:195 | bsearch over all occupied slots: a found index is an occupied slot equal to x |
| Slots.Contains | cset.c:194-196 | a true answer means some slot equals x, whether or not the slots are sorted |
| Slots.AddAllRefused | cset.c:269-275 | on strictly ascending slots, a run of adds that meets an element equal to an original slot stores fewer than n + k slots |
| Slots.Removed | cset.c:209-212 | closing the gap at i yields one fewer slot, the slots before i unchanged and the later ones shifted down by one |
| Slots.AddedShape | cset.c:146-174 | add either leaves the slots unchanged (and then x has an equal slot) or inserts x at its index |
| Slots.AddedCovers | cset.c:146-174 | after add, x has an equal slot and every previous element is still present |
| Slots.PlaceAbove | cset.c:148-162 | when x exceeds every slot in [lo, hi), the search settles at hi |
| Slots.AppendsGreatest | cset.c:146-174 | adding an element greater than every slot appends it at the end |
| Slots.PlaceBetween | cset.c:148-162 | on strictly ascending slots, a settled search gives an index with every earlier slot below x and every later slot above x |
| Slots.InsertBetween | cset.c:85-93 | inserting x where it is above its predecessors and below its successors keeps the slots strictly ascending |
| Slots.AddedSpec | cset.c:146-174 | on strictly ascending slots, add refuses x exactly when an equal slot exists, and the result is strictly ascending |
| Slots.AddAllSnoc | cset.c:269-275 | adding a list of elements one by one is adding all but the last, then the last |
| Slots.AddAllPrefix | cset.c:269-275 | adding the first i+1 elements is adding the first i, then element i |
| Slots.AddAllKeepsOrder | cset.c:269-275 | any sequence of adds keeps strictly ascending slots strictly ascending |
| Slots.AddAllBound | cset.c:269-275 | a sequence of adds grows the set by at most the number of elements added |
| Slots.AddAllFrom | cset.c:269-275 | every slot after a sequence of adds comes from the original slots or from the added elements (multiset inclusion) |
| Slots.AddAllCovers | cset.c:269-275 | after a sequence of adds every original slot is kept and every added element has an equal slot |
| Slots.AddAllAscending | cset.c:269-275 | adding elements that continue a strictly ascending run just appends them |
| Slots.AddAllDistinct | cset.c:350-367 | adding elements pairwise distinct from each other and from the slots keeps every one of them (exact multiset, exact size) |
| Slots.SearchComplete | cset.c:194-196 | on sorted slots, bsearch finds x whenever some slot equals it |
| Slots.FindIsMembership | cset.c:194-196 | on sorted slots, contains answers true exactly when some slot equals x |
| Slots.RemovedAscending | cset.c:204-214 | removing a slot keeps the slots strictly ascending |
| Slots.RemoveThenAbsent | cset.c:204-214 | after removing the slot bsearch found for x, no slot equals x and contains(x) is false |
| Algebra.Matching | cset.c:295-298 | the selected elements are at most as many as a's slots, each a slot of a for which contains(b, .) gives the requested answer |
| Algebra.MatchingAscending | cset.c:295-298 | selecting from strictly ascending slots keeps them strictly ascending |
| Algebra.MatchingSnoc | cset.c:295-298 | selection over a + [y] is the selection over a, then y if it matches |
| Algebra.SelectPrefix | cset.c:315-317 | one pass of the selecting loop adds slot i exactly when it matches |
| Algebra.SelfContained | cset.c:245-253 | under a reflexive comparator every slot has an equal slot in its own set |
| Algebra.MatchingComplete | cset.c:295-298 | every slot of a for which contains(b, .) gives the requested answer is selected |
| Algebra.AllContained | cset.c:249-252 | definition: cset_contains(set2, .) answers true for every slot of set1; its meaning is AllContainedMeaning |
| Algebra.UnionOf | cset.c:263-278 | definition: set1's slots, then set2's, added in turn to an empty set; its properties are UnionBound, UnionSizeDisjoint and UnionCovers |
| Algebra.IntersectionOf | cset.c:287-301 | definition: the intended intersection, every slot of set1 that set2 contains, added to an empty set; its properties are IntersectionExact |
| Algebra.DifferenceOf | cset.c:309-320 | definition: set1's slots that set2 does not contain, added to an empty set; its properties are DifferenceExact |
| Algebra.SymmetricDifferenceOf | cset.c:326-335 | definition: the union of the two differences; its properties are SymmetricDifferenceMeaning |
| Algebra.UnionSizeDisjoint | cset.c:263-278 | for strictly ascending operands, the union has exactly n1 + n2 elements iff no element of set2 equals an element of set1 |
| Algebra.UnionBound | cset.c:263-278 | the union has at most n1 + n2 elements, all taken from the two operands |
| Algebra.UnionCovers | cset.c:263-278 | every element of either operand has an equal element in the union |
| Algebra.DifferenceExact | cset.c:309-320 | set1 - set2 is set1's slots not contained in set2, in set1's order, strictly ascending, and x is in it iff x is in set1 and not contained in set2 |
| Algebra.IntersectionExact | cset.c:287-301 | the intended intersection is set1's slots contained in set2, strictly ascending, and x is in it iff x is in set1 and equals some slot of set2 |
| Algebra.SymmetricDifferenceMeaning | cset.c:326-335 | every element of the symmetric difference is in one operand and not contained in the other, and every element of one operand not contained in the other has an equal element in it |
| Algebra.AllContainedMeaning | cset.c:249-252 | the subset loop answers true iff every slot of set1 has an equal slot in set2 |
| Nesting.ElementwiseCompare | cset.c:428-432 | the element loop returns 0 iff all remaining pairs compare equal, and otherwise the first nonzero pairwise answer |
| Nesting.ContentsCompare | cset.c:424-432 | sets of different size compare by size; otherwise the result is 0 iff all slots compare equal pairwise |
| Nesting.NestedCompare | cset.c:418-433 | definition: cset_compare as a hook on slot sequences; NestedIsComparator proves it a comparator |
| Nesting.NestedCompareReflexive | cset.c:418-433 | the set comparator answers 0 on equal contents when the element comparator is reflexive |
| Nesting.ElementwiseFlip | cset.c:428-432 | swapping the operands of the element loop flips the sign of its answer |
| Nesting.ElementwiseTransitive | cset.c:428-432 | the element loop is transitive for "at most" |
| Nesting.NestedIsComparator | cset.c:418-433 | cset_compare, used as the hook of a set of sets, is a total preorder whenever the element comparator is one |
| Nesting.Picked | cset.c:363-365 | definition: the slots whose bit is set in the pattern, in slot order; its properties are the Picked lemmas below |
| Nesting.SubsetFor | cset.c:362-365 | definition: the picked slots added in turn to an empty set; SubsetForExact proves it equals Picked |
| Nesting.Enumerated | cset.c:360-367 | definition: the subsets of patterns 1 .. k - 1 in order; EnumeratedAt and EnumeratedStep describe it |
| Nesting.PowerSetOf | cset.c:350-370 | definition: the empty set, then every enumerated subset, added in turn; PowerSetLaw, PowerSetMultiset, PowerSetHasEvery and PowerSetHasOnly describe it |
| Nesting.PickedSnoc | cset.c:363-365 | the inner loop adds slot i exactly when bit i of the pattern is set |
| Nesting.PickedFrom | cset.c:363-365 | every picked element is a slot of the base set |
| Nesting.PickedNone | cset.c:356-357 | the zero pattern picks the empty set |
| Nesting.PickedSize | cset.c:362 | a pattern below 2^n picks popcount(pattern) elements, the capacity the code gives the subset |
| Nesting.PickedAscending | cset.c:363-365 | a subset picked from strictly ascending slots is strictly ascending |
| Nesting.PickedDistinct | cset.c:360-367 | two different patterns below 2^n pick subsets that cset_compare tells apart |
| Nesting.EnumeratedAt | cset.c:360-367 | the outer loop's j-th subset is the one picked by pattern j + 1 |
| Nesting.EnumeratedStep | cset.c:360-367 | one more pass of the outer loop adds the subset of the next pattern |
| Nesting.SubsetForExact | cset.c:362-365 | the subset the inner loop builds by adds is exactly the picked slots, in order |
| Nesting.EnumeratedDistinct | cset.c:360-367 | the 2^n - 1 nonempty subsets are nonempty and pairwise distinct under cset_compare |
| Nesting.PowerSetMultiset | cset.c:350-370 | the power set holds the empty set and each nonempty subset exactly once |
| Nesting.PowerSetLaw | cset.c:350-370 | the power set of an n-element set has 2^n elements |
| Nesting.PowerSetHasEvery | cset.c:350-370 | every pattern's subset is in the power set |
| Nesting.PowerSetHasOnly | cset.c:350-370 | every element of the power set is the subset of some pattern below 2^n |
| Render.Join | cset.c:402-407 | definition: the element texts separated by ", " |
| Render.SetText | cset.c:398-410 | definition: "{", the joined element texts, "}" |
| Render.JoinSnoc | cset.c:402-407 | appending an element adds ", " and its text after the earlier texts |
| Render.SetTextSmall | cset.h:177-183 | the empty set prints as "{}" and a singleton as its text in braces |
| CSets.CSet.constructor | cset.c:103-122 | a new empty valid set whose capacity is the hint, or 32 for a zero hint, with the given element size and hooks |
| CSets.CSet.CheckResize | cset.c:73-79 | the capacity doubles exactly when count >= capacity - 1; the slots are unchanged and one free slot beyond count remains |
| CSets.CSet.Insert | cset.c:85-93 | the occupied slots plus one become InsertAt of the old slots |
| CSets.CSet.Locate | cset.c:148-162 | the loop's answer equals the intended binary search over the occupied slots |
| CSets.CSet.Add | cset.c:146-174 | returns true iff no slot equals x; the new slots are Added of the old ones, the set stays valid and the capacity follows check_resize |
| CSets.CSet.ReleaseAll | cset.c:130-134 | with a cleanup hook, every occupied slot is released once, in slot order; without one, nothing is |
| CSets.CSet.Clear | cset.c:180-187 | releases every element, then leaves an empty valid set with the same capacity and buffer |
| CSets.CSet.Delete | cset.c:128-138 | releases every element through the cleanup hook when there is one |
| CSets.CSet.Remove | cset.c:204-214 | returns true iff some slot equals x; afterwards no slot equals x, the found slot is gone and the others keep their order; capacity unchanged and nothing released |
| CSets.CSet.CloseGap | cset.c:209-212 | the occupied slots minus one become Removed of the old slots at the index |
| CSets.CSet.Size | cset.c:220-230 | the number of occupied slots |
| CSets.CSet.IsEmpty | cset.c:236-238 | true iff the set has no elements |
| CSets.CSet.Contains | cset.c:194-196 | true iff some slot equals x under the set's comparator |
| CSets.CSet.First | cset.c:376-379 | none iff the set is empty, otherwise slot 0 |
| CSets.CSet.Next | cset.c:386-390 | none iff i is the last slot, otherwise slot i + 1 |
| CSets.CSet.WalkFromSlot | cset.c:386-390 | following next from slot i visits i, i + 1, ..., count - 1 |
| CSets.CSet.WalkVisitsEverySlot | cset.c:376-390 | first then next visits every occupied slot once, in order |
| CSets.CSet.ToString | cset.c:398-410 | none without a formatting hook; otherwise "{" then the element texts joined by ", " in slot order, then "}" |
| CSets.AddEach | cset.c:269-275 | the target's slots become the old slots with every slot of the source added in order, and it stays valid |
| CSets.Union | cset.c:263-278 | null iff an operand is null; otherwise a new set with set1's hooks holding set1's slots, then set2's, added in order |
| CSets.CopyOf | cset.c:267-271 | a new set with set1's hooks holding set1's slots added in order |
| CSets.AddMatching | cset.c:315-317 | the target's slots become the old ones with every matching slot of the source added in order |
| CSets.SelectAt | cset.c:316 | one pass of the selecting loop extends the selection by slot i when it matches |
| CSets.Intersect | cset.c:287-301 | null iff an operand is null; otherwise a new set with set1's hooks holding the intended intersection |
| CSets.Difference | cset.c:309-320 | null iff an operand is null; otherwise a new set with set1's hooks holding set1's slots not contained in set2 |
| CSets.SymmetricDifference | cset.c:326-335 | a new set with set1's hooks holding (set1 - set2) united with (set2 - set1) |
| CSets.SymmetricParts | cset.c:327-329 | the three sets built are distinct and fresh: the two differences are valid and the result is their union |
| CSets.IsSubsetOf | cset.c:245-253 | true for the same handle; otherwise true iff every slot of set1 has an equal slot in set2 |
| CSets.Compare | cset.c:418-433 | 0 for the same handle; then the sign follows the element counts, then the element sizes, and otherwise it is 0 iff all slots compare equal pairwise |
| CSets.CompareIsNested | cset.c:418-433 | for different handles of one element size, cset_compare equals the nested comparator on their slots |
| CSets.BuildSubset | cset.c:362-365 | the new subset has the base's hooks and holds exactly the slots picked by pattern b, in order |
| CSets.PowerSet | cset.c:350-370 | a new set of sets with cset_compare as its comparator and a cleanup hook, holding exactly the power set |
| CSets.NewPowerSet | cset.c:351-357 | the set of sets starts out holding only the empty set |
| CSets.AddSubsets | cset.c:360-367 | the outer loop adds the subset of every pattern 1 .. 2^n - 1, in turn |
| CSets.AddSubset | cset.c:362-366 | one pass builds the subset for pattern b and adds it |
| CSets.NestedText | cset.c:448-451 | definition: a subset's text is the text cset_toString gives it |
| CSets.SubsetMeaning | cset.c:245-253 | the subset answer for different handles means every slot of set1 has an equal slot in set2 (both directions when set2 is sorted) |
| Findings.Halve | cset.c:148-162 | the halving loop as written: a hit is a slot equal to x; a settled index lies within the slots |
| Findings.Scan | cset.c:165-168 | the forward scan as written stops at the first slot from i that x does not exceed, having passed only slots below x |
| Findings.AsWrittenIndex | cset.c:146-168 | add as written refuses only when a probed slot equals x, and otherwise inserts within the slots |
| Findings.AsWrittenAdded | cset.c:146-174 | definition: cset_add as written, the slots unchanged when a halving probe hit an equal slot, otherwise x inserted at the scanned index; its behaviour is shown by the lemmas below |
| Findings.AsWrittenAddAll | cset.c:269-275 | definition: the as-written add applied to each element of a list in turn |
| Findings.AsWrittenUnionOf | cset.c:263-278 | definition: cset_union over the as-written add |
| Findings.AsWrittenIntersectionOf | cset.c:287-301 | definition: cset_intersect as written. Only the first min(n1, n2) slots of set1 are tested, and the matches are passed to cset_add as written |
| Findings.AsWrittenIntersectionSound | cset.c:287-301 | for a strictly ascending set1, intersect as written stores exactly the slots among its first min(n1, n2) that set2 contains, in order. It equals the intended intersection when n1 <= n2, and in every case keeps only elements of set1 that equal a slot of set2 |
| Findings.AsWrittenCopiesAscending | cset.c:146-174 | cset_add as written, given a strictly ascending run on an empty set, stores the run |
| Findings.IntersectKeepsDuplicate | cset.c:287-301 | intersect as written of [5, 5] (the slots the add as written leaves after adding 5 to {5}) with {5, 6} stores 5 twice |
| Findings.AddAcceptsDuplicate | cset.c:146-174 | add as written puts a second 5 into {5}, leaving slots that are not strictly ascending |
| Findings.AddMisorders | cset.c:146-174 | add as written puts 5 after 20 in {10, 20, 30, 40, 50, 60}, leaving unsorted slots |
| Findings.AddRepeatsLast | cset.c:146-174 | add as written appends a second 5 to {1, 2, 3, 4, 5} |
| Findings.UnionKeepsDuplicate | cset.c:263-278 | union as written of {5} with {5} holds 5 twice |
| Findings.AsWrittenAppendsGreatest | cset.c:146-174 | add as written appends an element greater than every slot |
| Findings.AsWrittenAppendsAscending | cset.c:146-174 | adds as written of a strictly ascending run above every slot append the run |
| Findings.AddRefusesProbed | cset.c:146-174 | add as written refuses 4 for {1, 2, 3, 4, 5}, because the halving loop probes the equal slot |
| Findings.AsWrittenCopiesSet3 | set_test.c:163-171 | adding 1, ..., 5 as written builds the test program's set3 = {1, ..., 5} |
| Findings.AsWrittenBuildsSet4 | set_test.c:164-171 | adding 8, 7, 6, 5, 4 as written builds the test program's set4 = {4, ..., 8} |
| Findings.AsWrittenUnionTail | cset.c:273-275 | the second loop of union as written adds 4 to 8 to {1, ..., 5} and keeps a second 5 |
| Findings.TestUnionRepeatsFive | set_test.c:176 | the test program's union of set3 and set4, as written, is 1, 2, 3, 4, 5, 5, 6, 7, 8 |
| Findings.AsWrittenAddFour | cset.c:146-174 | four adds as written in a row on an empty set store the last result |
| Findings.AsWrittenAddsTwoToFive | cset.c:146-174 | adding 2 to {5} as written gives [2, 5] |
| Findings.AsWrittenAddsEight | cset.c:146-174 | adding 8 to {2, 5} as written gives [2, 5, 8] |
| Findings.AsWrittenAddsTwoAgain | cset.c:146-174 | adding 2 to {2, 5, 8} as written stores a second 2 |
| Findings.AsWrittenFiveTwoEightTwo | cset.c:146-174 | adding 5, 2, 8, 2 to an empty set as written gives [2, 2, 5, 8] |
| Findings.AddFour | cset.c:146-174 | four intended adds in a row on an empty set store the last result |
| Findings.AddsTwoToFive | cset.c:146-174 | the intended add puts 2 before 5 |
| Findings.RefusesTwo | cset.c:146-174 | the intended add refuses 2 for {2, 5, 8} |
| Findings.FiveTwoEightTwo | cset.c:146-174 | with the intended add, 5, 2, 8, 2 give {2, 5, 8}: three ascending slots |
| Findings.AddRefusesFour | cset.c:146-174 | the intended add refuses 4 for {1, ..., 5} |
| Findings.CopiesSet3 | cset.c:269-271 | the intended add, called with 1, ..., 5 in turn on an empty set, builds {1, ..., 5} |
| Findings.TestUnionIntended | set_test.c:176 | with the intended add, the test program's union of set3 and set4 is {1, ..., 8} |
| Findings.AddExamples | cset.c:146-174 | the intended add refuses 5 for {5} and {1, ..., 5} and puts 5 first in {10, ..., 60}; the intended union of {5} with {5} is {5} |
| Findings.IntersectMissesLaterSlots | cset.c:294-298 | intersect as written of {4, 5} with {5} is empty, although 5 is in both |
| Findings.IntersectionExample | cset.c:287-301 | the intended intersection of {4, 5} with {5} is {5} |
| Scenarios.AscendingByNeighbours | set_test.c:13-17 | integers that increase from each slot to the next are strictly ascending under the test comparator |
| Scenarios.Set1InSet2 | set_test.c:144-145 | every element of the test's set1 is stored in its set2 |
| Scenarios.TwoNotInSet1 | set_test.c:144-145 | 2, an element of set2, is not stored in set1 |
| Scenarios.Set1SubsetOfSet2 | set_test.c:160 | the subset loop answers true for set1 against set2, as the test expects |
| Scenarios.Set2NotSubsetOfSet1 | set_test.c:161 | the subset loop answers false for set2 against set1, as the test expects |
| Scenarios.PowerSetOfThreeSize | cset.c:350-370 | the power set of {1, 3, 5} has 8 members |
| Scenarios.PowerSetOfThreeHasEmpty | cset.c:356-357 | the power set of {1, 3, 5} holds the empty set |
| Scenarios.PickedAllOfThree | cset.c:363-365 | pattern 7 picks all of 1, 3, 5 |
| Scenarios.ContainsInts | cset.c:194-196 | on strictly ascending integers, cset_contains answers exactly membership |
| Scenarios.IntersectionInts | cset.c:287-301 | on strictly ascending integers, the intended intersection is the ascending sequence of the common members |
| Scenarios.DifferenceInts | cset.c:309-320 | on strictly ascending integers, the difference is the ascending sequence of the members of set1 not in set2 |
| Scenarios.TestIntersect | set_test.c:179 | the intersect of set3 and set4 is {4, 5}, both as intended and as written |
| Scenarios.TestDifference34 | set_test.c:182 | set3 - set4 is {1, 2, 3} |
| Scenarios.TestDifference43 | set_test.c:183 | set4 - set3 is {6, 7, 8} |
| Scenarios.UnionOfAscending | cset.c:263-278 | uniting two integer sets whose concatenation is strictly ascending stores the concatenation |
| Scenarios.TestSymmetricDifference | set_test.c:184 | the symmetric difference of set3 and set4 is {1, 2, 3, 6, 7, 8} |
| Scenarios.PowerSetOfThreeHasAll | cset.c:360-367 | the power set of {1, 3, 5} holds {1, 3, 5} itself |

## Left out

- Memory management is not modelled: `malloc`, `realloc`, `free` and `strdup`. A failed
  allocation (the asserts at cset.c:105 and cset.c:112) is not modelled: allocation
  always succeeds. The null comparator assert is replaced by the requirement that the
  comparator is a total preorder.
- `nth` and `get_index` address arithmetic and byte copies (`memcpy`, `memmove`) are
  modelled as array indexing and slot assignment. Element bytes are values of `T`.
- `elemsz` is only recorded. It takes part in `cset_compare` and in the equal-size
  requirement of the set operations. Slot layout by size is not modelled.
- CSets.CSet.ToString: the fixed buffer of SET_STR_MAX_LEN (2000) bytes is not modelled.
  The model returns the whole text, whereas the C code overruns the buffer when the
  text is longer.
- Order.IntCompare: the subtraction in the test program's comparator is unbounded
  here. In C it can overflow a 32-bit int for operands far apart.
- CSets.Compare: `n_elements` and `elemsz` differences are unbounded integers. In C the
  `elemsz` difference is a `size_t` converted to `int`, so its sign can differ for large
  sizes.
- CSets.PowerSet: requires fewer than 31 elements, so that `1 << n` fits an `int`.
  `__builtin_popcount` is the specification function `Nesting.PopCount`.
- Every set's elements share one Dafny type `T`, and a set of sets holds sets of one
  element type. So the source's sets of sets mixing element sizes (the `elemsz` branch of
  cset.c:426, used at set_test.c:113-132) are not expressed. `CSets.Compare` still states
  that branch for two handles.
- Sets of sets are held by value: a subset is its slot sequence, not a `CSet*` handle.
  So the handle identity shortcut of `cset_compare` does not arise inside the power
  set. `cset_cleanup` (cset.c:439-442) only appears as the power set's cleanup flag.
- A power set whose base set has no formatting hook gets no formatting hook. In C it
  gets `cset_genericToString`, which returns NULL for each subset, and `strcat` then
  crashes.
- CSets.SymmetricDifference: requires non-null operands. In C a null operand makes
  `cset_delete` dereference NULL.
- CSets.SymmetricDifference: the result holds byte copies of the temporaries' elements. A
  cleanup hook that frees resources owned by an element therefore frees resources the
  result still refers to. The model records those releases on the temporaries' traces
  and does not model ownership.
- CSets.CSet.Delete: freeing the buffer and the handle is not modelled. Only the
  cleanup calls are.
- The cleanup and formatting hooks are opaque client code. The cleanup hook is recorded
  as a trace of the released elements. The formatting hook is a function parameter.
- `Slots.Search` is the classic bsearch: probe the middle, recurse into one half. Which
  equal slot the C library returns among several is not fixed by the C standard. The
  model picks one that satisfies the same contract.

## Findings

| source | as written | input that shows it | evidently intended | confidence | as-written member | corrected member |
|---|---|---|---|---|---|---|
| cset.c:146-174 | `cset_add` refuses an element only when the halving loop probes an equal slot. The forward scan stops at the first slot not below the element without checking for equality. The start index after halving can lie beyond smaller slots. | Adding 5 to {5} gives slots 5, 5. Adding 5 to {1, 2, 3, 4, 5} appends a second 5. Adding 5 to {10, 20, 30, 40, 50, 60} gives 10, 20, 5, 30, .... The test program's union of {1, ..., 5} and {4, ..., 8} (set_test.c:176) gives 1, 2, 3, 4, 5, 5, 6, 7, 8 instead of {1, ..., 8}. Adding 5, 2, 8, 2 to an empty set gives 2, 2, 5, 8 instead of {2, 5, 8}. | Add refuses x exactly when an equal slot exists, and otherwise inserts it at its ascending position, keeping the slots strictly ascending. | not executed | Findings.AddAcceptsDuplicate, Findings.AddMisorders, Findings.TestUnionRepeatsFive, Findings.AsWrittenFiveTwoEightTwo | Slots.AddedSpec, CSets.CSet.Add, Findings.TestUnionIntended, Findings.FiveTwoEightTwo |
| cset.c:294-298 | `cset_intersect` looks at only the first min(n1, n2) slots of set1. | {4, 5} intersected with {5} is empty. | Every slot of set1 that set2 contains is kept. | not executed | Findings.IntersectMissesLaterSlots | Algebra.IntersectionExact, CSets.Intersect |
