# SmallIntegerSet in Dafny

A model of `SmallIntegerSet`, a mutable `SortedSet<Integer>` over the integers 0..63. Its whole state is one `long` word, `values`. Bit i is set exactly when i is a member.

The model has five parts.

- **Word arithmetic.** A Java `long` is modelled as its two's-complement bit pattern, read as an unbounded integer in [0, 2^64) (`Words.Word`).
  - `&`, `|` and `~` are defined bit by bit.
  - `+`, `-` and unary `-` wrap modulo 2^64.
  - `1L << i` masks the shift distance to its low six bits, as Java does.
  - Java's signed comparison goes through `Signed`.
  - `Members(w)` is the abstraction: the set of positions whose bit is one.
- **JDK helpers.** `Long.bitCount`, `Long.lowestOneBit` (as `w & -w`) and `Long.highestOneBit` are defined on words and related to `Members`. `Arrays.binarySearch(long[], long)` is defined as the JDK's search loop and proved to find every element of a strictly ascending array at its index. This is module `Jdk`.
- **Static bit helpers** (module `SetBits`):
  - `isSet`, `isSupported`, `size`, `isEmpty`, `first` and `last`;
  - `log2` together with its table `ONE_BIT_INDICES`;
  - `Elements(w)`, the members in ascending order.
- **Scans** (module `SetScans`). The static methods that loop over the 64 positions become methods with loops, proved against specification functions. They are `forEach`, both `toArray` forms, `toStringNotEmpty`, `estimateToStringSize` and `hashCode`, plus `containsAllNonThrowing`, which loops over the collection instead.
- **Classes and range arithmetic:**
  - The owner is class `SmallIntegerSet`. Its methods update `values` in place.
  - The three view variants are one class, `SubSetView`, tagged with its `kind`. A view holds a `const owner` and a `const mask`. It reads the live `owner.values & mask` and writes to the owner after a mask check.
  - The iterator is class `SmallIntegerSetIterator`, a `nextIndex` cursor over the owner's live word.
  - The bound checks and mask arithmetic of `subSet`, `headSet` and `tailSet` are pure functions in module `Ranges`, which return a `Range` or an `IllegalArgument` error. The methods that allocate views realise those answers.

Java exceptions become error values:
- `IllegalArgumentException` becomes `Err(IllegalArgument)`.
- `NoSuchElementException` becomes `Err(NoSuchElement)`.

Callbacks are modelled as follows:
- A `Consumer` passed to `forEach` or `forEachRemaining` becomes the output sequence of the values it would receive.
- The `Predicate` of `removeIf` becomes a function `int -> bool`.

Collections and other sets passed as arguments become sequences. `Collections.emptyNavigableSet()` becomes `EmptySetRef`.

## Model

| member | source | states |
|---|---|---|
| SetBits.TableAscending | src/main/java/com/github/marschall/sets/SmallIntegerSet.java:114-179 | `ONE_BIT_INDICES` has 64 entries, and adding `Long.MIN_VALUE` makes them strictly ascending in signed order, so binary search applies |
| SetBits.Log2Bit | src/main/java/com/github/marschall/sets/SmallIntegerSet.java:421-423 | `log2(1L << i) == i` for every i in 0..63 |
| Jdk.SearchFinds | src/main/java/com/github/marschall/sets/SmallIntegerSet.java:421-423 | on a strictly ascending (signed) array, the binary search of `log2` finds every element at its own index |
| SetBits.IsSet | src/main/java/com/github/marschall/sets/SmallIntegerSet.java:224-232 | `isSet(bits, i)` holds exactly when i is a member of bits, so it is false outside 0..63 |
| SetBits.IsSetNoCheckMember | src/main/java/com/github/marschall/sets/SmallIntegerSet.java:234-236 | for a position in 0..63, the unchecked test `(bits & (1L << i)) != 0` is membership |
| SetBits.IsSupported | src/main/java/com/github/marschall/sets/SmallIntegerSet.java:238-240 | an element is supported exactly when it lies in 0..63 |
| SetBits.IsSupportedIn | src/main/java/com/github/marschall/sets/SmallIntegerSet.java:242-244 | `isSupported(mask, i)` holds exactly when i is a member of the mask |
| SetBits.Size | src/main/java/com/github/marschall/sets/SmallIntegerSet.java:257-259 | `size(bits)` is the number of members, at most 64 |
| Jdk.BitCountMembers | src/main/java/com/github/marschall/sets/SmallIntegerSet.java:257-259 | `Long.bitCount` counts exactly the members |
| SetBits.IsEmpty | src/main/java/com/github/marschall/sets/SmallIntegerSet.java:266-268 | `bits == 0` exactly when there are no members |
| SetBits.First | src/main/java/com/github/marschall/sets/SmallIntegerSet.java:413-419 | fails with NoSuchElement exactly when empty; otherwise gives the least member |
| Jdk.LowestOneBitLeast | src/main/java/com/github/marschall/sets/SmallIntegerSet.java:413-419 | `Long.lowestOneBit` of a non-zero word keeps only the bit of its least member |
| SetBits.Last | src/main/java/com/github/marschall/sets/SmallIntegerSet.java:430-436 | fails with NoSuchElement exactly when empty; otherwise gives the greatest member |
| Jdk.HighestOneBitGreatest | src/main/java/com/github/marschall/sets/SmallIntegerSet.java:430-436 | `Long.highestOneBit` of a non-zero word keeps only the bit of its greatest member |
| SetBits.ElementsOrder | src/main/java/com/github/marschall/sets/SmallIntegerSet.java:285-292 | the ascending order used by every scan lists the members and nothing else, strictly ascending, so each appears once |
| SetBits.ElementsMembers | src/main/java/com/github/marschall/sets/SmallIntegerSet.java:312-322 | the ascending sequence has exactly `size(bits)` elements, and as a set it is the members |
| SetScans.ForEach | src/main/java/com/github/marschall/sets/SmallIntegerSet.java:285-292 | the action receives the members in ascending order |
| SetScans.ToArray | src/main/java/com/github/marschall/sets/SmallIntegerSet.java:312-322 | a new array holding exactly the members, ascending |
| SetScans.ToArrayInto | src/main/java/com/github/marschall/sets/SmallIntegerSet.java:331-349 | reuses `a` when `size <= a.length`, otherwise allocates an array of exactly `size` and leaves `a` untouched; the first `size` slots are the members, ascending; when there is room, slot `size` becomes null and later slots keep their old contents |
| SetScans.FillElements | src/main/java/com/github/marschall/sets/SmallIntegerSet.java:341-348 | the copy loop writes the members, ascending, into the first `size` slots and changes no slot from `size` on |
| SetScans.ToStringNotEmpty | src/main/java/com/github/marschall/sets/SmallIntegerSet.java:573-589 | the text is `[`, the members in ascending decimal separated by `, `, then `]` |
| SetScans.EstimateToStringSize | src/main/java/com/github/marschall/sets/SmallIntegerSet.java:591-609 | the capacity estimate is exactly the length of that text |
| Rendering.DecimalRoundTrip | src/main/java/com/github/marschall/sets/SmallIntegerSet.java:573-589 | the decimal text of every natural reads back as that number |
| SetScans.HashCode | src/main/java/com/github/marschall/sets/SmallIntegerSet.java:616-626 | the hash is the order-independent sum of the members, as for any `java.util.Set` of the same `Integer`s; it lies in 0..2016, so the `int` accumulator cannot overflow |
| SetSums.SetSumBelow | src/main/java/com/github/marschall/sets/SmallIntegerSet.java:616-626 | a set of naturals below n sums to at most n(n-1)/2, which is 2016 for n = 64 |
| SetSums.SetSumRemove | src/main/java/com/github/marschall/sets/SmallIntegerSet.java:612-614 | the sum does not depend on which member is taken first, so any iteration order gives the same hash |
| SetScans.ContainsAllNonThrowing | src/main/java/com/github/marschall/sets/SmallIntegerSet.java:474-485 | true exactly when every element of the collection is an `Integer` member; a null or non-`Integer` element gives false |
| SmallIntegerSets.SupportedPrefix | src/main/java/com/github/marschall/sets/SmallIntegerSet.java:495-501 | the number of leading elements accepted before the first unsupported one, where generic `addAll` throws |
| SmallIntegerSets.RejectedAll | src/main/java/com/github/marschall/sets/SmallIntegerSet.java:295-305 | a scan over all 64 positions removes exactly the members the filter accepts, and it removes something exactly when such a member exists |
| SmallIntegerSets.SmallIntegerSet.constructor | src/main/java/com/github/marschall/sets/SmallIntegerSet.java:186-188 | a new set is empty |
| SmallIntegerSets.SmallIntegerSet.Add | src/main/java/com/github/marschall/sets/SmallIntegerSet.java:190-195 | an unsupported element fails with IllegalArgument and changes nothing; otherwise the word becomes `values \| (1L << e)`, e is added, and the result is true exactly when e was absent |
| SmallIntegerSets.SmallIntegerSet.Remove | src/main/java/com/github/marschall/sets/SmallIntegerSet.java:197-208 | an unsupported element changes nothing; otherwise the word becomes `values & ~(1L << o)`; the contents lose o, and the result is true exactly when o was a member |
| SmallIntegerSets.SmallIntegerSet.Contains | src/main/java/com/github/marschall/sets/SmallIntegerSet.java:271-273 | membership, false for any unsupported value |
| SmallIntegerSets.SmallIntegerSet.Size | src/main/java/com/github/marschall/sets/SmallIntegerSet.java:253-255 | the number of members |
| SmallIntegerSets.SmallIntegerSet.IsEmpty | src/main/java/com/github/marschall/sets/SmallIntegerSet.java:262-264 | true exactly when there are no members |
| SmallIntegerSets.SmallIntegerSet.First | src/main/java/com/github/marschall/sets/SmallIntegerSet.java:409-411 | NoSuchElement exactly when empty; otherwise the least member |
| SmallIntegerSets.SmallIntegerSet.Last | src/main/java/com/github/marschall/sets/SmallIntegerSet.java:426-428 | NoSuchElement exactly when empty; otherwise the greatest member |
| SmallIntegerSets.SmallIntegerSet.RemoveIf | src/main/java/com/github/marschall/sets/SmallIntegerSet.java:295-305 | removes exactly the members the filter accepts; true exactly when one existed |
| SmallIntegerSets.SmallIntegerSet.ContainsAll | src/main/java/com/github/marschall/sets/SmallIntegerSet.java:449-454 | subset test against the argument, by either path |
| SmallIntegerSets.SmallIntegerSet.ContainsAllSet | src/main/java/com/github/marschall/sets/SmallIntegerSet.java:465-468 | the word test `(values & o) == o` is the subset test |
| SmallIntegerSets.SmallIntegerSet.ContainsAllGeneric | src/main/java/com/github/marschall/sets/SmallIntegerSet.java:456-463 | true exactly when every element of the collection is a member |
| SmallIntegerSets.SmallIntegerSet.AddAll | src/main/java/com/github/marschall/sets/SmallIntegerSet.java:488-493 | union with the argument; the generic path throws IllegalArgument at the first unsupported element and keeps the elements added before it; the result is true exactly when the contents changed |
| SmallIntegerSets.SmallIntegerSet.AddAllSet | src/main/java/com/github/marschall/sets/SmallIntegerSet.java:503-507 | the word becomes `w \| o`, which is the union; true exactly when the word changed |
| SmallIntegerSets.SmallIntegerSet.AddAllGeneric | src/main/java/com/github/marschall/sets/SmallIntegerSet.java:495-501 | adds the supported prefix; throws IllegalArgument exactly when an unsupported element follows it; otherwise true exactly when the contents changed |
| SmallIntegerSets.SmallIntegerSet.RetainAll | src/main/java/com/github/marschall/sets/SmallIntegerSet.java:510-515 | intersection with the argument; true exactly when the contents changed |
| SmallIntegerSets.SmallIntegerSet.RetainAllSet | src/main/java/com/github/marschall/sets/SmallIntegerSet.java:528-532 | the word becomes `w & o`, which is the intersection; true exactly when the word changed |
| SmallIntegerSets.SmallIntegerSet.RetainAllGeneric | src/main/java/com/github/marschall/sets/SmallIntegerSet.java:517-526 | the scan keeps exactly the members that occur in the collection; true exactly when something was removed |
| SmallIntegerSets.SmallIntegerSet.RemoveAll | src/main/java/com/github/marschall/sets/SmallIntegerSet.java:535-540 | difference with the argument; true exactly when the contents changed |
| SmallIntegerSets.SmallIntegerSet.RemoveAllSet | src/main/java/com/github/marschall/sets/SmallIntegerSet.java:550-554 | the word becomes `w & ~o`, which is the difference; true exactly when the word changed |
| SmallIntegerSets.SmallIntegerSet.RemoveAllGeneric | src/main/java/com/github/marschall/sets/SmallIntegerSet.java:542-548 | removes every member that occurs in the collection and ignores unsupported elements; true exactly when the contents changed |
| SmallIntegerSets.SmallIntegerSet.Clear | src/main/java/com/github/marschall/sets/SmallIntegerSet.java:557-559 | the word becomes 0 and the set is empty |
| SmallIntegerSets.SmallIntegerSet.ClearMask | src/main/java/com/github/marschall/sets/SmallIntegerSet.java:561-563 | the word becomes `values & ~mask`, which removes exactly the members of the mask |
| SmallIntegerSets.SmallIntegerSet.ToString | src/main/java/com/github/marschall/sets/SmallIntegerSet.java:566-571 | `[]` when empty, otherwise the bracketed, comma-separated ascending rendering |
| SmallIntegerSets.SmallIntegerSet.HashCode | src/main/java/com/github/marschall/sets/SmallIntegerSet.java:612-614 | the sum of the members, in 0..2016 |
| SmallIntegerSets.SmallIntegerSet.Equals | src/main/java/com/github/marschall/sets/SmallIntegerSet.java:629-648 | against another owner or a view, the contents are equal; against a foreign set, the sizes agree and every element is an `Integer` member; against a non-set, false |
| SmallIntegerSets.MirrorsIsSetEquality | src/main/java/com/github/marschall/sets/SmallIntegerSet.java:643-647 | for a foreign set without duplicates, that size-and-containment fallback is exactly set equality with the foreign set's integers, and it holds only when all its elements are `Integer`s |
| SmallIntegerSets.SmallIntegerSet.ToArray | src/main/java/com/github/marschall/sets/SmallIntegerSet.java:308-310 | a new array of the members, ascending |
| SmallIntegerSets.SmallIntegerSet.ToArrayInto | src/main/java/com/github/marschall/sets/SmallIntegerSet.java:326-328 | as `toArray(bits, a)` on the owner's word |
| SmallIntegerSets.SmallIntegerSet.ForEach | src/main/java/com/github/marschall/sets/SmallIntegerSet.java:281-283 | the action receives the members in ascending order |
| SmallIntegerSets.SmallIntegerSet.Iterator | src/main/java/com/github/marschall/sets/SmallIntegerSet.java:276-278 | a fresh iterator over this owner whose remaining sequence is the members, ascending |
| SmallIntegerSets.SmallIntegerSet.SubSet | src/main/java/com/github/marschall/sets/SmallIntegerSet.java:351-379 | gives what `SubSetRange` answers: an error, the owner, the empty set, or a new view with that mask over this owner |
| SmallIntegerSets.SmallIntegerSet.HeadSet | src/main/java/com/github/marschall/sets/SmallIntegerSet.java:381-390 | gives what `HeadSetRange` answers, as above |
| SmallIntegerSets.SmallIntegerSet.TailSet | src/main/java/com/github/marschall/sets/SmallIntegerSet.java:392-400 | gives what `TailSetRange` answers, as above |
| SmallIntegerSets.SmallIntegerSet.Materialise | src/main/java/com/github/marschall/sets/SmallIntegerSet.java:366-378 | turns a range answer into the returned object: owner, empty set, or a fresh view |
| Ranges.HeadSetRangeSpec | src/main/java/com/github/marschall/sets/SmallIntegerSet.java:381-390 | `headSet(to)` succeeds exactly when 1 <= to <= 64; the answer denotes [0, to): the owner for 64, otherwise a head view whose mask is exactly 0..to-1 |
| Ranges.TailSetRangeSpec | src/main/java/com/github/marschall/sets/SmallIntegerSet.java:392-400 | `tailSet(from)` succeeds exactly when 0 <= from <= 63; the answer denotes [from, 64): the owner for 0, otherwise a tail view with mask from..63 |
| Ranges.SubSetRangeSpec | src/main/java/com/github/marschall/sets/SmallIntegerSet.java:351-379 | `subSet(from, to)` succeeds exactly when from and to-1 are in 0..63 and from <= to; the answer denotes [from, to): the owner for (0, 64), the empty set when from == to, otherwise a view with mask from..to-1 |
| Ranges.DenotesMembers | src/main/java/com/github/marschall/sets/SmallIntegerSet.java:351-400 | the range an answer denotes holds exactly the integers in [lo, hi); the answer is the whole set, or the empty set, exactly in those cases |
| Ranges.ShapeBounds | src/main/java/com/github/marschall/sets/SmallIntegerSet.java:726-732 | a view mask for [lo, hi) is contiguous, with least bit lo and greatest bit hi-1 |
| Ranges.ViewBounds | src/main/java/com/github/marschall/sets/SmallIntegerSet.java:819-830 | `log2(lowestOneBit(mask))` and `log2(highestOneBit(mask)) + 1` recover a view's bounds |
| Ranges.ViewSubSetRangeSpec | src/main/java/com/github/marschall/sets/SmallIntegerSet.java:812-816 | `subSet` on a view over [lo, hi) succeeds exactly when from and to-1 lie in the view and from <= to, and then denotes [from, to) |
| Ranges.ViewHeadSetRangeSpec | src/main/java/com/github/marschall/sets/SmallIntegerSet.java:819-823 | `headSet(to)` on a view over [lo, hi) succeeds exactly when lo < to <= hi, and denotes [lo, to) |
| Ranges.ViewTailIsSubSet | src/main/java/com/github/marschall/sets/SmallIntegerSet.java:826-830 | on a head or bounded view over [lo, hi), the bound `log2(highestOneBit(mask)) + 1` is hi, so `tailSet(from)` is the view's own `subSet(from, hi)` for every from |
| Ranges.ViewTailSetRangeSpec | src/main/java/com/github/marschall/sets/SmallIntegerSet.java:826-830 | `tailSet(from)` on a view over [lo, hi) succeeds exactly when lo <= from < hi, and denotes [from, hi) |
| Ranges.NestedSubSetBounds | src/main/java/com/github/marschall/sets/SmallIntegerSet.java:812-816 | `subSet(1, 3).subSet(2, 3)` is a view whose mask holds 2 and not 0, 1 or 3 |
| SmallIntegerSets.SubSetView.constructor | src/main/java/com/github/marschall/sets/SmallIntegerSet.java:730-732 | a view stores its owner and its contiguous mask |
| SmallIntegerSets.SubSetView.Bits | src/main/java/com/github/marschall/sets/SmallIntegerSet.java:739-741 | `values & mask` read from the live owner: the view's members are the owner's members inside the mask |
| SmallIntegerSets.SubSetView.Add | src/main/java/com/github/marschall/sets/SmallIntegerSet.java:763-772 | fails with IllegalArgument and leaves the owner alone unless e is in the mask, even when e is in 0..63; otherwise adds e to the owner and reports whether it was absent |
| SmallIntegerSets.SubSetView.Remove | src/main/java/com/github/marschall/sets/SmallIntegerSet.java:775-780 | outside the mask, false and the owner is unchanged; inside it, removes o from the owner and reports whether it was present |
| SmallIntegerSets.SubSetView.Clear | src/main/java/com/github/marschall/sets/SmallIntegerSet.java:788-790 | removes exactly the owner's members inside the mask; everything else stays |
| SmallIntegerSets.SubSetView.Contains | src/main/java/com/github/marschall/sets/SmallIntegerSet.java:833-835 | member of the owner and inside the mask |
| SmallIntegerSets.SubSetView.Size | src/main/java/com/github/marschall/sets/SmallIntegerSet.java:758-760 | the number of the view's members |
| SmallIntegerSets.SubSetView.IsEmpty | src/main/java/com/github/marschall/sets/SmallIntegerSet.java:783-785 | true exactly when the view has no members |
| SmallIntegerSets.SubSetView.First | src/main/java/com/github/marschall/sets/SmallIntegerSet.java:748-750 | NoSuchElement exactly when the view is empty; otherwise its least member |
| SmallIntegerSets.SubSetView.Last | src/main/java/com/github/marschall/sets/SmallIntegerSet.java:753-755 | NoSuchElement exactly when the view is empty; otherwise its greatest member |
| SmallIntegerSets.SubSetView.ToString | src/main/java/com/github/marschall/sets/SmallIntegerSet.java:793-799 | `[]` when empty, otherwise the ascending rendering of the view's members |
| SmallIntegerSets.SubSetView.ToArray | src/main/java/com/github/marschall/sets/SmallIntegerSet.java:802-804 | a new array of the view's members, ascending |
| SmallIntegerSets.SubSetView.ToArrayInto | src/main/java/com/github/marschall/sets/SmallIntegerSet.java:807-809 | as `toArray(bits, a)` on `bits()` |
| SmallIntegerSets.SubSetView.HashCode | src/main/java/com/github/marschall/sets/SmallIntegerSet.java:838-840 | the sum of the view's members, in 0..2016 |
| SmallIntegerSets.SubSetView.ForEach | src/main/java/com/github/marschall/sets/SmallIntegerSet.java:875-877 | the action receives the view's members, ascending |
| SmallIntegerSets.SubSetView.Equals | src/main/java/com/github/marschall/sets/SmallIntegerSet.java:843-863 | as for the owner, but on the view's members |
| SmallIntegerSets.SubSetView.SubSet | src/main/java/com/github/marschall/sets/SmallIntegerSet.java:812-816 | gives what `ViewSubSetRange` answers, over the same owner |
| SmallIntegerSets.SubSetView.HeadSet | src/main/java/com/github/marschall/sets/SmallIntegerSet.java:819-823 | gives what `ViewHeadSetRange` answers: the lower bound comes from the view's lowest mask bit, and a head view checks the bound and delegates to the owner's `headSet` |
| SmallIntegerSets.SubSetView.TailSet | src/main/java/com/github/marschall/sets/SmallIntegerSet.java:826-830 | gives what `ViewTailSetRange` answers: the upper bound comes from the view's highest mask bit, and a tail view checks the bound and delegates to the owner's `tailSet` |
| SmallIntegerSets.SmallIntegerSetIterator.constructor | src/main/java/com/github/marschall/sets/SmallIntegerSet.java:676-678 | the cursor starts at the least member, so the remaining sequence is all members, ascending |
| SmallIntegerSets.SmallIntegerSetIterator.FindNextIndex | src/main/java/com/github/marschall/sets/SmallIntegerSet.java:680-687 | the least member at or after `initial`, or END when there is none |
| SmallIntegerSets.SmallIntegerSetIterator.HasNext | src/main/java/com/github/marschall/sets/SmallIntegerSet.java:690-692 | true exactly when something remains |
| SmallIntegerSets.SmallIntegerSetIterator.Next | src/main/java/com/github/marschall/sets/SmallIntegerSet.java:695-702 | NoSuchElement once exhausted; otherwise yields the head of the remaining sequence, and the rest remains |
| SmallIntegerSets.SmallIntegerSetIterator.ForEachRemaining | src/main/java/com/github/marschall/sets/SmallIntegerSet.java:711-722 | the action receives the members from the cursor on, ascending; then the cursor is END and `hasNext` is false |
| SmallIntegerSets.IterateAll | src/main/java/com/github/marschall/sets/SmallIntegerSet.java:664-702 | driving a fresh iterator with `hasNext` and `next` yields exactly the members, ascending |
| SmallIntegerSets.BulkPathsAgree | src/main/java/com/github/marschall/sets/SmallIntegerSet.java:449-554 | given the members of another set as a plain collection, the generic paths of `addAll`, `retainAll` and `removeAll` refuse nothing, and they leave the same word as the word paths `w \| o`, `w & o` and `w & ~o`; the two `containsAll` paths agree |
| SmallIntegerSets.AddTwice | src/main/java/com/github/marschall/sets/SmallIntegerSet.java:439-441 | a repeated `add` of the same element returns false, and the size grows at most once; an unsupported element is refused both times |
| SmallIntegerSets.NestedViewAdds | src/main/java/com/github/marschall/sets/SmallIntegerSet.java:763-772 | on `subSet(1, 3).subSet(2, 3)` of an empty set, `add(3)` and `add(0)` fail with IllegalArgument, and `add(2)` succeeds |

## Left out

- `Iterator.remove`, and with it removal through the iterator, is left out. It falls back to the interface default, which throws `UnsupportedOperationException`.
- `SmallIntegerSets.SmallIntegerSetIterator.Next`: yields the cursor position without checking it. If the owner dropped that element after the cursor reached it, the model still yields it, as the source does. `Remaining` therefore describes what is yielded only while the owner is unchanged.
- `clone` and `Serializable` are JVM object mechanics.
- `comparator()` returns null (natural ordering), which has no content to model.
- `toArray(T[])` creates its new array through `Array.newInstance` with the component type of `a`. The model always uses `Option<int>` slots, so element typing and `ArrayStoreException` are not modelled.
- The `(Integer)` casts of `contains` and `remove` can throw `ClassCastException` or `NullPointerException`. Element arguments are plain integers here.
- Exceptions raised inside a `Consumer` or `Predicate` callback are not modelled.
  - Callbacks are pure functions or output sequences.
  - So the state a throwing callback would leave behind (the cursor of `forEachRemaining`, the bits already removed by `removeIf`) is not modelled.
- Java `int` arguments are unbounded integers.
  - The `toElement - 1` of `subSet` and `headSet` cannot wrap at `Integer.MIN_VALUE`.
  - The model cannot produce that overflow, which would in any case be rejected by the same range check.
- A foreign collection is a sequence of its elements in its own iteration order. A foreign `Set` in `equals` is assumed to list each element once (`Distinct`).
- `Collections.emptyNavigableSet()` is modelled only as the result `EmptySetRef`. The methods of that JDK set are not modelled.
- `Jdk.HighestOneBit`: `Long.highestOneBit` is defined by its documented result, the largest power of two not above the word. The JDK computes it through `numberOfLeadingZeros`, and that route is not modelled.
- `SetScans.ToStringNotEmpty`: the `StringBuilder` capacity hint has no effect on the text. Its value is `EstimateToStringSize`, which is modelled separately.
- The view classes define no `iterator`, `containsAll`, `addAll`, `retainAll` or `removeAll` of their own, so none are modelled.
- These are not part of this model:
  - `ClosedHashSet` and `ArraySet` (test-side experiments and benchmark fixtures);
  - the benchmarks;
  - the JUnit tests and `Lists`.
