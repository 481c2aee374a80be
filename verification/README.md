# MyArrayList in Dafny

A model of `MyArrayList<E>`, the hand-written growable array list of the
Kipokape/myArrayList repository, and proofs about it. The model covers:

- its storage: an `Object[] elementData` of some capacity, a `size`, and the two shared empty arrays;
- its growth policy;
- the positional operations add, add(int, E), get, set, remove(int), remove(Object) and clear;
- search: indexOf, contains and containsAll;
- the bulk operations addAll, addAll(int, Collection), toArray and toArray(T[]);
- the recursive Hoare-partition quicksort behind sort(Comparator);
- the list iterator, together with removeAll and retainAll, which are built on it.

The model is functional:

- A list state is the immutable value `MyList(data, size, deferred)`.
  - `data` is the backing array as a sequence of slots, each `Null` or `Obj(e)`.
  - `deferred` records whether the array is DEFAULT_CAPACITY_EMPTY_ELEMENT_DATA. The source tells the two empty arrays apart only by identity.
- Every operation that can throw returns the new state with an outcome, `Ok(value)` or `Throw(exception)`, so the exceptions the Java code throws are results that the contracts describe.
- `Valid` is the representation invariant. `Contents` is the abstract value: the live prefix `elementData[0..size)`.

The model reproduces the code as written, including several behaviours a reader might not expect:

- Growth (`grow(int)`) honours the requested minimum only in the deferred-default state. Every other array grows to `old + old / 2`.
  - An array of length 0 (from `new MyArrayList<>(0)`) or 1 therefore never gains room.
  - The following copy or store then throws ArrayIndexOutOfBoundsException.
  - `Storage.GrowStuck` and `Scenarios.SmallCapacityStuck` prove this. The javadoc of `grow` (MyArrayList.java lines 173-180) says it enlarges the array to hold at least `minCapacity` elements; the model follows the code, not that comment.
- `indexOf(null)` is always -1.
- `remove(Object)` scans the whole backing array, not only the live prefix:
  - it meets a null slot past the live prefix and throws NullPointerException;
  - it meets a stale copy of the element that remove(int) left behind, and throws IndexOutOfBoundsException.
- `remove(int)` leaves the vacated slot past the new size holding the element that was last.
- `addAll(int, Collection)` checks its index against `[0, size)`, so inserting at `size` is rejected and every call on an empty list throws.
- `containsAll` of an empty collection is false on a non-empty list.
- The iterator's `hasNext` is `cursor != size`.

The module layout follows the class:

| module | file | covers |
|---|---|---|
| Outcomes | outcomes.dfy | exception kinds and `Result` |
| Storage | storage.dfy | fields, constructors, System.arraycopy, grow |
| Positional | positional.dfy | add, add(int, E), get, set, remove(int), remove(Object), clear |
| Search | search.dfy | isEmpty, indexOf, contains, containsAll |
| Bulk | bulk.dfy | addAll, addAll(int, Collection), toArray, toArray(T[]) |
| QuickSort | quicksort.dfy | sort and quickSort |
| ListIterator | list_iterator.dfy | the inner ListIterator class |
| BatchRemove | batch_remove.dfy | removeAll, retainAll |
| Scenarios | scenarios.dfy | the repository's tests replayed on the model, and small worked examples |

`size()` is the `size` field of the state and needs no operation of its own.

## Model

| member | source | states |
|---|---|---|
| Storage.Contents | src/main/java/org/example/MyArrayList.java:39-47 | the abstract list has `size` elements, and element i is what slot i of elementData refers to |
| Storage.ContentsOfSlots | src/main/java/org/example/MyArrayList.java:39-47 | any array whose first `size` slots refer to the elements of s is a valid state whose contents are s |
| Storage.Wrap | src/main/java/org/example/MyArrayList.java:72-73 | c.toArray() has one non-null slot per element of c, in order |
| Storage.Nulls | src/main/java/org/example/MyArrayList.java:55-57 | a fresh Java array of length n holds only nulls |
| Storage.Blit | src/main/java/org/example/MyArrayList.java:289 | the in-bounds System.arraycopy yields an array of the destination's length (which slot holds what is stated by Storage.BlitSlots) |
| Storage.BlitSlots | src/main/java/org/example/MyArrayList.java:289 | an in-bounds System.arraycopy replaces exactly the length slots from destPos by the source slots from srcPos and keeps all others, overlapping ranges included |
| Storage.ArrayCopy | src/main/java/org/example/MyArrayList.java:289 | System.arraycopy succeeds iff both ranges lie inside their arrays and no position or length is negative, otherwise throws ArrayIndexOutOfBoundsException |
| Storage.Default | src/main/java/org/example/MyArrayList.java:90-92 | MyArrayList() is empty, has capacity 0, and is in the deferred-default state |
| Storage.WithCapacity | src/main/java/org/example/MyArrayList.java:55-64 | MyArrayList(int) throws IllegalArgumentException iff the capacity is negative, and otherwise is empty with exactly that capacity |
| Storage.FromCollection | src/main/java/org/example/MyArrayList.java:72-83 | MyArrayList(Collection) holds the elements of c in order, with capacity exactly \|c\| |
| Storage.Grow | src/main/java/org/example/MyArrayList.java:181-191 | growth keeps the contents and every old slot and pads with nulls; the deferred-default array becomes max(10, minCapacity), any other becomes old + old/2 |
| Storage.GrowMakesRoom | src/main/java/org/example/MyArrayList.java:181-191 | growth enlarges the array iff it is deferred-default or has at least two slots |
| Storage.GrowStuck | src/main/java/org/example/MyArrayList.java:183-186 | a non-deferred array of length 0 or 1 is left exactly as it was by growth |
| Storage.GrowDeferredHonoursMinimum | src/main/java/org/example/MyArrayList.java:187-189 | from the deferred-default state growth reaches at least minCapacity and at least DEFAULT_CAPACITY |
| Positional.GrownForOne | src/main/java/org/example/MyArrayList.java:210-212 | the array add writes into keeps the contents, and has a free slot iff the room condition holds; otherwise growth changed nothing; the grown array starts with every old slot |
| Positional.Add | src/main/java/org/example/MyArrayList.java:209-216 | add(E) succeeds with true iff there is room after growth, appending e; otherwise throws ArrayIndexOutOfBoundsException and leaves the list unchanged; capacity never shrinks, and the spare slots past the new element keep their old values |
| Positional.Insert | src/main/java/org/example/MyArrayList.java:283-292 | add(int, E) throws IndexOutOfBoundsException outside [0, size]; inside it inserts e before index, or throws ArrayIndexOutOfBoundsException when growth found no room; a throw leaves the list unchanged; capacity never shrinks, and the spare slots past the new size keep their old values |
| Positional.InBounds | src/main/java/org/example/MyArrayList.java:303 | Objects.checkIndex(index, size) accepts exactly the indices of live elements, and such an index names a slot holding its element |
| Positional.InsertShiftSlots | src/main/java/org/example/MyArrayList.java:289-290 | shifting the tail up one slot and storing e at index gives the contents with e inserted at index |
| Positional.Get | src/main/java/org/example/MyArrayList.java:302-305 | get succeeds iff 0 <= index < size, returning that element, and throws IndexOutOfBoundsException otherwise |
| Positional.Set | src/main/java/org/example/MyArrayList.java:360-365 | set succeeds iff the index is in range, returns the old element and replaces only that one; otherwise throws IndexOutOfBoundsException and changes nothing |
| Positional.RemoveAt | src/main/java/org/example/MyArrayList.java:314-320 | remove(int) succeeds iff the index is in range, returns the element and closes the gap; the slot just past the new size keeps the old last element; otherwise throws and changes nothing |
| Positional.RemoveShiftSlots | src/main/java/org/example/MyArrayList.java:317-318 | shifting the slots after index down by one deletes element index and leaves the old last slot as it was |
| Positional.ScanSlots | src/main/java/org/example/MyArrayList.java:333-338 | the scan of remove(Object) stops at the first null slot or the first slot equal to o over the whole array, or passes all of it |
| Positional.RemoveObject | src/main/java/org/example/MyArrayList.java:330-340 | remove(Object) of a present element deletes its first occurrence and answers true; capacity and the deferred flag are kept; for an absent one the list is unchanged, the answer is false exactly when no slot of the whole array is null or a copy of o, and when the first spare slot is null it throws NullPointerException, when it is a stale copy of o IndexOutOfBoundsException (the spare slots this depends on are not fixed after removeAll or retainAll) |
| Positional.Clear | src/main/java/org/example/MyArrayList.java:346-350 | clear empties the list, nulls the old live slots, and keeps capacity, the spare slots and the deferred flag |
| Positional.ClearIdempotent | src/main/java/org/example/MyArrayList.java:346-350 | clearing twice is clearing once |
| Positional.SetThenGet | src/main/java/org/example/MyArrayList.java:302-305 | after set(i, v), get(i) returns v and every other index returns what it returned before |
| Positional.AddThenGetLast | src/main/java/org/example/MyArrayList.java:209-216 | a successful add(e) grows size by one and get(old size) returns e |
| Positional.InsertThenRemoveAt | src/main/java/org/example/MyArrayList.java:283-292 | remove(i) right after a successful add(i, e) returns e and restores the contents |
| Search.IsEmpty | src/main/java/org/example/MyArrayList.java:110-112 | isEmpty holds iff the list has no elements |
| Search.IndexOfRange | src/main/java/org/example/MyArrayList.java:145-160 | the range search returns -1 for null, otherwise the first position in [start, end) holding o, or -1 when there is none |
| Search.IndexOf | src/main/java/org/example/MyArrayList.java:132-134 | indexOf returns the position of the first occurrence of a non-null o, and -1 iff o is null or absent |
| Search.Contains | src/main/java/org/example/MyArrayList.java:121-123 | contains holds iff o is non-null and an element of the list |
| Search.ContainsIffIndexOfFound | src/main/java/org/example/MyArrayList.java:121-134 | contains holds exactly when indexOf returns a position, and never for null |
| Search.AllContained | src/main/java/org/example/MyArrayList.java:230-232 | the loop of containsAll holds iff every remaining element of c is non-null and in the list |
| Search.ContainsAll | src/main/java/org/example/MyArrayList.java:227-234 | containsAll holds iff every element of c is contained and, when c is empty, the list is empty too |
| Search.ContainsAllOfItself | src/main/java/org/example/MyArrayList.java:227-234 | a list contains all of its own toArray() |
| Bulk.GrownFor | src/main/java/org/example/MyArrayList.java:423-424 | the array both addAll forms write into keeps the contents, and fits the batch iff the room condition holds; otherwise it is old + old/2 long; the grown array starts with every old slot |
| Bulk.AddAll | src/main/java/org/example/MyArrayList.java:418-428 | addAll of an empty batch answers false and changes nothing; otherwise it appends c and answers true iff growth made room, and else throws ArrayIndexOutOfBoundsException with the contents unchanged; capacity never shrinks, and the spare slots past the new size keep their old values |
| Bulk.AppendSlots | src/main/java/org/example/MyArrayList.java:425-426 | copying the batch right after the live prefix gives the contents followed by c |
| Bulk.AddAllAt | src/main/java/org/example/MyArrayList.java:441-456 | addAll(int, c) throws IndexOutOfBoundsException unless 0 <= index < size; an empty batch answers false; otherwise it inserts c before index, or throws ArrayIndexOutOfBoundsException when growth found no room; capacity never shrinks, and the spare slots past the new size keep their old values |
| Bulk.InsertBatch | src/main/java/org/example/MyArrayList.java:445-455 | past the index check, the batch is inserted before index iff growth made room; capacity never shrinks, and the spare slots past the new size keep their old values |
| Bulk.BatchInsertSlots | src/main/java/org/example/MyArrayList.java:450-454 | moving the tail up by \|c\| and copying c into the gap gives head + c + tail |
| Bulk.ToArray | src/main/java/org/example/MyArrayList.java:463-465 | toArray() returns exactly the elements, in order |
| Bulk.ToArrayInto | src/main/java/org/example/MyArrayList.java:481-488 | toArray(T[]) returns a new array of the elements when a is too short; otherwise a with the elements at the front, a null just past them when a is longer, and the rest of a kept |
| QuickSort.ScanUp | src/main/java/org/example/MyArrayList.java:393 | the upward scan stops at the first slot not ordered strictly below the pivot |
| QuickSort.ScanDown | src/main/java/org/example/MyArrayList.java:394 | the downward scan stops at the first slot not ordered strictly above the pivot |
| QuickSort.PartitionLoop | src/main/java/org/example/MyArrayList.java:392-402 | the partition loop permutes only [low, high] and stops with the pointers crossed, everything below i ordered <= pivot and everything above j ordered >= pivot |
| QuickSort.SwapKeepsInv | src/main/java/org/example/MyArrayList.java:395-401 | one swap-and-advance step keeps the partition invariant and the multiset |
| QuickSort.QuickSortRange | src/main/java/org/example/MyArrayList.java:384-406 | quickSort(low, high) permutes only the slots in [low, high] and leaves them sorted by the comparator |
| QuickSort.Sort | src/main/java/org/example/MyArrayList.java:372-374 | sort keeps size, capacity and spare slots, permutes the elements, and leaves them sorted; a list of at most one element is unchanged |
| QuickSort.WithContents | src/main/java/org/example/MyArrayList.java:372-374 | the list whose live slots are replaced by s has contents s and keeps everything else |
| QuickSort.SortedAllPairs | src/main/java/org/example/MyArrayList.java:372-374 | in a list sorted by a total preorder, every earlier element is ordered <= every later one |
| ListIterator.Start | src/main/java/org/example/MyArrayList.java:508-517 | a new iterator sits before the first element with no last-returned index |
| ListIterator.HasNext | src/main/java/org/example/MyArrayList.java:525-527 | for a cursor inside the list hasNext answers whether next succeeds; past the end it answers true while next throws |
| ListIterator.HasPrevious | src/main/java/org/example/MyArrayList.java:554-556 | for a cursor inside the list hasPrevious answers whether previous succeeds |
| ListIterator.NextIndex | src/main/java/org/example/MyArrayList.java:582-584 | nextIndex is always previousIndex + 1 |
| ListIterator.PreviousIndex | src/main/java/org/example/MyArrayList.java:592-594 | previousIndex is -1 at the start of the list |
| ListIterator.Next | src/main/java/org/example/MyArrayList.java:536-546 | next succeeds iff the cursor is on an element, returning it and moving past it; otherwise throws NoSuchElementException |
| ListIterator.Previous | src/main/java/org/example/MyArrayList.java:565-574 | previous succeeds iff an element precedes the cursor, returning it and moving back; otherwise throws NoSuchElementException |
| ListIterator.Remove | src/main/java/org/example/MyArrayList.java:605-616 | remove throws IllegalStateException with no last-returned index, ConcurrentModificationException when it is stale, and otherwise deletes that element and moves the cursor back when it was behind it; capacity and the deferred flag are kept |
| ListIterator.Set | src/main/java/org/example/MyArrayList.java:628-636 | set throws IllegalStateException or ConcurrentModificationException as remove does, and otherwise replaces only the last returned element; capacity and the deferred flag are kept |
| ListIterator.Add | src/main/java/org/example/MyArrayList.java:646-655 | add inserts at the cursor and moves past the new element iff the insertion succeeds; every failure becomes ConcurrentModificationException with nothing changed; capacity never shrinks |
| ListIterator.DrainVisitsRest | src/main/java/org/example/MyArrayList.java:525-546 | calling next while hasNext yields exactly the elements from the cursor on |
| ListIterator.TraversalVisitsAll | src/main/java/org/example/MyArrayList.java:168-171 | a full traversal from iterator() yields the contents in order and then ends |
| ListIterator.HasNextPastEnd | src/main/java/org/example/MyArrayList.java:525-527 | a cursor past size still has a next by `!=`, and next then throws NoSuchElementException |
| ListIterator.IndicesMatchElements | src/main/java/org/example/MyArrayList.java:582-594 | nextIndex and previousIndex name the elements next and previous return, and previous undoes next |
| ListIterator.NextThenRemove | src/main/java/org/example/MyArrayList.java:605-616 | remove after next deletes the returned element, and a second remove throws IllegalStateException |
| ListIterator.AddThenPrevious | src/main/java/org/example/MyArrayList.java:646-655 | after add(e), previous returns e while remove and set throw IllegalStateException |
| ListIterator.StaleLastRet | src/main/java/org/example/MyArrayList.java:608-614 | after the list shrinks under the iterator, remove and set throw ConcurrentModificationException and change nothing |
| BatchRemove.FilterMembers | src/main/java/org/example/MyArrayList.java:244-255 | the filter keeps exactly the elements whose membership in c equals keep, and keeps all iff all of them pass |
| BatchRemove.FilterShortensIffDrops | src/main/java/org/example/MyArrayList.java:244-255 | the filter drops something iff some element fails it |
| BatchRemove.Visit | src/main/java/org/example/MyArrayList.java:248-253 | one loop turn removes the element at the cursor iff its membership in c differs from keep, and reports it; capacity and the deferred flag are kept |
| BatchRemove.FilterByIterator | src/main/java/org/example/MyArrayList.java:244-255 | the iterator loop leaves exactly the filter of the contents, and reports a change iff some element failed it; capacity and the deferred flag are kept |
| BatchRemove.RemoveAll | src/main/java/org/example/MyArrayList.java:244-255 | removeAll keeps, in order, exactly the elements not in c, and answers true iff some element was in c; capacity and the deferred flag are kept |
| BatchRemove.RetainAll | src/main/java/org/example/MyArrayList.java:263-274 | retainAll keeps, in order, exactly the elements in c, and answers true iff some element was not in c; capacity and the deferred flag are kept |
| BatchRemove.RemoveAllThenAdd | src/main/java/org/example/MyArrayList.java:244-255 | removeAll keeps the backing array, so a list with room for one more element before removeAll takes add(e) after it, ending with the survivors followed by e |
| BatchRemove.FiltersPartition | src/main/java/org/example/MyArrayList.java:244-274 | removeAll and retainAll with the same c split the elements between them |
| BatchRemove.FilterIdempotent | src/main/java/org/example/MyArrayList.java:244-274 | a second removeAll or retainAll with the same c removes nothing |
| BatchRemove.FilterKeepsAll | src/main/java/org/example/MyArrayList.java:244-274 | when every element passes, the filter is the identity |
| Scenarios.ComparatorsArePreorders | src/main/java/org/example/person/comparators/PersonAgeComparator.java:21-23 | comparing by age, and comparing integers, are total preorders |
| Scenarios.FiveValueTrace | src/main/java/org/example/MyArrayList.java:384-406 | quickSort of five values ordered like 20, 18, 20, 21, 19 produces the second, fifth, third, first, fourth |
| Scenarios.FirstPartition | src/main/java/org/example/MyArrayList.java:392-402 | the first partition of that array swaps the ends and stops with the pointers at 3 and 1 |
| Scenarios.PairSwapped | src/main/java/org/example/MyArrayList.java:384-406 | quickSort of an inverted pair swaps it |
| Scenarios.SortByAgeReplay | src/test/java/org/example/MyArrayListTest.java:207-216 | sorting persons aged 20, 18, 20, 21, 19 by age gives persons 2, 5, 3, 1, 4, the order the test asserts |
| Scenarios.SortIntegersExample | src/main/java/org/example/MyArrayList.java:372-374 | sorting 20, 18, 20, 21, 19 ascending gives 18, 19, 20, 20, 21 |
| Scenarios.AddFindRemoveExample | src/main/java/org/example/MyArrayList.java:209-216 | adding 18, 19, 20 to a default list, indexOf(19) is 1 and remove(19) answers true, leaving 18, 20 |
| Scenarios.FindRemoveMiddle | src/main/java/org/example/MyArrayList.java:330-340 | on a list holding 18, 19, 20, remove(19) deletes the middle element |
| Scenarios.RemoveAbsentScansOn | src/main/java/org/example/MyArrayList.java:333-338 | remove(5) on live prefix [2] scans past a stale 2 and throws at a later null, and answers false on a two-slot array holding no null |
| Scenarios.AddAllThenToArrayReplay | src/test/java/org/example/MyArrayListTest.java:265-271 | addAll of a non-empty list into a default list, or into one of capacity 6 when it fits, answers true and gives the same toArray() |
| Scenarios.AddAllAtOnEmptyReplay | src/test/java/org/example/MyArrayListTest.java:273-286 | on an empty list addAll(index, c) throws IndexOutOfBoundsException for every index, 0 included |
| Scenarios.SmallCapacityStuck | src/main/java/org/example/MyArrayList.java:55-64 | a list made with capacity 0 cannot take one element, and one made with capacity 1 cannot take a second |

## Left out

- Null elements: the element type has no null, so `add(null)`, `set(i, null)` and a null argument collection or array cannot be expressed. Not modelled: the NullPointerExceptions of `requireNonNull` in containsAll, removeAll and retainAll (lines 228, 245, 264); `c.toArray()` on a null collection in MyArrayList(Collection) and both addAll forms (lines 73, 419, 444); `a.length` on a null array in toArray(T[]) (line 482); and `remove(null)` (line 331), since `Positional.RemoveObject` takes a non-null `o`. Null slots of the backing array are modelled, and so is the NullPointerException that remove(Object) raises on one. indexOf and contains take a `Ref`, so a null query is modelled and gives -1.
- The `c.getClass() == ArrayList.class` branch of MyArrayList(Collection) (lines 75-76) adopts the array that `c.toArray()` returned (line 73) instead of copying it a second time. That array is already a fresh copy, so the two branches give equal lists, and `Storage.FromCollection` covers both.
- toArray(T[]) allocates the new array through reflection on `a.getClass()`. The model returns a plain copy of the live prefix, and the runtime element type is not modelled.
- Java `int` overflow of size and capacity arithmetic, and OutOfMemoryError: integers are unbounded.
- Element equality: Java's `equals` is Dafny's `==` on the element type, so it is taken to be an equivalence that agrees with the comparator. An asymmetric `equals` is not modelled: under one, indexOf, contains and containsAll (`o.equals(elementData[i])`, line 154) and remove(Object) (`elementData[i].equals(o)`, line 334) can pick different elements. Neither are two elements that `equals` identifies but the comparator tells apart.
- BatchRemove.RemoveAll: the slots from the new size onward are left unspecified. The contract fixes the contents, the capacity and the deferred flag, but not the stale copies that the shifts of remove(int) leave past the live prefix. So what a later remove(Object) of an absent element does on the result is not determined by the model.
- BatchRemove.RetainAll: the slots from the new size onward are left unspecified, for the same reason as removeAll.
- Comparators that are not total preorders: sort requires one. A comparator that breaks transitivity or antisymmetry may make the Java scans run off the array, and that is not modelled.
- The PersonSexComparator sort test: the Person class and its Sex enum are reduced to an age and a tag. Person is otherwise not part of this model.
- The large-input sort tests (MyArrayListTest.java lines 231-263): they sort `java.util.ArrayList` instances (lines 20-21), not MyArrayList, so they say nothing about this sort.
- Conformance to the `Collection` interface the class implements (line 21) and to the `Iterator` and `ListIterator` interfaces of its iterator (line 497): `iterator()` is modelled as a fresh `Iter` state, and inherited default methods are not modelled.
- The argument collections of containsAll, addAll, removeAll and retainAll are given by their elements. Their own `contains`, `toArray` and iteration are membership and order of that sequence.
- Concurrent modification is detected only through stale indices, as the source does. There is no modification count.
