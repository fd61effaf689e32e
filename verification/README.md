# DynamicArray in Dafny

A model of `DynamicArray`, a growable array-backed list of objects, together
with its forward and reverse iterators. The container owns a buffer of slots
(`array`) and a count of the slots in use (`size`). Elements occupy slots
`[0, size)`, and every slot from `size` on is `null`. When an insertion would
overflow the buffer, the buffer is copied into one of
`max(needed, 2 * capacity)` slots.

The model works on values:

- `DynArray<T>(buffer: seq<Option<T>>, size: int)` is the container.
  `None` is a `null` slot.
- `Valid()` is the class invariant above. `Contents()` is the list of
  elements the container holds, and every contract is stated in terms of it.
- A mutating call returns the container it leaves behind.
- A call that throws returns `Err` with the exception's kind:
  `IllegalArgument`, `IndexOutOfBounds`, `NoSuchElement` or `IllegalState`.
- The Java library calls are modelled by helper functions:
  `ArrayCopy` for `System.arraycopy`, `CopyOf` for `Arrays.copyOf`, and `Fill`
  for `Arrays.fill`.
- The source's loops are methods with loop invariants: `indexOf`,
  `lastIndexOf`, and the `for`/`while` pair of `removeAll`.
- A cursor is the pair `Cursor(cursor, lastRet)`. Each step receives the
  container the cursor walks.

Files:

- `wrappers.dfy`: `Option`, `Result`, `Outcome` and `Error`.
- `sequences.dfy`: the reference meaning of each operation on a plain
  sequence. This covers `InsertAt`, `DeleteAt`, `IsFirstIndex`,
  `IsLastIndex`, `RemoveFirst`, `Without` (the filter `removeAll` computes)
  and `Reverse`, plus lemmas about them.
- `dynamic_array.dfy`: the container and its operations.
- `iterators.dfy`: the forward and reverse cursors.
- `properties.dfy`: properties that span several operations. These are
  traversal and draining through the cursors, inverse pairs, and batch versus
  one-by-one append.

## Model

| member | source | states |
|---|---|---|
| DynamicArrays.New | src/pack/DynamicArray.java:16-21 | a capacity of 0 or less throws IllegalArgument; any other capacity gives an empty, valid container with exactly that capacity |
| DynamicArrays.NewDefault | src/pack/DynamicArray.java:10-14 | the no-argument constructor gives an empty, valid container of capacity 10 |
| DynamicArrays.EnsureCapacity | src/pack/DynamicArray.java:126-131 | afterwards the capacity is at least the requested minimum and never smaller than before; when it grows it becomes exactly max(minimum, 2 * old capacity); otherwise the container is untouched; contents, size and the empty-tail invariant survive the copy |
| DynamicArrays.CheckIndex | src/pack/DynamicArray.java:133-137 | accepts exactly the positions of present elements, [0, size); every other index is IndexOutOfBounds |
| DynamicArrays.CheckIndexForAdd | src/pack/DynamicArray.java:139-143 | accepts exactly [0, size], which includes the end position; every other index is IndexOutOfBounds |
| DynamicArrays.Add | src/pack/DynamicArray.java:23-26 | the contents become the old contents followed by the element; the invariant holds and the capacity does not shrink |
| DynamicArrays.AddAll | src/pack/DynamicArray.java:28-32 | the contents become the old contents followed by all given elements in order; the capacity is checked once for the whole batch, so it stays put when the batch fits and otherwise becomes max(size + count, 2 * capacity) |
| DynamicArrays.Insert | src/pack/DynamicArray.java:34-40 | an index outside [0, size] throws IndexOutOfBounds; otherwise the contents become old[..i] + [e] + old[i..]; inserting at size gives exactly the container `add` gives |
| DynamicArrays.Get | src/pack/DynamicArray.java:42-45 | an index outside [0, size) throws IndexOutOfBounds; otherwise the result is the element at that position |
| DynamicArrays.Set | src/pack/DynamicArray.java:47-52 | an index outside [0, size) throws IndexOutOfBounds; otherwise the previous element is returned, the contents become old[i := e], and size and capacity are unchanged |
| DynamicArrays.RemoveAt | src/pack/DynamicArray.java:54-58 | an index outside [0, size) throws IndexOutOfBounds; otherwise the contents become old[..i] + old[i+1..], the slot at the old size - 1 becomes empty, and the capacity is unchanged |
| DynamicArrays.ArrayCopy | src/pack/DynamicArray.java:37 | the copied range of the destination holds the source range and every other slot keeps its value, even when source and destination are the same buffer |
| DynamicArrays.CopyOf | src/pack/DynamicArray.java:129 | the new buffer has the requested length, keeps every slot of the old buffer that fits, and pads the rest with empty slots |
| DynamicArrays.Fill | src/pack/DynamicArray.java:102 | exactly the slots in the given range take the fill value; every slot outside it keeps its value |
| DynamicArrays.IndexOf | src/pack/DynamicArray.java:83-90 | the result is the least position holding the value, or -1 exactly when the value is absent |
| DynamicArrays.LastIndexOf | src/pack/DynamicArray.java:92-99 | the result is the greatest position holding the value, or -1 exactly when the value is absent |
| DynamicArrays.Contains | src/pack/DynamicArray.java:79-81 | true exactly when the value occurs in the contents |
| DynamicArrays.RemoveValue | src/pack/DynamicArray.java:60-67 | reports true exactly when the value occurs; the contents lose exactly its first occurrence; when it is absent the container is unchanged |
| DynamicArrays.Purge | src/pack/DynamicArray.java:72-74 | removing by value until that fails takes out every occurrence, keeps the order of the rest, and reports whether anything was removed |
| DynamicArrays.RemoveAll | src/pack/DynamicArray.java:69-77 | the survivors are the old contents filtered by "not named", in their original order; no named value remains; the result is true exactly when some named value was present; the capacity is unchanged |
| DynamicArrays.Clear | src/pack/DynamicArray.java:101-104 | the container becomes empty and valid, with the used slots emptied and the capacity kept; on an empty container it changes nothing, so clearing is idempotent |
| DynamicArrays.IsEmpty | src/pack/DynamicArray.java:106-108 | true exactly when the contents are empty |
| DynamicArrays.Size | src/pack/DynamicArray.java:110-112 | the result is the number of elements held |
| DynamicArrays.ToArray | src/pack/DynamicArray.java:114-116 | the copy is exactly the contents, with length size |
| Iterators.Iterator | src/pack/DynamicArray.java:145-151 | a fresh forward cursor is consistent with the container, starts at position 0 and has nothing to remove |
| Iterators.HasNext | src/pack/DynamicArray.java:154-156 | true exactly when some element lies at or after the cursor, that is, when an element remains to be returned |
| Iterators.Next | src/pack/DynamicArray.java:158-165 | at the end it throws NoSuchElement; otherwise it returns the element under the cursor, steps forward by one and remembers that position for `remove` |
| Iterators.Remove | src/pack/DynamicArray.java:167-175 | with nothing to remove it throws IllegalState; otherwise it deletes the element last returned, moves the cursor onto that position and forgets it, so a second `remove` throws |
| Iterators.ReverseIterator | src/pack/DynamicArray.java:178-184 | a fresh reverse cursor starts at size - 1 with nothing to remove |
| Iterators.ReverseHasNext | src/pack/DynamicArray.java:187-189 | true exactly when some element lies at or before the cursor; also true when the cursor sits on the slot a removal emptied past the end |
| Iterators.ReverseNext | src/pack/DynamicArray.java:191-198 | below position 0 it throws NoSuchElement; otherwise it returns the slot under the cursor, which is the element there or the emptied slot one past the end, then steps back and remembers that position |
| Iterators.ReverseRemove | src/pack/DynamicArray.java:200-208 | as written: with nothing to remove it throws IllegalState; when the remembered position is the emptied slot past the end it throws IndexOutOfBounds; otherwise it deletes that element and puts the cursor on the deleted position |
| Iterators.ReverseRemoveFixed | src/pack/DynamicArray.java:200-208 | as corrected: it deletes the element last returned and leaves the cursor just before that position, which keeps the cursor inside the contents |
| Properties.ForwardWalkYieldsSuffix | src/pack/DynamicArray.java:153-165 | calling `next` while `hasNext` holds returns the contents from the cursor onward, in order |
| Properties.ForwardIteration | src/pack/DynamicArray.java:118-120 | a fresh forward cursor returns exactly the contents, first to last |
| Properties.ReverseWalkYieldsPrefix | src/pack/DynamicArray.java:186-198 | calling reverse `next` while `hasNext` holds returns the contents up to the cursor, last first |
| Properties.ReverseIteration | src/pack/DynamicArray.java:122-124 | a fresh reverse cursor returns exactly the contents, last to first |
| Properties.ForwardStep | src/pack/DynamicArray.java:158-175 | one `next` followed by `remove` succeeds exactly when `hasNext` holds, returns the element under the cursor, deletes it, and leaves the cursor on the same position |
| Properties.ReverseStep | src/pack/DynamicArray.java:191-208 | one reverse `next` followed by `remove` always shrinks the container by one when it succeeds; with the corrected `remove` it succeeds exactly when `hasNext` holds, deletes the element under the cursor and moves the cursor one position back |
| Properties.HasNextIffNext | src/pack/DynamicArray.java:154-165 | `hasNext` is true exactly when `next` returns an element, and false exactly when `next` throws NoSuchElement |
| Properties.ReverseHasNextIffNext | src/pack/DynamicArray.java:187-198 | the reverse `hasNext` is true exactly when the reverse `next` returns a slot, and false exactly when it throws NoSuchElement |
| Properties.ForwardDrain | src/pack/DynamicArray.java:153-175 | the client loop that calls `remove` after every `next` of a forward cursor never throws, and leaves a valid container |
| Properties.ForwardDrainReturnsSuffix | src/pack/DynamicArray.java:158-175 | calling `remove` after every `next` returns each element from the cursor on exactly once, in order |
| Properties.ForwardDrainKeepsPrefix | src/pack/DynamicArray.java:167-175 | calling `remove` after every `next` leaves exactly the elements before the cursor |
| Properties.ForwardDrainEmpties | src/pack/DynamicArray.java:145-175 | from a fresh forward cursor, removing after every `next` returns the whole contents with no skips or repeats and leaves the container empty |
| Properties.ReverseDrain | src/pack/DynamicArray.java:186-208 | the same loop over a reverse cursor leaves a valid container whenever it completes, and with the corrected `remove` it never throws |
| Properties.ReverseDrainFixedReturnsPrefix | src/pack/DynamicArray.java:191-208 | with the corrected reverse `remove`, removing after every `next` returns the elements up to the cursor once each, last first |
| Properties.ReverseDrainFixedKeepsSuffix | src/pack/DynamicArray.java:200-208 | with the corrected reverse `remove`, removing after every `next` leaves exactly the elements after the cursor |
| Properties.ReverseDrainFixedEmpties | src/pack/DynamicArray.java:178-208 | with the corrected reverse `remove`, a fresh reverse cursor drains the container, returning its contents last to first |
| Properties.ReverseDrainAsWrittenAlwaysFails | src/pack/DynamicArray.java:200-208 | with `remove` as written, draining any non-empty container from the back fails with IndexOutOfBounds on the second `remove` |
| Properties.ReverseDrainAsWrittenFails | src/pack/DynamicArray.java:206 | an illustration of the general failure: with `remove` as written, draining [1, 2, 3] from the back returns 3, then the emptied slot, and then fails with IndexOutOfBounds |
| Properties.InsertThenRemoveAt | src/pack/DynamicArray.java:34-58 | removing at the position just inserted at restores the contents |
| Properties.SetThenGet | src/pack/DynamicArray.java:42-52 | after `set`, `get` at that position returns the new element and every other position answers as before |
| Properties.AddThenRemoveValue | src/pack/DynamicArray.java:60-67 | appending a value and then removing it by value restores the size, the multiset of elements and the relative order of all other elements, and restores the exact contents when the value was absent before |
| Properties.AddEachMatchesAddAll | src/pack/DynamicArray.java:23-32 | appending one element at a time keeps every element in order, and the single growth of `addAll` never reserves more than one-by-one growth would |
| Sequences.RemoveFirstIsDeleteAtFirstIndex | src/pack/DynamicArray.java:60-67 | removing the first occurrence is the same as deleting at the index `indexOf` returns |
| Sequences.RemoveFirstMultiset | src/pack/DynamicArray.java:60-67 | removal by value takes out exactly one copy of the value and keeps every other element |
| Sequences.RemoveFirstOfAppended | src/pack/DynamicArray.java:60-67 | appending a value that was absent and then removing it by value gives back the original sequence |
| Sequences.WithoutMember | src/pack/DynamicArray.java:69-77 | a value survives `removeAll` exactly when it was present and is not named |
| Sequences.WithoutCount | src/pack/DynamicArray.java:69-77 | a value that is not named keeps all of its copies through `removeAll` |
| Sequences.WithoutRemoveFirst | src/pack/DynamicArray.java:72-74 | removing an occurrence of a named value does not change what `removeAll` leaves |
| Sequences.WithoutAbsent | src/pack/DynamicArray.java:72-74 | once no named value occurs, the filter changes nothing, so the inner loop stops exactly there |
| Sequences.WithoutAppend | src/pack/DynamicArray.java:69-77 | filtering a concatenation filters each part and keeps them in order |
| Sequences.WithoutWithout | src/pack/DynamicArray.java:71-75 | purging the values one after another equals purging them all at once |
| Sequences.MeetsSnoc | src/pack/DynamicArray.java:70-76 | the `modified` flag after one more named value is the old flag or whether that value was present |
| Sequences.FirstNotAfterLast | src/pack/DynamicArray.java:83-99 | `indexOf` and `lastIndexOf` agree on absence, the first index is never after the last, and they coincide exactly when the value occurs at most once |

## Left out

- `toString` is not modelled: its text depends on each element's own `toString`.
- `main` is a console demonstration and is not modelled.
- `null` elements and `Object.equals` are not modelled. Elements have value
  equality (`T(==)`). A present slot always holds an element, so the
  `NullPointerException` that `indexOf` and `lastIndexOf` throw on a stored
  `null` cannot arise.
- Integer overflow of `size + 1`, `size + elements.length` and
  `array.length * 2` is not modelled: sizes and capacities are unbounded integers.
- Mutation is modelled as returning a new container value. Object identity,
  aliasing of the buffer, and garbage collection are not modelled.
- Modifying the container other than through a live cursor is outside the
  model. Each cursor step requires the cursor to be consistent with the
  container (`ForwardValid`, `ReverseValid`). The Java code does not check
  this.
- Iterators.ReverseNext: returns the raw slot (`Option<T>`) instead of an
  element. This follows the source, where reading the slot emptied by a
  reverse `remove` yields `null`.
- The `Iterator` interface's default members (`forEachRemaining`) are not
  modelled.

## Findings

| source | as written | input that shows it | evidently intended | confidence | as-written member | corrected member |
|---|---|---|---|---|---|---|
| src/pack/DynamicArray.java:206 | the reverse iterator's `remove` sets `cursor = lastRet`. This copies the forward iterator's rule and puts the cursor back on the deleted position. After the shift, that position holds an element already returned, or it is the emptied slot past the end. | reverse iterator over [1, 2, 3]: `next()` returns 3, then `remove()`; the next `next()` returns the emptied slot (`null`), and the `remove()` after it throws `IndexOutOfBoundsException`; every non-empty container fails the same way | the cursor should stay where `next` left it (`cursor = lastRet - 1`), so that removing after each `next` drains the list from last to first | high; not executed | Properties.ReverseDrainAsWrittenAlwaysFails | Iterators.ReverseRemoveFixed |

The forward `remove` (line 173) sets the cursor to `lastRet`, which is the next
element to return once the deleted one is gone. The reverse `remove` (line 206)
copies that rule, which is wrong for a backward walk: the next element to return
is the one before the deleted position. `Iterators.ReverseRemoveFixed` and
`Properties.ReverseDrainFixedEmpties` model and prove the corrected behaviour.
