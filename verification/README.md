# VLVector in Dafny

A Dafny model of `VLVector<T, StaticCapacity>` from `VLVector.hpp`, a
`std::vector`-like container with a small-buffer optimisation. While the
vector holds at most `StaticCapacity` elements they live in an inline array
(`_staticArray`, state `Static`). A `push_back` or `insert` that overflows the
current capacity moves them to a heap array (`_dynamicArray`, state `Dynamic`)
whose capacity is recomputed from the new size as `(3 * size) / 2`. A
`pop_back` or `erase` that brings a Dynamic vector down to `StaticCapacity`
elements or fewer copies them back into the inline array.

The C++ object is modelled as an immutable value, `VLVector.Vector<T>`. It
holds both buffers as sequences together with `size`, `capacity` and
`arrayState`. Every mutating member is a function from the old value to the
new one. The abstract contents `Elems(v)` are the first `size` slots of the
active buffer. Every contract is stated in terms of `Elems`: the new contents
as a sequence expression over the old ones (`s[..k] + [x] + s[k..]`), the
representation invariant `Valid`, and the reallocation and shrink rules.

Modules, in dependency order:

- `Wrappers` holds `Option` and `Result`.
- `Buffers` holds the element copies:
  - `_copyArray2Array`, as a loop with invariants;
  - `std::copy` and `std::copy_backward` within one buffer, element by element;
  - `std::equal`;
  - proofs that a left shift is correct when it copies from the front and a right shift when it copies from the back;
  - a proof that a right shift copying from the front duplicates elements.
- `VLVector` holds the data model, the invariant, the capacity rule and every public member.
- `Findings` models three places where the code departs from its doc comments, as written, reading an overlapping `std::copy` element by element and treating a range across two arrays as undefined.
- `Properties` holds lemmas that relate several members.
- `Scenarios` holds worked examples for small `StaticCapacity`.

Modelling choices:

- Iterators are `nat` offsets from the start of the active buffer. An `InputIterator` range `[first, last)` is the sequence of values it produces.
- The template parameter `StaticCapacity` is the length of `staticArray`. Its default of 16 (`DEFAULT_STATIC_CAP`) is not modelled: `New` and `FromRange` take it as a required argument.
- `blank` stands for the value-initialised `T()`. The inline array and every fresh heap array (`new T[c]`) are filled with it before elements are copied in. Slots past `size` are never read, so this choice is not observable.
- `operator=` compares addresses (`&vec == this`), which a value cannot do. The model passes that comparison in as the flag `aliased`.
- A copy between two distinct arrays (`_copyArray2Array`, `std::copy_n`, `std::copy` into a fresh buffer) cannot overlap. It is modelled as the block write `Buffers.Place`.
- An in-place shift is modelled element by element, in the order the library routine visits the elements.

Three behaviours of the code that a reader might not expect:

- The copy constructor and `operator=` copy the source's stored `_capacity` (`VLVector.hpp:289`, `VLVector.hpp:637`). They do not recompute it from the size.
- In Dynamic state the capacity changes only when a reallocation happens (`VLVector.hpp:385-388`). A Dynamic vector's capacity therefore need not equal `(3 * size) / 2`; `Scenarios.DynamicCapacityLagsGrowth` shows a reachable case. The invariant `Valid` claims only `size <= capacity`, that a Static vector has capacity `StaticCapacity`, that Dynamic holds exactly when `size > StaticCapacity`, and that the heap array has `capacity` slots.
- When `push_back`, `insert`, `pop_back`, `erase` or `clear` chooses a buffer anew, the capacity is the growth formula for the new size. `VLVector.GrowthRule` and `VLVector.ShrinkRule` state this rule, and the contracts of these members include it. The copy constructor and `operator=` are the exception: as the first point says, they keep the source's capacity.

## Model

| member | source | states |
|---|---|---|
| `VLVector.Growth` | VLVector.hpp:47-51 | the capacity chosen for a size is at least that size and at least StaticCapacity, and equals StaticCapacity exactly when the size fits the inline array |
| `VLVector.New` | VLVector.hpp:88-93 | the default vector is valid, empty, Static, with capacity StaticCapacity |
| `VLVector.Size` | VLVector.hpp:114-118 | `size()` is the number of elements in the contents |
| `VLVector.Capacity` | VLVector.hpp:120-124 | `capacity()` is never below the number of elements and is StaticCapacity while Static |
| `VLVector.IsEmpty` | VLVector.hpp:126-131 | `empty()` holds exactly when the contents are the empty sequence |
| `VLVector.Data` | VLVector.hpp:204-215 | `data()` is a buffer with exactly `capacity` slots, whichever state the vector is in |
| `VLVector.At` | VLVector.hpp:340-373 | `at(i)` fails with OutOfRange if and only if `i >= size`, and otherwise returns element `i` of the contents |
| `VLVector.Subscript` | VLVector.hpp:227-245 | `operator[](i)` for `i < size` returns element `i` of the contents, the same value `at(i)` returns |
| `VLVector.SetAt` | VLVector.hpp:348-355 | a write `at(i) = x` through the returned reference fails with OutOfRange if and only if `i >= size`; otherwise the contents become `s[i := x]`, state and capacity are kept and the invariant is preserved |
| `VLVector.SetSubscript` | VLVector.hpp:234-235 | a write `v[i] = x` (or through `data()` or `begin()`) for `i < size` makes the contents `s[i := x]`, keeping state and capacity and the invariant |
| `VLVector.PushBack` | VLVector.hpp:375-408 | the contents become `s + [x]`; the vector reallocates exactly when the new size exceeds the old capacity, and then turns Dynamic with the capacity recomputed from the new size; otherwise state and capacity are kept; the invariant is preserved |
| `VLVector.Insert` | VLVector.hpp:410-456 | inserting `x` at offset `k <= size` gives `s[..k] + [x] + s[k..]`; the returned position is `k` and holds `x`; the reallocation rule of push_back applies to the new size; the invariant is preserved |
| `VLVector.InsertInPlace` | VLVector.hpp:424-430 | when the new size fits the capacity, the contents become `s[..k] + [x] + s[k..]` with state and capacity unchanged; the tail is shifted by a back-to-front copy (see Findings) |
| `VLVector.InsertReallocating` | VLVector.hpp:431-455 | when the new size exceeds the capacity, the contents become `s[..k] + [x] + s[k..]` in a Dynamic vector whose capacity is the growth formula for the new size, from either state |
| `VLVector.InsertRangeInPlace` | VLVector.hpp:482-487 | when the values fit the capacity, the contents become `s[..k] + items + s[k..]` with state and capacity unchanged |
| `VLVector.InsertRangeReallocating` | VLVector.hpp:488-507 | when the values do not fit, the contents become `s[..k] + items + s[k..]` in a Dynamic vector whose capacity is the growth formula for the new size |
| `VLVector.InsertRange` | VLVector.hpp:458-508 | inserting a range at offset `k` gives `s[..k] + items + s[k..]`, with the values starting at offset `k`; the returned position is `k`; an empty range returns `k` and leaves the vector exactly as it was; otherwise the reallocation rule applies |
| `VLVector.PopBack` | VLVector.hpp:510-535 | an empty vector is returned unchanged; otherwise the contents become `s[..size-1]`; a Dynamic vector that comes down to StaticCapacity elements turns Static with capacity StaticCapacity, keeping the elements in order; otherwise state and capacity are kept |
| `VLVector.EraseInPlace` | VLVector.hpp:590-594 | when the vector is Static or stays above StaticCapacity, closing a gap of `m` at `k` by a left shift gives `s[..k] + s[k+m..]` with state and capacity unchanged |
| `VLVector.EraseToStatic` | VLVector.hpp:595-602 | when a Dynamic vector comes down to StaticCapacity or fewer, prefix and tail land side by side in the inline array: contents `s[..k] + s[k+m..]`, Static, capacity StaticCapacity |
| `VLVector.Erase` | VLVector.hpp:537-567 | erasing offset `k < size` gives `s[..k] + s[k+1..]`; the returned position is `k`, the element after the erased one; erasing the last element is exactly pop_back and returns the new end; the shrink rule applies |
| `VLVector.EraseRange` | VLVector.hpp:569-603 | erasing `m` elements at offset `k` gives `s[..k] + s[k+m..]`; the returned position is `k`, the first element after the erased ones; an empty range leaves the vector exactly as it was; a Dynamic vector whose new size fits the inline array turns Static with capacity StaticCapacity |
| `VLVector.Clear` | VLVector.hpp:605-620 | after `clear()` the vector is valid, empty, Static, with capacity StaticCapacity |
| `VLVector.Copy` | VLVector.hpp:281-303 | the copy has the same contents, size, capacity and state as the source, and is valid |
| `VLVector.Assign` | VLVector.hpp:622-656 | self-assignment returns the vector unchanged; otherwise the target gets the contents, size, capacity and state of the source and stays valid |
| `VLVector.Equal` | VLVector.hpp:658-686 | `==` holds if and only if the contents are equal, which is equal sizes and equal elements index by index, whatever the states of the two sides |
| `VLVector.NotEqual` | VLVector.hpp:254-260 | `!=` holds if and only if the contents differ |
| `VLVector.FromRange` | VLVector.hpp:305-324 | the iterator-range constructor builds a valid vector whose contents are the produced values in order; it is Dynamic exactly when there are more than StaticCapacity of them |
| `Buffers.CopyArray2Array` | VLVector.hpp:271-279 | the copy loop writes the first `numVals` slots of the destination with the first `numVals` source elements, in order, and leaves every other slot as it was |
| `Buffers.Fresh` | VLVector.hpp:435 | `new T[c]` (and the value-initialised `_staticArray{}` of VLVector.hpp:91) gives a buffer of exactly `c` slots; its contract states only the length, and that every slot holds `blank` comes from its body |
| `Buffers.Place` | VLVector.hpp:436-438 | a copy between two distinct arrays writes the block into slots `[at, at + len)` and leaves every other slot as it was, slot by slot; this is the effect `CopyArray2Array`, `ForwardCopyShiftsLeft` and `BackwardCopyShiftsRight` are proved against |
| `Buffers.ForwardCopy` | VLVector.hpp:558 | `std::copy` within one buffer, element by element front to back; its own contract states only that the buffer keeps its length, and its effect is stated by `Buffers.ForwardCopyLeftAt` (and, for an overlapping right shift, `Buffers.ForwardCopyRightSmears`) |
| `Buffers.BackwardCopy` | VLVector.hpp:427 | `std::copy_backward` within one buffer, the copy the in-place insert needs, element by element back to front; its own contract states only that the buffer keeps its length, and its effect is stated by `Buffers.BackwardCopyAt` |
| `Buffers.ForwardCopyShiftsLeft` | VLVector.hpp:556-559 | a front-to-back copy to a destination at or before the source moves the block intact; this is the shift `erase` uses |
| `Buffers.ForwardCopyLeftAt` | VLVector.hpp:557 | after a front-to-back copy to a destination at or before the source, each destination slot holds the source element at the same distance from the block start, and every other slot is unchanged |
| `Buffers.ShiftLeftAndClose` | VLVector.hpp:556-559 | shifting the tail `[k+m, n)` onto slot `k` front to back leaves prefix then tail in the first `n - m` slots |
| `Buffers.BackwardCopyShiftsRight` | VLVector.hpp:425-429 | a back-to-front copy to a destination at or after the source moves the block intact; this is the shift `insert` needs |
| `Buffers.BackwardCopyAt` | VLVector.hpp:427 | after a back-to-front copy to a destination at or after the source, each destination slot holds the source element at the same distance from the block start, and every other slot is unchanged |
| `Buffers.ShiftRightAndFill` | VLVector.hpp:482-485 | shifting the tail `[k, n)` right by the block length back to front and then writing the block at `k` lays out prefix, block and tail |
| `Buffers.ForwardCopyRightSmears` | VLVector.hpp:427 | a front-to-back copy to a destination inside the source range writes the first source element a second time, at `dFirst + (dFirst - first)` |
| `Buffers.ForwardCopyRightIsNotAMove` | VLVector.hpp:484 | such a copy moves the block correctly only when the first element and the element at the destination are equal |
| `Buffers.RangesEqual` | VLVector.hpp:672-685 | the pairwise front-to-back comparison holds exactly when the two prefixes of length `count` are equal |
| `Findings.InsertAsWritten` | VLVector.hpp:418-456 | single insert as written: with room to spare the result is defined, at position `k`, and valid; every insert that leaves the inline array is undefined |
| `Findings.InsertRangeAsWritten` | VLVector.hpp:468-508 | range insert as written: an empty range, or values that fit, give a defined and valid result at position `k`; every non-empty insert that leaves the inline array is undefined |
| `Findings.EraseRangeAsWritten` | VLVector.hpp:577-603 | range erase as written returns `k + m` on every non-empty erase that keeps the state |
| `Findings.End` | VLVector.hpp:73-74 | `end()` points into the inline array exactly when the state is Static, at offset `size`, so its array depends on the state at the moment it is evaluated |
| `Findings.RangeLength` | VLVector.hpp:449 | the length of `[first, last)` is defined exactly when both pointers lie in the same array with `first` not after `last`, and is then the offset difference |
| `Findings.CopyAcross` | VLVector.hpp:449 | a `std::copy` from one array into another is undefined whenever its two source pointers lie in different arrays; when defined it leaves the destination length unchanged |
| `Findings.InsertAsWrittenSmears` | VLVector.hpp:425-429 | with a tail of two or more differing elements, the in-place insert as written puts the element from `k` at `k + 2`, where the intended result has the element from `k + 1`, so the contents differ |
| `Findings.InsertAsWrittenUndefinedOnTransition` | VLVector.hpp:442-455 | every single insert into a full Static vector is undefined as written, while the intended insert gives `s[..k] + [x] + s[k..]` |
| `Findings.InsertRangeAsWrittenSlot` | VLVector.hpp:482-487 | with more than `m` elements after `k` and room for the values, the range insert as written is defined and holds the element from `k` at `k + 2m` |
| `Findings.InsertRangeAsWrittenSmears` | VLVector.hpp:482-487 | with more than `m` elements after `k` and differing elements at `k` and `k + m`, the in-place range insert as written puts the element from `k` at `k + 2m`, where the intended result has the element from `k + m` |
| `Findings.InsertRangeAsWrittenUndefinedOnTransition` | VLVector.hpp:499-507 | every non-empty range insert that makes a Static vector overflow is undefined as written, while the intended one gives `s[..k] + items + s[k..]` |
| `Findings.EraseRangeAsWrittenReturnsPastGap` | VLVector.hpp:590-594 | on every non-empty erase that keeps the state, the as-written vector is the intended one, but the returned position is `m` past the intended `k`, and lies past the end exactly when `k + 2m > size` |
| `Findings.InsertAtFrontExample` | VLVector.hpp:425-429 | inserting 99 at the front of [1, 2, 3] with capacity 4 gives [99, 1, 2, 3] as intended but something else as written |
| `Findings.EraseRangeExample` | VLVector.hpp:191-197 | erasing the first two elements of [1, 2, 3] leaves [3] and should return position 0; as written it returns position 2 |
| `Properties.PushBackThenAt` | VLVector.hpp:381-408 | push_back grows the size by one and `at(size - 1)` then returns the pushed value |
| `Properties.SetAtThenAt` | VLVector.hpp:348-355 | after `at(i) = x` on a live index the size is unchanged, `at(i)` reads `x` and every other index reads what it read before |
| `Properties.PopBackUndoesPushBack` | VLVector.hpp:516-535 | pop_back after push_back restores the contents and the state, across the transition in either direction |
| `Properties.EraseUndoesInsert` | VLVector.hpp:544-567 | erasing at the offset just inserted at restores the contents |
| `Properties.EraseRangeUndoesInsertRange` | VLVector.hpp:577-603 | erasing the range just inserted restores the contents |
| `Properties.InsertIsRangeOfOne` | VLVector.hpp:468-508 | inserting one value and inserting the one-element range agree on contents, position, state and capacity |
| `Properties.EraseIsRangeOfOne` | VLVector.hpp:544-603 | erasing one position and erasing the one-element range agree on contents, position, state and capacity, including the pop_back special case |
| `Properties.ClearIsIdempotent` | VLVector.hpp:610-620 | calling clear twice is calling it once |
| `Properties.CopyIsEqual` | VLVector.hpp:287-303 | a copy is `==` to its source and not `!=`, with the same size, capacity and state |
| `Properties.AssignIsEqual` | VLVector.hpp:629-656 | after assignment from another object the target is `==` to the source with its size and capacity; self-assignment changes nothing |
| `Properties.SameSizeSameState` | VLVector.hpp:666-686 | two valid vectors of one type with equal sizes are in the same state, so the mixed-state comparisons of `==` are never reached |
| `Scenarios.PushFiveMovesToHeap` | VLVector.hpp:381-408 | with StaticCapacity 4, pushing 0..4 gives a Dynamic vector of capacity 7 holding [0, 1, 2, 3, 4] |
| `Scenarios.PushFiveThenPopTwo` | VLVector.hpp:516-535 | popping twice from that vector gives a Static vector of capacity 4 holding [0, 1, 2] |
| `Scenarios.InsertInTheMiddle` | VLVector.hpp:419-456 | inserting 99 at offset 2 of [1, 2, 3] gives [1, 2, 99, 3] with the returned position on 99 |
| `Scenarios.EraseInTheMiddle` | VLVector.hpp:546-567 | erasing offset 1 of [1, 2, 3, 4] gives [1, 3, 4] with the returned position on 3 |
| `Scenarios.DynamicCapacityLagsGrowth` | VLVector.hpp:384-388 | with StaticCapacity 1, three push_backs give a Dynamic vector of size 3 and capacity 3, while the growth formula gives 4 for size 3 |

## Findings

Confidence cells describe the model's reasoning only: nothing was executed.

| source | as written | input that shows it | evidently intended | confidence | as-written member | corrected member |
|---|---|---|---|---|---|---|
| VLVector.hpp:427 | `std::copy(pos, end() - 1, pos + 1)` opens the gap with a front-to-back copy into the overlapping slots to its right | capacity 4, contents [1, 2, 3], insert 99 at offset 0: an element-by-element copy gives [99, 1, 1, 1] | copy from the back (`std::copy_backward`), giving [99, 1, 2, 3] | not executed; the C++ standard leaves this overlap undefined, so a library that uses memmove for trivially copyable `T` may happen to get it right | `Findings.InsertAsWrittenSmears` | `VLVector.Insert` |
| VLVector.hpp:484 | `std::copy(pos, end() - numOfVals, pos + numOfVals)`: the same front-to-back copy for a range | capacity 5, contents [1, 2, 3], insert [7, 8] at offset 0: gives [7, 8, 1, 2, 1] | copy from the back, giving [7, 8, 1, 2, 3] | not executed; the same caveat on overlap | `Findings.InsertRangeAsWrittenSmears` | `VLVector.InsertRange` |
| VLVector.hpp:444-449 | `_arrayState` becomes Dynamic before `end()` is evaluated, so the tail range runs from `_staticArray + dist` to a pointer into `_dynamicArray` | StaticCapacity 2, contents [1, 2], insert 9 at offset 0 | the tail copy ends at the old end of the inline array, giving [9, 1, 2] | not executed; high: every insert that leaves the inline array takes this path | `Findings.InsertAsWrittenUndefinedOnTransition` | `VLVector.Insert` |
| VLVector.hpp:501-505 | the same early state change in range insert, with the tail range ending at `end() - numOfVals` | StaticCapacity 2, contents [1, 2], insert [8, 9] at offset 0 | the tail copy ends at the old end of the inline array, giving [8, 9, 1, 2] | not executed; high | `Findings.InsertRangeAsWrittenUndefinedOnTransition` | `VLVector.InsertRange` |
| VLVector.hpp:593 | range erase that keeps the state returns `posLast` | contents [1, 2, 3], erase offsets [0, 2): returns offset 2, past the end of [3] | return `posFirst`, offset 0, as the doc comment at VLVector.hpp:195 and the transition path at VLVector.hpp:602 do | not executed; high | `Findings.EraseRangeAsWrittenReturnsPastGap` | `VLVector.EraseRange` |

## Left out

- Memory ownership is not modelled: `new[]`, `delete[]` and the destructor (VLVector.hpp:331-338). Buffers are values, so a leak is not observable. This covers the release in `clear` that can never run because the state is set to Static first (VLVector.hpp:615-619), and the heap array that erase transitions never free (VLVector.hpp:562-566, VLVector.hpp:596-602).
- Allocation failure is not modelled. Neither is the `try`/`catch` around the tail copy that prints the exception to `std::cout` (VLVector.hpp:448-453); it is I/O and exception plumbing.
- Raw-pointer iterators (`begin`, `end`, `cbegin`, `cend`, VLVector.hpp:70-86) and `std::distance` are not modelled beyond offsets. Iterator invalidation, and whether `data()` aliases the internal buffer, cannot be seen in a value model. A write through the reference or pointer that `at`, `operator[]`, `data()` or `begin()` returns is modelled, one element at a time, as `VLVector.SetAt` and `VLVector.SetSubscript`.
- Input iterators are modelled as the sequence of values they produce. The range insert walks its range twice, once with `std::distance` and once with `std::copy`. The model therefore assumes a multi-pass (forward) range.
- `T` is taken to have plain value-copy semantics. Constructors, assignment operators and exceptions of `T` are not modelled. `blank` stands for `T()`; for scalar `T`, `new T[c]` leaves its slots indeterminate instead.
- `size_t` arithmetic is unbounded in the model. `3 * _size` in `_updateCapacity` would wrap only above a third of the address space, where no allocation can succeed. The result also passes through `double` by way of `floor` (VLVector.hpp:51); that conversion is exact below 2^53, far beyond any capacity that can be allocated.
- VLVector.Insert: the value argument of `insert(position, newVal)` is taken by `const T &` (VLVector.hpp:420) and read only after the tail has been shifted (VLVector.hpp:427-428). The model takes it as a value read before the call, so an argument that refers to an element of the vector itself (`v.insert(v.begin(), v[1])`) is not modelled: in the code such a call writes whatever the shift left in that slot.
- Findings.InsertAsWritten: the overlapping `std::copy` at VLVector.hpp:427 breaks that routine's precondition, so the code's behaviour there is undefined; the model fixes one outcome, the element-by-element front-to-back reading, and a memmove-based library may produce the intended result instead. Like `VLVector.Insert`, it takes the value by copy rather than through the `const T &` read after the shift (VLVector.hpp:420, VLVector.hpp:428).
- Findings.InsertRangeAsWritten: the same single outcome is fixed for the overlapping copy at VLVector.hpp:484, and the range is taken as values read before the call.
- VLVector.InsertRange: likewise the range is read after the tail has been shifted (VLVector.hpp:484-485), and the model takes its values as read before the call, so a range that points into the vector itself is not modelled.
- The test `i < 0` in `at` (VLVector.hpp:350, VLVector.hpp:367) is always false for an unsigned index. The model keeps only `i >= size`.
