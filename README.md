# SimpleVector and ArrayPtr in Dafny

A model of a hand-written growable array, `SimpleVector<Type>`, together with the
sole-owner heap-array handle it is built on, `ArrayPtr<Type>`.

- `ArrayPtr` (module `ArrayPointer`) is a class with one field. That field is the
  owned block: a nullable Dafny array standing for `raw_ptr_`. The model covers its
  constructors, move operations, `Release`, `Get`, `operator bool`, unchecked
  indexing and `swap`.
- `SimpleVector` (module `Vector`) is a class with the source's three fields: `size`,
  `capacity` and the owner `storage`. It also has a constant `zero`, which stands
  for `Type{}`.
  - `Valid()` says that `size <= capacity`, that the block has exactly `capacity`
    slots, and that no block is held when `capacity` is 0.
  - `Model()` is the vector's state as a value: the whole block plus the size.
  - `PushBack`, `Insert`, `InsertCorrected`, `PopBack`, `Erase`, `Clear`, `Resize`
    and `Reserve` are each proved to leave `Model()` equal to the function of the
    same name in module `VectorSpec`, applied to the old `Model()`. `At` returns
    `VectorSpec.At` of the state.
  - `Set`, `Swap`, the constructors and the assignment operators state their new
    state directly: the changed slot, the exchanged states, or the size, capacity
    and block they produce.
- `VectorSpec` works with whole blocks, not only live elements. This matters
  because stale slots past `size` come back into view in one place: `Insert`
  without growth.
- The contracts of the `VectorSpec` functions state the source's promises at the
  level of elements:
  - what the live elements become;
  - the growth rule `capacity == 0 ? 1 : 2 * capacity`;
  - when the capacity changes.
- `Algorithms` models the two standard range algorithms that the source uses:
  `std::copy` and `std::copy_backward`. `std::move` over a range is the same at the
  value level.
- `Comparisons` models `==`, `!=`, `<`, `<=`, `>` and `>=` over the live elements.
  The element type's `operator<` is a parameter.
- Iterators are indices. `begin()` is 0 and `end()` is `size`. `Insert` and `Erase`
  take and return indices.

The code is modelled as written. Four places where it departs from its evident
intent are listed under "## Findings". Each is modelled both as written and
corrected. The assignment operators are modelled twice: `CopyAssignAsWritten`/`MoveAssignAsWritten`
over the as-written constructors, as the source builds them, and
`CopyAssign`/`MoveAssign` over the corrected ones.

Two behaviours differ from what one expects of a standard vector. The model
follows the code in both:

- The move constructor leaves the source with size 0 but with its block and its
  capacity (`other.Clear()`, simple_vector.h:91). The source is not reset to
  capacity 0.
- Growing `Resize(n)` reallocates to exactly `n` slots even when `n` is below the
  current capacity. The capacity therefore drops. `VectorSpec.ResizeCanLowerCapacity`
  shows a case.

## Model

| member | source | states |
|---|---|---|
| `ArrayPointer.ArrayPtr.Default` | simple-vector/array_ptr.h:8 | a default owner holds null |
| `ArrayPointer.ArrayPtr.Sized` | simple-vector/array_ptr.h:12-15 | size 0 gives null; otherwise a fresh block of exactly `size` slots, all `Type{}` |
| `ArrayPointer.ArrayPtr.FromRaw` | simple-vector/array_ptr.h:30-33 | the given pointer, null included, is adopted unchanged |
| `ArrayPointer.ArrayPtr.Move` | simple-vector/array_ptr.h:18-20 | as written: the new owner holds the source's pointer and the source keeps it too |
| `ArrayPointer.ArrayPtr.MoveAssign` | simple-vector/array_ptr.h:23-27 | as written: this owner takes `other`'s pointer and `other` (when distinct) still holds it |
| `ArrayPointer.ArrayPtr.Take` | simple-vector/array_ptr.h:18-20 | corrected move: the block changes owner and the source holds null |
| `ArrayPointer.ArrayPtr.TakeAssign` | simple-vector/array_ptr.h:23-27 | corrected move assignment: this owner gets `other`'s block and a distinct `other` holds null |
| `ArrayPointer.ArrayPtr.Release` | simple-vector/array_ptr.h:48-52 | returns the previously held pointer and leaves the owner null |
| `ArrayPointer.ArrayPtr.Read` | simple-vector/array_ptr.h:60-62 | unchecked read of slot `index` (the caller keeps it in bounds) |
| `ArrayPointer.ArrayPtr.Write` | simple-vector/array_ptr.h:55-57 | unchecked write: only slot `index` of the block changes |
| `ArrayPointer.ArrayPtr.IsOwning` | simple-vector/array_ptr.h:65-67 | `operator bool` is true exactly when the pointer is non-null |
| `ArrayPointer.ArrayPtr.Get` | simple-vector/array_ptr.h:70-72 | returns the held pointer unchanged |
| `ArrayPointer.ArrayPtr.Swap` | simple-vector/array_ptr.h:75-79 | the two owners exchange pointers |
| `ArrayPointer.SwapTwice` | simple-vector/array_ptr.h:75-79 | swapping twice gives both owners back their own blocks |
| `ArrayPointer.DuplicateOwnership` | simple-vector/array_ptr.h:18-20 | after the as-written move, two distinct owners hold one non-null block |
| `ArrayPointer.SoleOwnership` | simple-vector/array_ptr.h:18-20 | after the corrected move, only the new owner holds the block |
| `Algorithms.Copy` | simple-vector/simple_vector.h:216 | `std::copy`: the range lands at `d` in order; the rest of the destination is unchanged; also a correct left shift within one array |
| `Algorithms.CopyBackward` | simple-vector/simple_vector.h:173 | `std::copy_backward`: the range ends at `e`; the rest is unchanged; also a correct right shift within one array |
| `VectorSpec.Grow` | simple-vector/simple_vector.h:116 | the growth rule always yields a capacity larger than the old one |
| `VectorSpec.PushBack` | simple-vector/simple_vector.h:114-130 | the elements become old elements + [x]; capacity becomes `Grow(capacity)` exactly when size == capacity, otherwise it is unchanged |
| `VectorSpec.Insert` | simple-vector/simple_vector.h:157-178 | as written: size+1, same growth rule, prefix [0,pos) kept, slot pos holds x; with growth the old tail moves right; without growth the tail is NOT shifted (slots past pos keep their old values and the stale slot `size` becomes live) |
| `VectorSpec.InsertCorrected` | simple-vector/simple_vector.h:172-176 | intended: elements become prefix + [x] + old tail, with the same growth rule |
| `VectorSpec.Erase` | simple-vector/simple_vector.h:214-219 | the element at pos is removed with order kept; size-1; capacity unchanged |
| `VectorSpec.PopBack` | simple-vector/simple_vector.h:207-211 | empty: nothing changes; otherwise the last element is dropped; the block is untouched |
| `VectorSpec.Clear` | simple-vector/simple_vector.h:268-270 | no elements; block and capacity unchanged |
| `VectorSpec.Resize` | simple-vector/simple_vector.h:274-294 | size becomes n; the first min(n, size) elements are kept; growth appends `Type{}` and sets capacity to exactly n; shrinking keeps capacity and resets slots [n, size) to `Type{}` |
| `VectorSpec.Reserve` | simple-vector/simple_vector.h:335-343 | elements kept; nothing changes when n <= capacity; otherwise capacity becomes n |
| `VectorSpec.At` | simple-vector/simple_vector.h:257-265 | out_of_range exactly when index >= size; otherwise the element at index |
| `VectorSpec.EraseInsertRoundTrip` | simple-vector/simple_vector.h:214-219 | erasing at the position just inserted at restores the elements (intended Insert) |
| `VectorSpec.InsertAsWrittenMatchesIntent` | simple-vector/simple_vector.h:172-176 | the as-written Insert equals the intended one iff it grows, or the unshifted slots already equal their left neighbours |
| `VectorSpec.PopBackUndoesPushBack` | simple-vector/simple_vector.h:207-211 | PopBack after PushBack gives back the original elements |
| `VectorSpec.ClearThenPushBackReusesBlock` | simple-vector/simple_vector.h:268-270 | after Clear, PushBack keeps the capacity iff it was positive, and the elements are [x] |
| `VectorSpec.ResizeCanLowerCapacity` | simple-vector/simple_vector.h:275-285 | a growing Resize below the current capacity lowers the capacity |
| `VectorSpec.AppendInsertEraseRun` | simple-vector/simple_vector.h:114-219 | appending 1,2,3 grows capacity 1,2,4; as-written insert of 99 at 1 gives [1,99,3,0]; intended gives [1,99,2,3]; erase at 0 gives [99,2,3]; index 3 is out of range |
| `Vector.SimpleVector.constructor` | simple-vector/simple_vector.h:37 | the default vector has no elements, capacity 0 and no block |
| `Vector.SimpleVector.Sized` | simple-vector/simple_vector.h:42-48 | size == capacity == n and every element is `Type{}` |
| `Vector.SimpleVector.Filled` | simple-vector/simple_vector.h:51-58 | size == capacity == n and every element is `value` |
| `Vector.SimpleVector.WithCapacity` | simple-vector/simple_vector.h:61-64 | size 0 and capacity n, over a block of n `Type{}` slots |
| `Vector.SimpleVector.FromList` | simple-vector/simple_vector.h:67-74 | the elements are the list in order; size == capacity == list length |
| `Vector.SimpleVector.CopyAsWritten` | simple-vector/simple_vector.h:77-82 | as written: the source's size and capacity over a block of exactly the source's elements; `Valid()` holds iff the source was full |
| `Vector.SimpleVector.MoveAsWritten` | simple-vector/simple_vector.h:85-93 | as written: the same as CopyAsWritten, and the source is left with size 0 and its block and capacity kept |
| `Vector.SimpleVector.Copy` | simple-vector/simple_vector.h:77-82 | corrected copy: a valid vector with the source's elements and capacity == size |
| `Vector.SimpleVector.Move` | simple-vector/simple_vector.h:85-93 | corrected move: the source's elements with capacity == size; the source is cleared (size 0, block and capacity kept) |
| `Vector.SimpleVector.CopyAssignAsWritten` | simple-vector/simple_vector.h:96-102 | as written: self-assignment is a no-op; otherwise the target takes rhs's size and capacity over a block of exactly rhs's elements, is consistent iff rhs was full, and rhs is unchanged |
| `Vector.SimpleVector.MoveAssignAsWritten` | simple-vector/simple_vector.h:105-110 | as written: self-assignment is a no-op; otherwise the target takes rhs's size and capacity over a block of exactly rhs's elements, is consistent iff rhs was full, and rhs is cleared |
| `Vector.SimpleVector.CopyAssign` | simple-vector/simple_vector.h:96-102 | corrected (over the corrected copy): self-assignment is a no-op; otherwise the target is consistent with rhs's elements and capacity == size, and rhs is unchanged |
| `Vector.SimpleVector.MoveAssign` | simple-vector/simple_vector.h:105-110 | corrected (over the corrected move): self-assignment is a no-op; otherwise the target is consistent with rhs's elements and capacity == size, and rhs is cleared |
| `Vector.SimpleVector.PushBack` | simple-vector/simple_vector.h:114-150 | the new state is `VectorSpec.PushBack` of the old (both overloads) |
| `Vector.SimpleVector.Insert` | simple-vector/simple_vector.h:157-202 | returns pos; the new state is the as-written `VectorSpec.Insert` of the old (both overloads) |
| `Vector.SimpleVector.InsertCorrected` | simple-vector/simple_vector.h:172-176 | returns pos; the new state is `VectorSpec.InsertCorrected` of the old |
| `Vector.SimpleVector.PopBack` | simple-vector/simple_vector.h:207-211 | the new state is `VectorSpec.PopBack` of the old |
| `Vector.SimpleVector.Erase` | simple-vector/simple_vector.h:214-219 | returns pos; the new state is `VectorSpec.Erase` of the old |
| `Vector.SimpleVector.Swap` | simple-vector/simple_vector.h:223-227 | with no demand on either state, the two vectors exchange block, size and capacity; each is consistent afterwards iff the other was before |
| `Vector.SimpleVector.GetSize` | simple-vector/simple_vector.h:231-233 | the number of live elements |
| `Vector.SimpleVector.GetCapacity` | simple-vector/simple_vector.h:236-238 | the number of slots in the block |
| `Vector.SimpleVector.IsEmpty` | simple-vector/simple_vector.h:241-243 | true iff there are no elements |
| `Vector.SimpleVector.Get` | simple-vector/simple_vector.h:251-253 | unchecked `operator[]`: the element at a live index |
| `Vector.SimpleVector.Set` | simple-vector/simple_vector.h:246-248 | writing through `operator[]` changes only that element |
| `Vector.SimpleVector.At` | simple-vector/simple_vector.h:257-265 | the result is `VectorSpec.At` of the state: out_of_range iff index >= size, otherwise the same element as `operator[]` |
| `Vector.SimpleVector.Clear` | simple-vector/simple_vector.h:268-270 | the new state is `VectorSpec.Clear` of the old |
| `Vector.SimpleVector.Resize` | simple-vector/simple_vector.h:274-294 | the new state is `VectorSpec.Resize` of the old |
| `Vector.SimpleVector.Reserve` | simple-vector/simple_vector.h:335-343 | the new state is `VectorSpec.Reserve` of the old |
| `Vector.GrownBlock` | simple-vector/simple_vector.h:161-170 | the growth branch yields a fresh block: prefix, then x, then the tail, then `Type{}` fill |
| `Vector.ResizedBlock` | simple-vector/simple_vector.h:276-282 | the growing branch of Resize: a fresh block of exactly n slots holding the live elements, then `Type{}` |
| `Vector.ResetSlots` | simple-vector/simple_vector.h:287-291 | the shrinking branch of Resize: slots [n, size) become `Type{}` and every other slot keeps its value |
| `Vector.ShiftRightAndWrite` | simple-vector/simple_vector.h:173-174 | the intended in-place branch: [pos, size) moves one slot right, then x is written at pos |
| `Vector.CopyOfReservedHasNoBlock` | simple-vector/simple_vector.h:77-79 | an as-written copy of a capacity-1 reserved vector has size 0, capacity 1 and no block |
| `Vector.MoveOfSparseOverruns` | simple-vector/simple_vector.h:85-88 | an as-written move of [5] in a 2-slot block has capacity 2 but a 1-slot block |
| `Vector.CopyAssignOfSparseOverruns` | simple-vector/simple_vector.h:96-102 | an as-written copy assignment of [5] in a 2-slot block gives the target capacity 2 over a 1-slot block |
| `Vector.CopyOfReservedIsFull` | simple-vector/simple_vector.h:77-79 | the corrected copy of the same vector is valid, with capacity 0 |
| `Comparisons.RangesEqual` | simple-vector/simple_vector.h:358 | `std::equal` over ranges of equal length is true iff all pairs are equal |
| `Comparisons.Equal` | simple-vector/simple_vector.h:356-359 | `==` holds iff the sizes are equal and the elements are pairwise equal |
| `Comparisons.NotEqual` | simple-vector/simple_vector.h:361-364 | `!=` holds iff the two element sequences differ |
| `Comparisons.Less` | simple-vector/simple_vector.h:366-370 | `lexicographical_compare`: true iff some position k decides it: the first k pairs are equivalent (neither less) and then lhs ends while rhs goes on, or lhs[k] is less than rhs[k] |
| `Comparisons.LessOrEqual` | simple-vector/simple_vector.h:372-376 | `<=` holds iff no position decides rhs to be less than lhs |
| `Comparisons.Greater` | simple-vector/simple_vector.h:378-381 | `>` holds iff some position decides rhs to be less than lhs |
| `Comparisons.GreaterOrEqual` | simple-vector/simple_vector.h:383-386 | `>=` holds iff no position decides lhs to be less than rhs |
| `Comparisons.DecidedIsLexAt` | simple-vector/simple_vector.h:366-370 | for a strict total element order, a deciding position is exactly a common prefix followed by lhs ending or lhs having the smaller element |
| `Comparisons.LessIsLexicographic` | simple-vector/simple_vector.h:366-370 | for a strict total element order, `<` is lexicographic order: a common prefix, then lhs ends while rhs goes on, or lhs has the smaller element |
| `Comparisons.EqualIsEquality` | simple-vector/simple_vector.h:356-364 | `==` is sequence equality and `!=` is its negation |
| `Comparisons.PrefixIsLess` | simple-vector/simple_vector.h:366-370 | a proper prefix compares less, for any element `operator<` |
| `Comparisons.LessIrreflexive` | simple-vector/simple_vector.h:366-370 | `<` is irreflexive when the element order is |
| `Comparisons.LessTransitive` | simple-vector/simple_vector.h:366-370 | `<` is transitive for a strict total element order |
| `Comparisons.LessTrichotomy` | simple-vector/simple_vector.h:366-370 | for a strict total element order, exactly one of `<`, `==`, `>` holds |
| `Comparisons.DerivedOperators` | simple-vector/simple_vector.h:372-386 | `<=` is `<` or `==`; `>` is neither `<` nor `==`; `>=` is `>` or `==` |

## Findings

| source | as written | input that shows it | evidently intended | confidence | as-written member | corrected member |
|---|---|---|---|---|---|---|
| simple-vector/simple_vector.h:77-79 | the copy constructor sets `capacity_` to the source's capacity but allocates only `size_` slots | copying `SimpleVector(Reserve(1))` gives size 0, capacity 1 and no block; the next PushBack sees size < capacity and writes slot 0 of a null block (`Vector.CopyOfReservedHasNoBlock`) | capacity equal to the allocated size | high; not executed | `Vector.SimpleVector.CopyAsWritten`, `Vector.SimpleVector.CopyAssignAsWritten` | `Vector.SimpleVector.Copy`, `Vector.SimpleVector.CopyAssign` |
| simple-vector/simple_vector.h:85-88 | the move constructor has the same mismatch | moving [5] held in a 2-slot block gives capacity 2 over a 1-slot block; the next PushBack writes slot 1 (`Vector.MoveOfSparseOverruns`) | capacity equal to the allocated size | high; not executed | `Vector.SimpleVector.MoveAsWritten`, `Vector.SimpleVector.MoveAssignAsWritten` | `Vector.SimpleVector.Move`, `Vector.SimpleVector.MoveAssign` |
| simple-vector/simple_vector.h:173 | `Insert` without growth calls `copy_backward(begin(), end(), end())`, which moves nothing, then overwrites slot pos | [1,2,3] in a 4-slot block: inserting 99 at 1 gives [1,99,3,0] (`VectorSpec.AppendInsertEraseRun`) | `copy_backward(begin() + pos, end(), end() + 1)`, giving [1,99,2,3] | high; not executed | `VectorSpec.Insert` | `VectorSpec.InsertCorrected` |
| simple-vector/array_ptr.h:18-20 | the move constructor copies the pointer and does not null the source | moving an owner of a 3-slot block leaves both owners holding it (`ArrayPointer.DuplicateOwnership`); both destructors would free it | the source is left null | high; not executed | `ArrayPointer.ArrayPtr.Move` | `ArrayPointer.ArrayPtr.Take` |

Notes on the findings:

- The `std::move` overload of `Insert` (simple_vector.h:197) has the same defect as
  the copy overload. `Vector.SimpleVector.Insert` models both overloads.
- `ArrayPtr`'s move assignment is built on its move constructor. As written
  (`ArrayPointer.ArrayPtr.MoveAssign`), it therefore shares the block with `other`.
  `ArrayPointer.ArrayPtr.TakeAssign` is the version built on the corrected move.
- The vector never uses `ArrayPtr`'s move operations. It reallocates only through
  `swap`.
- The copy and move assignment operators of the vector (simple_vector.h:96-110) are
  built on the copy and move constructors, so they inherit the capacity mismatch.
  `CopyAssignAsWritten` and `MoveAssignAsWritten` are built on the as-written
  constructors; `Vector.CopyAssignOfSparseOverruns` shows a target with capacity 2
  over a one-slot block. `CopyAssign` and `MoveAssign` are built on the corrected
  constructors.

## Left out

- Destruction and freeing of blocks (`~ArrayPtr`, `delete[]`): Dafny has no
  deallocation. The double free that the as-written `ArrayPtr` move leads to shows
  only as two owners of one block.
- Allocation failure (`std::bad_alloc`) and the exception-safety argument: the
  model has no allocation failure. It keeps the source's order: fill a new block,
  then swap it in.
- `size_t` wrap-around of `capacity_ * 2`: sizes and capacities are unbounded
  naturals.
- Copy versus move of elements: moved-from element values are not modelled. A move
  is a copy, so a moved-from slot keeps its value.
- `copy_backward(begin(), end(), end())` (simple_vector.h:173): the destination end
  lies inside the source range, which the C++ standard leaves undefined. It is
  modelled as the element-by-element self-assignment it performs, which changes
  nothing.
- Iterator pointers, `begin`/`end`/`cbegin`/`cend` (simple_vector.h:300-332): they
  are replaced by indices 0 and `size`. The null `begin()` of an empty vector has
  no counterpart.
- Indeterminate contents of `new Type[n]` for scalar types: fresh slots hold
  `Type{}`, which is the vector's `zero` and the `zero` argument of
  `ArrayPtr.Sized`.
- The text of the `out_of_range` message: `At` returns `Err(OutOfRange)`.
- `ReserveProxyObj` and the free function `Reserve` (simple_vector.h:13-27): the
  reserve constructor `WithCapacity` takes the capacity directly.
- `Type{}` is one value per element type in C++; here it is each vector's `zero`.
  `Swap` and the four assignment operators require both vectors to have the same
  `zero`, which always holds in C++.
- `CopyAssign`, `MoveAssign`, `CopyAssignAsWritten` and `MoveAssignAsWritten` (of the vector): they require a distinct `rhs` to
  own a different `ArrayPtr` object. In C++ this always holds, because each vector
  has its own member.
- `Vector.SimpleVector.CopyAsWritten`, `Vector.SimpleVector.MoveAsWritten`,
  `Vector.SimpleVector.CopyAssignAsWritten`, `Vector.SimpleVector.MoveAssignAsWritten`
  and the other vector methods: operations are modelled only on `Valid()` vectors
  (capacity equal to the block length). `Swap` and the target of the as-written
  assignments are the exceptions. The as-written copy and move are modelled up to
  the inconsistent state they produce, and no further. What the source does on
  such a state is not modelled: the overrunning `PushBack`, and the `Reserve` or
  growing `Resize` that would repair it. The overrun in Findings rows 1-2 is
  argued from that state, not shown by a member.
- `Vector.SimpleVector.Get`: it requires `index < size`, which is the caller's duty
  in the source. Past that, the source reads spare or out-of-block memory without a
  check.
- `ArrayPointer.ArrayPtr.Read`: it requires a non-null block and an in-bounds index.
  The source leaves both to the caller.
- Comparisons: they are functions on the vectors' element sequences, not on vector
  objects. The element type's `operator==` is Dafny equality (`T(==)`), so element
  types whose `==` is not structural equality are not covered. The contracts of
  `<`, `<=`, `>` and `>=` hold for any element `operator<`. The lemmas about order properties assume it is a strict total order.
