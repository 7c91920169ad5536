# A verified model of a hand-rolled growable `i32` array

This project models the `Vector` struct of `20250116/vector_project/src/vector.rs`:
a growable array of `i32` that keeps a raw buffer, a logical `size` and an
allocated `capacity`, and grows and shrinks its buffer by reallocating and
copying.

The model has three modules:

- `PowersOfTwo` (`powers.dfy`) defines powers of two and Rust's
  `usize::next_power_of_two`. It proves that `NextPowerOfTwo(h)` is the
  smallest power of two that is at least `h`.
- `VectorModel` (`model.dfy`) is the abstract view. It holds the `Int32`
  element type, `Option` for `pop`, and `Outcome` for the bounds-checked
  `at`. It states the capacity policy as three functions: growth on
  `push`/`insert`, shrink on `pop`, and the `delete` branch. It states the
  elements after insertion, deletion and filtering as functions on
  sequences, and proves lemmas about all of them. The capacity policy is
  `GrownCapacity` (doubled exactly when full), `PoppedCapacity` (halved when
  a quarter full or less and above 16) and `DeletedCapacity` (doubled under
  that same condition). The element semantics are `InsertAt`
  (`s[..i] + [v] + s[i..]`), `DeleteAt` (`s[..i] + s[i+1..]`) and `Without`
  (the elements other than `x`, in order). These six functions carry no
  contract of their own; the lemmas below state what they mean.
- `Vectors` (`vector.dfy`) is the `Vector` class itself:
  - an `array<Int32>` buffer whose length is the capacity;
  - `size` and `capacity` fields;
  - a ghost sequence `Elements` of the live elements.

  The object invariant `Valid()` says four things: the buffer length equals
  `capacity`; `size <= capacity`; `capacity` is a power of two; the live
  elements are the first `size` buffer slots. Each mutator keeps `Valid()`.
  Each mutator's postcondition ties the new elements, size and capacity to
  the model functions of the old state, except that `Remove` bounds the
  capacity only from below (see "Left out"). The shifting loops of `insert` and
  `delete`, the copy loop of `resize`, the scan of `find` and the
  delete-without-advancing loop of `remove` are `for`/`while` loops with
  their invariants.

The Rust panics of `at`, `insert` and `delete` are modelled as explicit
failure outcomes that leave the state unchanged. `At` returns `OutOfBounds`.
`Insert`, `Prepend` and `Delete` return `ok == false`.

Four behaviours of the code are modelled as written:

- `new(h)` with `h > 0` uses `next_power_of_two` with no floor of 16, so a
  hint of 5 gets capacity 8 and a hint of 1 gets capacity 1. The comments
  at lines 4 and 32 of `vector.rs` promise a minimum of 16. The model follows
  the code, so `Valid()` requires a power of two but not 16 or more.
- `insert` rejects `index == size`, so `prepend` on an empty vector fails.
- When the new size is at most a quarter of the capacity and the capacity is
  above 16, `delete` doubles the capacity instead of halving it.
- `remove` calls `delete` once per occurrence, so removing elements can only
  keep or grow the capacity.

`BuildScenario` and `VectorOperationsScenario` replay the two halves of the
repository's unit test against the contracts alone: every assertion of that
test is proved from the method specifications. `PushThenPop` shows that a
push followed at once by a pop returns the pushed value and restores the
previous elements.

## Model

| member | source | states |
|---|---|---|
| `PowersOfTwo.NextPowerOfTwo` | 20250116/vector_project/src/vector.rs:33-34 | the result is a power of two, at least `h`, and for `h >= 1` its half is below `h` |
| `PowersOfTwo.NextPowerOfTwoIsLeast` | 20250116/vector_project/src/vector.rs:33-34 | no power of two that is at least `h` is smaller than `NextPowerOfTwo(h)` |
| `PowersOfTwo.PowersOfTwoAreSpread` | 20250116/vector_project/src/vector.rs:33-34 | of two powers of two, if `p / 2 < q` then `p <= q` (the step behind leastness) |
| `PowersOfTwo.DoubleIsPowerOfTwo` | 20250116/vector_project/src/vector.rs:72 | doubling a power-of-two capacity gives a power of two |
| `PowersOfTwo.HalfIsPowerOfTwo` | 20250116/vector_project/src/vector.rs:117 | halving a power-of-two capacity of at least 2 gives a power of two, with no remainder |
| `PowersOfTwo.PowerOfTwoAbove16` | 20250116/vector_project/src/vector.rs:116 | a power-of-two capacity above 16 is at least 32 and divisible by 4 |
| `VectorModel.InitialCapacity` | 20250116/vector_project/src/vector.rs:31-37 | hint 0 gives 16; any other hint gives a power of two at least the hint whose half is below the hint |
| `VectorModel.InitialCapacityIsLeast` | 20250116/vector_project/src/vector.rs:33-34 | for a non-zero hint, the initial capacity is the smallest power of two at least the hint |
| `VectorModel.SmallHintHasNoFloor` | 20250116/vector_project/src/vector.rs:32-37 | a hint of 5 gives capacity 8 and a hint of 1 gives capacity 1: there is no minimum of 16 |
| `VectorModel.GrowthMakesRoom` | 20250116/vector_project/src/vector.rs:71-73 | after growth the new element fits and the capacity is a power of two; the capacity changes iff `size == capacity` |
| `VectorModel.PopShrinksSafely` | 20250116/vector_project/src/vector.rs:115-118 | after a pop the elements fit and the capacity stays a power of two and does not grow; it drops below 16 only if it already was below 16; it shrinks iff new size `<= capacity/4` and capacity `> 16` |
| `VectorModel.DeleteNeverShrinks` | 20250116/vector_project/src/vector.rs:136-139 | after a delete the elements fit and the capacity stays a power of two and never decreases; it grows iff new size `<= capacity/4` and capacity `> 16` |
| `VectorModel.InsertAtShifts` | 20250116/vector_project/src/vector.rs:90-96 | insertion puts `v` at `index`, keeps earlier elements, and moves each later element one position right |
| `VectorModel.DeleteAtShifts` | 20250116/vector_project/src/vector.rs:129-134 | deletion keeps earlier elements and moves each later element one position left |
| `VectorModel.ShiftedRightIsInsertAt` | 20250116/vector_project/src/vector.rs:90-97 | a buffer prefix that is `s` before `index`, `v` at `index` and `s` shifted right after it is exactly `InsertAt(s, index, v)` |
| `VectorModel.ShiftedLeftIsDeleteAt` | 20250116/vector_project/src/vector.rs:129-134 | a buffer prefix that is `s` before `index` and `s` shifted left from `index` on is exactly `DeleteAt(s, index)` |
| `VectorModel.InsertAtAddsOne` | 20250116/vector_project/src/vector.rs:80-98 | insertion adds exactly one occurrence of the item to the multiset of elements |
| `VectorModel.DeleteAtRemovesOne` | 20250116/vector_project/src/vector.rs:124-140 | deletion removes exactly one occurrence of the deleted element from the multiset |
| `VectorModel.DeleteUndoesInsert` | 20250116/vector_project/src/vector.rs:80-140 | deleting at the position just inserted at restores the elements |
| `VectorModel.InsertUndoesDelete` | 20250116/vector_project/src/vector.rs:80-140 | re-inserting a deleted element at its position restores the elements |
| `VectorModel.InsertAtFront` | 20250116/vector_project/src/vector.rs:101-103 | inserting at position 0 puts the item in front of all elements |
| `VectorModel.WithoutRemovesAll` | 20250116/vector_project/src/vector.rs:143-154 | no occurrence of the removed item remains |
| `VectorModel.WithoutKeepsOthers` | 20250116/vector_project/src/vector.rs:143-154 | every other value keeps its number of occurrences |
| `VectorModel.WithoutLength` | 20250116/vector_project/src/vector.rs:143-154 | the length drops by exactly the number of occurrences of the item |
| `VectorModel.WithoutDistributes` | 20250116/vector_project/src/vector.rs:143-154 | filtering a concatenation filters each part in turn, so the survivors keep their relative order |
| `VectorModel.WithoutOfAbsent` | 20250116/vector_project/src/vector.rs:143-154 | removing an absent item leaves the elements as they are |
| `VectorModel.WithoutIsIdempotent` | 20250116/vector_project/src/vector.rs:143-154 | removing an item twice is the same as removing it once |
| `VectorModel.RemovalStep` | 20250116/vector_project/src/vector.rs:147-153 | one step of the scan: deleting a match at `i` without advancing, or advancing past a non-match, preserves "kept prefix + filtered rest" |
| `Vectors.Vector.constructor` | 20250116/vector_project/src/vector.rs:31-42 | a fresh buffer of `InitialCapacity(hint)` slots, size 0, no elements |
| `Vectors.Vector.Size` | 20250116/vector_project/src/vector.rs:45-47 | the number of live elements |
| `Vectors.Vector.Capacity` | 20250116/vector_project/src/vector.rs:50-52 | the buffer length, a power of two at least the number of elements |
| `Vectors.Vector.IsEmpty` | 20250116/vector_project/src/vector.rs:55-57 | true iff there are no elements |
| `Vectors.Vector.At` | 20250116/vector_project/src/vector.rs:60-66 | fails iff `index >= size`; otherwise returns the element at `index`; reads only |
| `Vectors.Vector.Resize` | 20250116/vector_project/src/vector.rs:168-182 | a fresh buffer of the new capacity holding the same elements in the same order, same size |
| `Vectors.Vector.Push` | 20250116/vector_project/src/vector.rs:69-77 | elements become `old + [item]`, size grows by 1, capacity doubles iff the buffer was full |
| `Vectors.Vector.Insert` | 20250116/vector_project/src/vector.rs:80-98 | fails with no change iff `index >= size` (including `index == size`); otherwise elements become `old[..index] + [item] + old[index..]` and capacity follows the push rule |
| `Vectors.Vector.Prepend` | 20250116/vector_project/src/vector.rs:101-103 | fails with no change iff the vector is empty; otherwise elements become `[item] + old` |
| `Vectors.Vector.Pop` | 20250116/vector_project/src/vector.rs:106-121 | `None` with no change iff empty; otherwise returns the last element, drops it, and halves capacity iff new size `<= capacity/4` and capacity `> 16` |
| `Vectors.Vector.Delete` | 20250116/vector_project/src/vector.rs:124-140 | fails with no change iff `index >= size`; otherwise elements become `old[..index] + old[index+1..]`, size drops by 1, and capacity doubles iff new size `<= capacity/4` and capacity `> 16` |
| `Vectors.Vector.Remove` | 20250116/vector_project/src/vector.rs:143-154 | terminates; elements become `old` with every occurrence of the item filtered out, others in order; capacity never decreases; nothing changes when the item is absent |
| `Vectors.Vector.Find` | 20250116/vector_project/src/vector.rs:157-165 | `-1` iff the item is absent; otherwise the smallest index holding the item; reads only |
| `Vectors.BuildScenario` | 20250116/vector_project/src/vector.rs:197-218 | the unit test's construction, pushes, insert and prepend give `[5, 10, 15, 20]` at capacity 16, each intermediate assertion of the test holding |
| `Vectors.VectorOperationsScenario` | 20250116/vector_project/src/vector.rs:220-233 | the unit test's pop, delete, find and remove, continuing from `BuildScenario`: pop returns 20, `find(15)` is 1 and then -1, and one element (10) remains |
| `Vectors.PushThenPop` | 20250116/vector_project/src/vector.rs:69-121 | a push followed at once by a pop returns the pushed value and restores the previous elements and size |

## Left out

- Allocation and deallocation (`alloc`, `dealloc`, `Layout::array(...).unwrap()`) and allocation failure: a buffer is a freshly allocated Dafny array, and a garbage-collected model has nothing to release.
- `Drop` (lines 186-190): releasing the buffer exactly once has no counterpart in a garbage-collected model.
- `usize` overflow: sizes and capacities are unbounded `nat`s. The model does not capture the overflow of `next_power_of_two` for huge hints, or of `capacity * 2` in `push`, `insert` and `delete`. `find` returns an unbounded `int` where the source returns `isize`.
- The contents of the buffer slots beyond `size`: the model states nothing about them.
- Vectors.Vector.Resize: requires the new capacity to be a power of two that holds the elements. The source's private `resize` does not check this; its four callers (`push`, `insert`, `pop` and `delete`) always pass such a value.
- Vectors.Vector.Remove: states that the capacity does not decrease, rather than the exact capacity reached after the sequence of deletions.
- The panics of `at`, `insert` and `delete` become failure outcomes that change nothing, rather than aborting the program.
- `main.rs`: a demonstration driver that only prints.
