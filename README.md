# Vector: a growable array, modelled and verified in Dafny

`Vector<T>` (Vector.h) is a growable array. It owns a block of `capacity` slots, of which
the first `size` hold the live elements. A flag, `ctor_initialized`, records whether the
container was made by a filling constructor (size plus fill value, or initializer list), or
was later grown by `resize`. That flag selects how `emplace_back` grows a full block. A
filling container doubles. Any other container grows 0 to 1, then one slot at a time while
it has fewer than 8 elements, then doubles. Single-element `erase` does not shift in place.
It rebuilds the survivors into a fresh block whose capacity is the least power of two, at
least 4, that holds them. Range `erase` shifts down in place. Insertion shifts the tail up,
highest element first, and writes into the gap.

The model is the class `Vectors.Vector<T>` (vector.dfy). It has the source's four fields:
`values` (an `array?<T>`, where `null` is the null block), `size`, `capacity` and
`ctorInitialized`. Its invariant `Valid()` is `size <= capacity <= Slots()`. The ghost view
`Contents()` is the live prefix `values[..size]`. Every mutator is a method that changes
these fields and rewrites the block in place. Its `ensures` gives the new contents as a
reference edit of the old contents (edits.dfy), gives the new capacity exactly, and says
whether the block was kept or replaced by a fresh one.

The capacity policies and their properties are in growth.dfy:
- `Grown`: the growth rule of `emplace_back`.
- `ErasedCapacity`: the power-of-two rule of `erase`.
- `SmallestCoveringExponent`: the exponent search loop of `erase`.

The standard algorithms the source applies to its block (`std::fill`, `std::copy`,
`std::move_backward`, `std::move`) are in ranges.dfy. They are loops over an `array`.

scenarios.dfy holds clients that use only the contracts. They show:
- the capacity trace 1, 2, …, 8, 16 under appends;
- value semantics of copy, assignment, move and swap;
- the documented edit and resize sequences.

Iterator arguments are integer offsets from the first slot: `dist` for a position, `first`
and `last` for a range.

What the code does, where a reader might expect otherwise:
- The copy constructor and the iterator-range constructor leave the flag false. Only the
  fill and initializer-list constructors, and a growing `resize`, set it (Vector.h:114-133,
  136-140, 537, 551).
- The member `swap` exchanges the block, the size and the capacity, but not the flag
  (Vector.h:566-573). The move constructor and assignment are meant to do the same through
  the two-argument `swap`, but as written they do not resolve to it (see "## Left out").
- `emplace` hands over to `emplace_back` when the offset equals the capacity, not the size
  (Vector.h:323). For an offset that is at most the size, this happens only when the block
  is full and the insertion is at the end. An insertion at the end of a block that is not
  full takes the shifting branch, which shifts nothing. A full block is doubled there
  (Vector.h:331). The block is never empty in that branch, because the offset is then
  below the size.
- `erase(pos)` on an empty container changes nothing but the capacity, which becomes 0.
  When the last element is erased, the capacity also becomes 0, but the old block is kept
  (Vector.h:470-494). So the block can be longer than the capacity, and `Valid` allows it.

## Model

| member | source | states |
|---|---|---|
| `Vectors.Vector.constructor` | Vector.h:107 | the default container has no block, no elements, capacity 0, and is not filling |
| `Vectors.Vector.WithCapacity` | Vector.h:109-111 | `Vector(sz)` has a block of `sz` slots, capacity `sz`, no live element, and is not filling |
| `Vectors.Vector.Filled` | Vector.h:113-118 | `Vector(sz, v)` holds `sz` copies of `v` in a fresh block of capacity `sz`, and is filling |
| `Vectors.Vector.FromList` | Vector.h:120-125 | the initializer-list constructor holds exactly the listed elements, with that capacity, and is filling |
| `Vectors.Vector.FromRange` | Vector.h:127-133 | the range constructor holds exactly the range's elements, with that capacity, and is not filling |
| `Vectors.Vector.Copy` | Vector.h:135-140 | the copy has the source's live elements in a fresh block of exactly that many slots; its flag is false |
| `Vectors.Vector.Move` | Vector.h:157-161 | the new container takes the source's block, size, capacity and elements; the source is left with a null block, size 0 and capacity 0; flags are not exchanged |
| `Vectors.Vector.Assign` | Vector.h:149-155 | assignment from the by-value parameter swaps with it: this container gets the parameter's elements, and the parameter carries the old state away |
| `Vectors.Vector.Swap` | Vector.h:565-573 | block, size, capacity and contents are exchanged between the two containers; each flag stays with its container |
| `Vectors.Vector.Size` | Vector.h:575-579 | the size is the length of the live contents |
| `Vectors.Vector.Capacity` | Vector.h:581-585 | the capacity is never below the size |
| `Vectors.Vector.Empty` | Vector.h:587-591 | empty exactly when there is no live element |
| `Vectors.Vector.Get` | Vector.h:247-251 | unchecked indexing gives the live element at that position |
| `Vectors.Vector.At` | Vector.h:253-261 | fails with OutOfRange(n, size) exactly when `n >= size`; otherwise gives the same element as unchecked indexing |
| `Vectors.Vector.Front` | Vector.h:181-185 | the first live element of a non-empty container |
| `Vectors.Vector.Back` | Vector.h:169-173 | the last live element of a non-empty container |
| `Vectors.Vector.Elements` | Vector.h:187-221 | walking from the first position to the end position yields the live contents in order |
| `Vectors.Vector.Reallocate` | Vector.h:593-602 | the block is replaced by a fresh one of exactly `capacity` slots, and the live elements are preserved in order |
| `Vectors.Vector.EmplaceBack` | Vector.h:291-313 | appends the argument and keeps earlier elements; a full block grows to `Grown(size, flag)` in a fresh block; otherwise capacity and block are unchanged |
| `Vectors.Vector.PushBack` | Vector.h:437-441 | the same effect as `EmplaceBack` |
| `Vectors.Vector.Emplace` | Vector.h:315-346 | the contents become old[..dist] + [x] + old[dist..]; capacity follows the end-branch growth policy when `dist == capacity`, doubles a full block otherwise, and is unchanged when there is room |
| `Vectors.Vector.Insert` | Vector.h:354-358 | the single-element insert has the same effect as `Emplace` |
| `Vectors.Vector.InsertFill` | Vector.h:385-406 | the contents become old[..dist] + n copies of v + old[dist..]; capacity grows by exactly `n` iff `size + n > capacity`, and is unchanged otherwise |
| `Vectors.Vector.OpenGap` | Vector.h:397-403 | moving the tail up `n` slots and filling the gap inserts `n` copies of `v` at `dist`, in a block that already has room |
| `Vectors.Vector.PopBack` | Vector.h:449-456 | drops the last live element; capacity and block unchanged |
| `Vectors.Vector.Erase` | Vector.h:458-497 | the element at `dist` is removed and the order of the others is kept; size drops by one (an empty container stays empty); capacity becomes `ErasedCapacity(new size)`; the block is fresh unless no element remains |
| `Vectors.Vector.EraseRange` | Vector.h:499-507 | the run `[first, last)` is removed and the rest keeps its order; capacity and block unchanged |
| `Vectors.Vector.Clear` | Vector.h:509-513 | no live element remains; capacity and block unchanged |
| `Vectors.Vector.ShrinkToFit` | Vector.h:515-520 | capacity becomes the size, in a fresh block, with the contents preserved |
| `Vectors.Vector.Reserve` | Vector.h:522-530 | capacity becomes exactly `n` in a fresh block when `n` exceeds it, and otherwise nothing changes; it never shrinks; contents are preserved |
| `Vectors.Vector.Resize` | Vector.h:532-544 | size becomes `n` and the first `min(n, old size)` elements are kept; capacity becomes `n`, and the flag is set, exactly when `n` exceeds the old capacity |
| `Vectors.Vector.ResizeFill` | Vector.h:546-563 | the contents become the first `min(n, old size)` old elements followed by `v` up to size `n`; capacity and flag change as in `Resize` |
| `Vectors.Equal` | Vector.h:604-608 | equal sizes and pointwise equal elements, exactly when the live contents are equal |
| `Vectors.NotEqual` | Vector.h:610-614 | the negation of equality of the live contents |
| `Growth.GrowthMakesRoom` | Vector.h:295-309 | the grown capacity exceeds the full count exactly when the container is not filling or its count is non-zero |
| `Growth.CoverExpIsLeast` | Vector.h:475 | the erase exponent is the least `k >= 2` with `n <= 2^k` |
| `Growth.SmallestCoveringExponent` | Vector.h:473-475 | the loop that starts at 2 and steps up while `2^inc < n` stops exactly at that least exponent |
| `Growth.ErasedCapacityBounds` | Vector.h:477-480 | for `n > 0` the erase capacity is at least `n` and at least 4, and is 4 or below `2n` |
| `Ranges.Fill` | Vector.h:559 | writes `v` into every slot of the range and nowhere else |
| `Ranges.CopyPrefix` | Vector.h:598 | the first `n` slots of the new block equal those of the old one |
| `Ranges.MoveBackward` | Vector.h:399 | the run lands `shift` slots higher, with no element overwritten before it is moved; other slots are unchanged |
| `Ranges.MoveDown` | Vector.h:504 | the run after `last` lands at `first`; other slots are unchanged |
| `Edits.SpliceThenRemove` | Vector.h:336-342 | inserting a run at an offset and then removing that run gives back the original elements |
| `Edits.RemoveThenSplice` | Vector.h:486-490 | removing one element and re-inserting it at the same offset gives back the original elements |
| `Scenarios.GrowthTrace` | Vector.h:299-307 | nine appends to an empty container give capacities 1, 2, 3, 4, 5, 6, 7, 8, 16 |
| `Scenarios.FillingGrowthTrace` | Vector.h:297-298 | a container filled with 2 elements doubles to 4 and then to 8 |
| `Scenarios.AppendMany` | Vector.h:437-441 | after `k` appends to an empty container the size is `k`, and the capacity is at least `k` |
| `Scenarios.EditScenario` | Vector.h:458-497 | appending 1, 2, 3 and then erasing at offset 1 gives [1, 3]; inserting 9 at offset 1 then gives [1, 9, 3]; dropping the last element then gives [1, 9] |
| `Scenarios.InsertThenErase` | Vector.h:348-352 | an insert followed by an erase at the same offset restores the contents |
| `Scenarios.ResizeScenario` | Vector.h:546-563 | five zeros resized to 8 with value 7 give [0, 0, 0, 0, 0, 7, 7, 7] |
| `Scenarios.CopiesAreIndependent` | Vector.h:135-140 | a copy compares equal to its source, and appending to a second copy makes that copy unequal while the source is unchanged |
| `Scenarios.CopyAssign` | Vector.h:149-155 | assigning a copy leaves the target with the source's contents, and the source is unchanged |
| `Scenarios.MoveOut` | Vector.h:157-161 | after a move the destination holds the former contents, and the source is empty with capacity 0 and a null block |
| `Scenarios.SwapTwice` | Vector.h:616-624 | swapping twice restores both containers field by field |

## Left out

- Raw memory lifetime is not modelled. That covers `::operator new` in the constructors,
  `new T[]` and `delete[]` in `reallocate` and `erase`, the destructor's reverse-order `~T()`
  loop, and the mismatch between `operator new` and `delete[]`. Dafny has no placement
  construction or destruction. A block is a fresh `array`, allocated with default values.
  This is also why `T` must have a default value (`T(0)`), as `new T[n]` requires in the
  source.
- Element construction from argument packs, and the copy-versus-move choice for elements,
  are not modelled. Elements are values. `emplace_back`, `emplace` and the three
  single-element `insert` overloads take the value to store.
- Pointer iterators, reverse iterators and `data()` are not modelled, because they are views
  of the block. Positions are integer offsets. `Elements` stands for a walk from `begin()`
  to `end()`.
- The iterator range `insert(pos, first, last)` (Vector.h:411-435) is not modelled. It
  updates the size only when it grows, and it moves the wrong run, so it has no coherent
  effect on the contents to state.
- Iterator results are not modelled. This covers the results of `emplace`, `insert`, fill
  `insert` and `erase`, and the references returned by `emplace_back`. Several of these
  functions fall off their end without a `return` (Vector.h:323-326, 349-364, 500-507).
- The void fill `insert` overload (Vector.h:367-383) is not modelled separately. It has the
  same effect as the one that returns an iterator, which `InsertFill` models.
- `std::size_t` arithmetic is unbounded in the model. Overflow when doubling a capacity near
  2^64 is not modelled. Nor is the wrap-around of `--v_size` on an empty container, which is
  excluded by `PopBack`'s precondition.
- `erase`'s exponent search uses the floating-point `pow`. It is modelled as an exact integer
  power of two.
- The `out_of_range` message text is not modelled. `At` returns the index and the size it
  would report.
- `pop_back` and `clear` do not destroy elements in the source. The model has nothing to
  destroy, so neither does it.
- Vectors.Vector.EmplaceBack: requires `!ctorInitialized || capacity > 0`. A filling
  container with capacity 0, such as `Vector(0, v)`, doubles 0 to 0 and then writes one slot
  past its block. `PushBack`, `Emplace` and `Insert` carry the same precondition, because
  they reach `emplace_back`.
- Vectors.Vector.Emplace: requires `dist <= size`. Positions past the end are outside the
  source's contract. `Insert` and `InsertFill` carry the same precondition.
- Vectors.Vector.Erase: requires `size == 0 || dist < size`. On a non-empty container, an
  offset at or past the end is tolerated on purpose (Vector.h:464-466): the copy loop skips
  nothing and writes all `size` old elements into the new block. When the new size is not a
  power of two of at least 4, the block has room, and the effect is to drop the last element:
  `[1, 2, 3]` erased at offset 10 becomes `[1, 2]` with capacity 4. When the new size is such
  a power of two (old size 5, 9, 17, …), the last write lands one slot past the new block.
  Neither out-of-range case is modelled.
- Vectors.Vector.Filled, Vectors.Vector.FromList, Vectors.Vector.FromRange, Vectors.Vector.Copy:
  allocate the intended number of slots (`sz`, the list length, the range length, the source
  size). As written, `values` is declared before `v_size` and `v_capacity` (Vector.h:13-15),
  so these constructors' member initialisers evaluate `::operator new` with sizes read from
  members that are not initialised yet (Vector.h:114-115, 121-122, 129-130, 136-137). The
  block they get is of unspecified size; the model does not reproduce that defect.
- Vectors.Vector.Move, Vectors.Vector.Assign: follow the copy-and-swap intent, exchanging the
  block, the size and the capacity but not the flag, as the two-argument `swap`
  (Vector.h:616-624) does. As written, the unqualified `swap(*this, x)` (Vector.h:152, 160)
  finds the one-argument member `swap` (Vector.h:86) by class-scope lookup, which hides the
  friend, so both are ill-formed once instantiated. The friend declaration (Vector.h:100)
  also declares a non-template function, which the function template at Vector.h:616-624
  does not define, and that template is not a friend, so it could not read the private
  members either.
- Vectors.Vector.Resize: states only the kept prefix of the contents. Slots exposed beyond
  the old size hold whatever the block held, which is either default values after a
  reallocation or stale elements, and nothing is promised about them.
