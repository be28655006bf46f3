# A verified model of `vector.h`

`vector.h` implements a dynamic array in two layers. `RawMemory<T>` owns a block of
`capacity_` slots that is allocated once and never resized. The only ways to move a
block between owners are `Swap` and the move operations. `Vector<T>` owns one
`RawMemory<T>` and a `size_`. The slots `[0, size_)` hold the live elements. It
implements `Reserve`, `EmplaceBack`/`PushBack` (growth by doubling), `PopBack`,
`Resize`, `Emplace`/`Insert` (an in-place shift path and a grow-and-relocate path),
`Erase`, copy and move construction and assignment, and `Swap`.

The project has three modules.

- `VectorModel` (vector_model.dfy) gives the abstract semantics. A state is
  `State(elems, cap)`: the live elements and the capacity. Each public operation is
  one function on states (`Reserve`, `EmplaceBack`, `PopBack`, `Emplace`, `Erase`,
  `Resize`, `CopyAssign`). Lemmas state what the operations promise about each other:
  erase undoes insert, pop undoes push, reserve is idempotent, self-assignment is a
  no-op, and pushing `n` values appends exactly those values after about log2(n)
  reallocations.
- `VectorImpl` (vector_impl.dfy) holds the two classes. `RawMemory` keeps an
  `array<T>` buffer and a `capacity`. `Vector` keeps a `const data: RawMemory<T>` and a
  `size`. It also keeps a ghost `Elements` (the live prefix `data.buffer[..size]`) and
  a ghost footprint `Repr`. `Valid()` requires `size <= capacity == buffer.Length`.
  The abstract state of a vector is `Model() == State(Elements, capacity)`. Each
  method for an operation that has a `VectorModel` function (`Reserve`,
  `EmplaceBack`, `PushBack`, `PopBack`, `Resize`, `Emplace`, `Insert`, `Erase`,
  `Assign`) is proved to move that state exactly as the function says. `Set`,
  `Swap`, `MoveAssign` and the constructors state their new `Model()` directly in
  their own `ensures`.
  The element loops of the source are helper methods with loop invariants:
  `Relocate` (`uninitialized_move_n`/`copy_n`), `Fill`
  (`uninitialized_value_construct_n`), `MoveBackward` (`move_backward`) and
  `MoveLeft` (`std::move` over a range).
- `VectorScenarios` (vector_scenarios.dfy) holds client code that uses only the
  contracts. It builds a vector by pushes, and runs a push/insert/erase/resize
  sequence, an insertion of the vector's own element on both insert paths, copy
  assignment into larger and smaller buffers, and move followed by swap.

Modelling conventions:

- Iterators and pointers into the buffer are indices.
- Value-initialisation `T()` is an explicit parameter `value` of `Resize` and of the
  sized constructor.
- `size_t` is unbounded `nat`.
- A slot at or beyond `size` holds whatever value was last written there. Only the
  live prefix belongs to the contents.

Where the code departs from the usual meaning of an operation, the model follows the code:

- `Resize` growth fills the slots up to the capacity and sets the size to the
  capacity (vector.h:242-243). The usual resize semantics fill only the newly
  exposed slots and make the size exactly the requested one. See Findings.
- The branch `Capacity() == 0` of `Emplace` (vector.h:270-275) is unreachable: an
  empty buffer holds no elements, so `pos == cend()` and the first branch runs. The
  model proves this with `assert false` in that branch.
- `RawMemory`'s move assignment only swaps (vector.h:27-31). The moved-from owner
  receives the target's old block rather than being left empty.

## Model

| member | source | states |
|---|---|---|
| `VectorModel.InsertAt` | vector.h:309-315 | insertion at p: one element longer; below p the old elements, at p the new value, above p the old elements shifted up by one |
| `VectorModel.RemoveAt` | vector.h:319-323 | removal at p: one element shorter; below p unchanged, from p on every element is its old successor |
| `VectorModel.NextCapacity` | vector.h:210-235 | capacity after adding one element: 1 when there is no buffer, exactly twice the capacity when the buffer is full, unchanged when there is room; so always room for the element and never shrinking |
| `VectorModel.Reserve` | vector.h:194-206 | elements unchanged; new capacity at least n and at least the old one, and equal to one of the two (exactly n when it grows) |
| `VectorModel.EmplaceBack` | vector.h:209-236 | invariant kept; contents are the old ones followed by v; new capacity 1 from 0, doubled when full, unchanged when there was room |
| `VectorModel.PopBack` | vector.h:259-262 | invariant kept; capacity unchanged; appending the old last element gives back the old contents |
| `VectorModel.Emplace` | vector.h:265-317 | invariant kept; one element longer; below p the old elements, at p the value, above p the old elements shifted up by one; new capacity 1 from 0, doubled when full, unchanged when there was room |
| `VectorModel.Erase` | vector.h:319-324 | invariant kept; capacity unchanged; one element shorter; below p unchanged, from p on every element is its old successor |
| `VectorModel.Resize` | vector.h:238-249 | as written: n <= size keeps old[..n] at the same capacity (no-op for n == size); growth reserves n, keeps old elements, fills with the value up to the capacity and makes size == capacity |
| `VectorModel.ResizeExact` | vector.h:238-249 | corrected Resize: size becomes exactly n, old prefix kept, new slots hold the value, capacity as Reserve(n) |
| `VectorModel.CopyAssign` | vector.h:119-145 | contents become the source's; capacity is the Reserve(|src|) capacity (reallocate to exactly |src| only when it exceeds the capacity) |
| `VectorModel.PushAll` | vector.h:251-257 | a sequence of PushBack calls keeps Size() <= Capacity() |
| `VectorModel.EmplaceAtEnd` | vector.h:267-268 | Emplace at end() is EmplaceBack, capacity included |
| `VectorModel.EraseUndoesEmplace` | vector.h:265-324 | Erase at the index Insert returned restores the original sequence; capacity stays as the insertion left it |
| `VectorModel.PopBackUndoesEmplaceBack` | vector.h:209-262 | PopBack after PushBack restores the contents and keeps the grown capacity |
| `VectorModel.ReserveIdempotent` | vector.h:194-195 | Reserve(n) twice equals once; Reserve(n) with n <= capacity changes nothing |
| `VectorModel.SelfAssignIsNoOp` | vector.h:119-120 | assigning a vector its own contents changes nothing |
| `VectorModel.ResizeAgreesUnlessSpareCapacity` | vector.h:240-243 | Resize as written equals the corrected Resize whenever n <= size or capacity <= n |
| `VectorModel.ResizeOvershootsOnSpareCapacity` | vector.h:240-243 | for every state with size < n < capacity, Resize as written leaves capacity elements, more than n, and so differs from the corrected Resize |
| `VectorModel.ResizeOvershoots` | vector.h:242-243 | three pushes and two pops reach size 1 with capacity 4; Resize(2) then gives 4 elements where the corrected Resize gives 2 |
| `VectorModel.PushAllAppends` | vector.h:251-257 | PushBack of xs in order appends exactly xs |
| `VectorModel.PushAllGrowth` | vector.h:209-230 | after n > 0 pushes on an empty vector the capacity is 2^(k-1), lies in [n, 2n), and k (the number of reallocations) is at least 1; no pushes leave capacity 0 |
| `VectorImpl.Relocate` | vector.h:197-205 | count elements of the source buffer land at the target offset; every other target slot is unchanged |
| `VectorImpl.Fill` | vector.h:242 | the count slots from the offset hold the value; the rest of the buffer is unchanged |
| `VectorImpl.MoveBackward` | vector.h:312 | the range [first, last) ends up one slot to the right; all other slots unchanged |
| `VectorImpl.MoveLeft` | vector.h:320 | the range [first+1, last) ends up one slot to the left; all other slots unchanged |
| `VectorImpl.RawMemory.constructor` | vector.h:15-18 | a fresh block of exactly the requested capacity |
| `VectorImpl.RawMemory.Take` | vector.h:24-26 | move construction: takes the other's block and capacity; the other is left with an empty block of capacity 0 |
| `VectorImpl.RawMemory.MoveAssign` | vector.h:27-31 | move assignment exchanges blocks and capacities with the source |
| `VectorImpl.RawMemory.Capacity` | vector.h:69-71 | the capacity is the length of the block |
| `VectorImpl.RawMemory.Get` | vector.h:47-54 | slot access is defined only for index < capacity, and yields that slot |
| `VectorImpl.RawMemory.Put` | vector.h:51-54 | writing through operator[] changes that slot only; index < capacity |
| `VectorImpl.RawMemory.Swap` | vector.h:56-59 | blocks and capacities are exchanged, also for a swap with itself |
| `VectorImpl.Vector.constructor` | vector.h:99 | default construction: no elements, capacity 0 |
| `VectorImpl.Vector.Sized` | vector.h:100-104 | n value-initialised elements in a buffer of exactly n slots |
| `VectorImpl.Vector.Copy` | vector.h:106-110 | the same elements as the source in a buffer of exactly Size() slots |
| `VectorImpl.Vector.Moved` | vector.h:112-116 | takes the other's elements and capacity; the other is left empty with capacity 0 |
| `VectorImpl.Vector.Size` | vector.h:172-174 | Size() is the number of live elements and never exceeds the capacity |
| `VectorImpl.Vector.Capacity` | vector.h:176-178 | Capacity() is the buffer length and is at least the number of live elements |
| `VectorImpl.Vector.Get` | vector.h:180-187 | indexing requires index < Size() and yields the element at that index |
| `VectorImpl.Vector.Set` | vector.h:184-187 | writing through operator[] replaces that element only; no reallocation |
| `VectorImpl.Vector.Swap` | vector.h:189-192 | contents and capacities are exchanged; the footprints stay disjoint |
| `VectorImpl.Vector.MoveAssign` | vector.h:147-151 | move assignment exchanges contents and capacities with the source |
| `VectorImpl.Vector.Assign` | vector.h:119-145 | copy assignment moves the state as CopyAssign says; the source is unchanged; self-assignment is a no-op |
| `VectorImpl.Vector.Reserve` | vector.h:194-206 | state moves as VectorModel.Reserve; when n <= capacity the very same buffer is kept |
| `VectorImpl.Vector.EmplaceBack` | vector.h:208-236 | state moves as VectorModel.EmplaceBack; the returned index is the new last element, which holds v; with room the buffer is kept |
| `VectorImpl.Vector.PushBack` | vector.h:251-257 | state moves as VectorModel.EmplaceBack |
| `VectorImpl.Vector.PopBack` | vector.h:259-262 | requires a live element; state moves as VectorModel.PopBack; same buffer |
| `VectorImpl.Vector.Resize` | vector.h:238-249 | state moves as VectorModel.Resize (as written) |
| `VectorImpl.Vector.InsertGrowing` | vector.h:276-308 | with the buffer full: contents become the old ones with v inserted at pos, in a fresh buffer of twice the capacity |
| `VectorImpl.Vector.InsertShifting` | vector.h:309-315 | with room in the buffer: contents become the old ones with v inserted at pos, in the same buffer and with the same capacity |
| `VectorImpl.Vector.Emplace` | vector.h:264-317 | state moves as VectorModel.Emplace on both paths; returns the index it was given; with room the buffer is kept |
| `VectorImpl.Vector.Insert` | vector.h:326-339 | state moves as VectorModel.Emplace; returns the index it was given |
| `VectorImpl.Vector.Erase` | vector.h:319-324 | requires index < Size(); state moves as VectorModel.Erase; returns the index; same buffer |
| `VectorScenarios.FromSequence` | vector.h:251-257 | pushing xs into a new vector yields contents xs and the PushAll state |
| `VectorScenarios.PushThree` | vector.h:208-236 | three pushes on an empty vector give capacity 4 (0, 1, 2, then 4 by doubling) |
| `VectorScenarios.PushInsertEraseResize` | vector.h:238-324 | push 1,2,3; insert 9 at 1; erase 0; resize 1; resize 4 gives [9,d,d,d] with size 4 and capacity 4 |
| `VectorScenarios.ResizeFillsSpareCapacity` | vector.h:238-249 | on the class: size 1 with capacity 4, then Resize(2), gives size 4 |
| `VectorScenarios.InsertOwnElementInPlace` | vector.h:326-333 | inserting the vector's own element on the shift path inserts its old value |
| `VectorScenarios.InsertOwnElementGrowing` | vector.h:276-307 | the same on the grow path, where capacity doubles from 2 to 4 |
| `VectorScenarios.CopyIntoLarger` | vector.h:125-131 | copy assignment from a smaller vector keeps the capacity |
| `VectorScenarios.CopyIntoSmaller` | vector.h:121-124 | copy assignment from a larger vector reallocates to exactly its size |
| `VectorScenarios.MoveThenSwap` | vector.h:112-116 | the moved-from vector is empty; Swap exchanges contents and capacity |

## Left out

- Raw memory mechanics are not modelled: `operator new`/`operator delete`, placement
  `new`, destructor calls, `Destroy`, `DestroyN`, `CopyConstruct`, `std::destroy_n`
  and the destructors of both classes. Object lifetime has no counterpart here. A
  destroyed slot is simply outside the live prefix.
- `RawMemory::operator+` and `GetAddress`: pointer arithmetic becomes index
  arithmetic. The bound assertion `offset <= capacity_` holds at every use, because
  Dafny checks every array index and slice in the model.
- `begin`/`end`/`cbegin`/`cend` and the const/`const_cast` overloads: positions are
  indices.
- The `if constexpr` choice between moving and copying during relocation: both
  choices give the same contents, so one helper (`Relocate`) stands for both.
- Exceptions and allocation failure are not modelled, so the strong guarantees are
  not stated. This also leaves out a defect in the grow path of `Emplace`. The second
  `catch (...)` (vector.h:301-303) swallows the exception instead of rethrowing it,
  and leaves the inserted element alive. Execution then goes on to destroy the old
  elements and install a partly filled buffer.
- `Insert`'s address comparison for a value that aliases an element
  (vector.h:328-330): arguments are values here, so both branches are the same call.
  The two `InsertOwnElement` scenarios show the effect.
- `size_t` wrap-around (for example `Capacity() * 2` overflowing) is not modelled.
  Sizes are unbounded naturals.
- `VectorImpl.Vector.Swap`, `VectorImpl.Vector.MoveAssign` and
  `VectorImpl.Vector.Assign` require two distinct vectors to have disjoint
  footprints, or to be the same object. This is the exclusive ownership the source
  assumes.

## Findings

| source | as written | input that shows it | evidently intended | confidence | as-written member | corrected member |
|---|---|---|---|---|---|---|
| vector.h:242-243 | growing value-initialises `[size_, Capacity())` and sets `size_ = Capacity()` | three `PushBack(x)`, two `PopBack()` (size 1, capacity 4), then `Resize(2)`: size becomes 4 | fill `[size_, new_size)` and set `size_ = new_size` | not executed; high | `VectorModel.ResizeOvershoots` | `VectorModel.ResizeExact` |

`VectorImpl.Vector.Resize` keeps the code's behaviour because it models that code.
`VectorModel.ResizeExact` is the corrected definition. Its size property is in its
contract. `VectorModel.ResizeAgreesUnlessSpareCapacity` proves the two agree unless
spare capacity exceeds the request. `VectorModel.ResizeOvershootsOnSpareCapacity`
proves the converse: they differ on every state whose capacity exceeds the request,
which in turn exceeds the size.
