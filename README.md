# vector-lib in Dafny

A model of `vector_lib::Vector<T, Allocator>`, a growable, contiguous,
index-addressed container. It owns one block of `capacity` slots. The first
`size` slots hold live elements. When an append finds the block full, the
private `grow` doubles the block (or allocates 1 slot for an empty vector) and
moves every element to the same index of the new block.

Two modules:

- `VectorModel` (vector_model.dfy) is the abstract state: the live elements
  and the capacity. It holds the growth policy, what `push_back` and `clear` do
  to that state, and lemmas about sequences of appends. These cover element
  order, the power-of-two capacity, and the amortised cost of relocation.
- `VectorLib` (vector.dfy) is the class itself. It has the C++ fields `data`,
  `size` and `capacity`. The raw block is an `array<Slot<T>>`. Constructing an
  element through the allocator writes `Live(v)` into a slot, and destroying it
  writes `Vacant`. The object invariant `Valid()` therefore states that slots
  `[0, size)` are live and slots `[size, capacity)` are not. Each mutating
  method ties the new abstract value to a `VectorModel` function of the old
  one.

What `vector.hpp` does not define is not modelled:

- The tests (tests/vector_test.cpp:75-153, 164-178) use copy and move
  construction, copy and move assignment and self-assignment. `vector.hpp`
  defines none of these.
- `grow` moves each element unconditionally and destroys the old one straight
  after (include/vector_lib/vector.hpp:84-87). It has no rollback path.

## Model

| member | source | states |
|---|---|---|
| `VectorModel.GrownCapacity` | include/vector_lib/vector.hpp:81 | growth always enlarges the block; an empty block grows to 1 slot; a non-empty block exactly doubles; a capacity of 0 or a power of two stays a power of two |
| `VectorModel.Initial` | include/vector_lib/vector.hpp:97-99 | a default-constructed vector has no elements, capacity 0, and satisfies the representation invariant |
| `VectorModel.Push` | include/vector_lib/vector.hpp:48-62 | `push_back` keeps the invariant; size grows by exactly one; the new value sits at the old size index; every earlier element keeps its index and value; capacity changes exactly when size equalled capacity, and then to the grown capacity |
| `VectorModel.Clear` | include/vector_lib/vector.hpp:64-69 | `clear` keeps the invariant, leaves no element, keeps the capacity, and that capacity is at least the old size |
| `VectorModel.PushAll` | include/vector_lib/vector.hpp:48-62 | appending a sequence of values keeps the invariant; the elements become the old ones followed by the values in order; capacity never shrinks |
| `VectorModel.PushAllKeepsTight` | include/vector_lib/vector.hpp:49-51 | if the vector is empty with no block, or more than half full, appending keeps it so |
| `VectorModel.PushAllFromInitial` | tests/vector_test.cpp:46-55 | after n appends to a new vector, element i is the i-th value appended; capacity is 0 for n = 0, and otherwise a power of two with n <= capacity < 2n |
| `VectorModel.RelocationsMatchGrowth` | include/vector_lib/vector.hpp:80-95 | each element that `grow` relocates adds exactly one slot of capacity, except for the first 0-to-1 growth |
| `VectorModel.AppendIsAmortizedConstant` | include/vector_lib/vector.hpp:81-87 | filling a new vector with n > 0 elements relocates fewer than 2n elements in all |
| `VectorLib.Vector.constructor` | include/vector_lib/vector.hpp:27 | a new vector is valid, owns a fresh empty block, and has no elements and capacity 0 |
| `VectorLib.Vector.Empty` | include/vector_lib/vector.hpp:37-39 | `empty()` is true exactly when there are no elements |
| `VectorLib.Vector.Size` | include/vector_lib/vector.hpp:40-42 | `size()` is the number of live elements |
| `VectorLib.Vector.Capacity` | include/vector_lib/vector.hpp:43-45 | `capacity()` is at least `size()` and is 0 or a power of two |
| `VectorLib.Vector.Get` | include/vector_lib/vector.hpp:72-77 | `operator[](i)` yields element i; `i < size()` is the caller's duty, and nothing is checked |
| `VectorLib.Vector.Set` | include/vector_lib/vector.hpp:72-74 | assigning through the reference from the non-const `operator[](i)` replaces element i only; block, size and capacity are unchanged |
| `VectorLib.Vector.PushBack` | include/vector_lib/vector.hpp:48-62 | the new state is `VectorModel.Push` of the old one; the block is kept when there was room and is a fresh block when the vector was full |
| `VectorLib.Vector.Clear` | include/vector_lib/vector.hpp:64-69 | the new state is `VectorModel.Clear` of the old one; the same block is kept, and every slot of it is destroyed |
| `VectorLib.Vector.Grow` | include/vector_lib/vector.hpp:80-95 | the vector adopts a fresh block of `GrownCapacity(old capacity)` slots; the elements and the size are unchanged, so every element keeps its index; every slot of the old block is destroyed; the loop relocates exactly `size` elements, the count `VectorModel.Relocations` adds up |
| `VectorLib.Vector.PushBackElementAsWritten` | include/vector_lib/vector.hpp:48-53 | `push_back(v[i])` in the header's order: when the vector was full, the slot the argument refers to is already destroyed when it is read; otherwise it still holds element i |
| `VectorLib.Vector.PushBackElement` | include/vector_lib/vector.hpp:48-53 | `push_back(v[i])` with the element read before growth: the new state is `VectorModel.Push` of the old one with old element i, and the last element equals element i |
| `VectorLib.SelfPushOnFullVector` | include/vector_lib/vector.hpp:49-52 | on a vector of size 1 and capacity 1, the slot `push_back(v[0])` constructs from has been destroyed |
| `VectorLib.PushEach` | tests/vector_test.cpp:46-55 | a caller that appends each value in turn ends with the old elements followed by those values, in the state `VectorModel.PushAll` gives |

## Left out

- Copy construction, copy assignment, move construction, move assignment and
  swap: `vector.hpp` does not define them, so there is nothing to model. The
  tests use them (tests/vector_test.cpp:75-153, 164-178).
- Exceptions and rollback are not modelled. Element construction and allocation
  are treated as infallible. `grow` has no rollback path in the header anyway.
- Allocator plumbing (`allocator_traits::allocate`, `deallocate`, `construct`,
  `destroy`, and the `alloc_` member) is foreign library code. Allocation is a
  fresh Dafny array, construction writes `Live(v)`, and destruction writes
  `Vacant`. Releasing the old block is dropping the reference to it.
- The destructor (include/vector_lib/vector.hpp:29-34) is not modelled. It calls
  `clear()` and then releases the block, and neither step leaves state a Dafny
  caller could observe.
- The null `data_` pointer of a vector with capacity 0 is modelled as an array of length 0.
- `VectorModel.GrownCapacity`: `size_type` is unbounded here. The wrap-around of
  `capacity_ * 2` in `std::size_t` is not modelled, since allocation would fail
  long before it.
- `VectorLib.Vector.PushBack`: the copy and move overloads construct the same
  value, so they are one method. What a move leaves in its argument is not modelled.
  The argument is taken by value. The call whose argument refers into the
  vector itself is modelled separately, by `PushBackElementAsWritten` and
  `PushBackElement` (see Findings).
- `VectorLib.Vector.Get`: returns a copy of the element. A reference from
  `operator[]` that a later `grow` invalidates is not modelled, apart from the
  `push_back` argument covered under Findings.
- `VectorLib.Vector.PushBackElementAsWritten`: constructing an element from a
  destroyed slot is undefined behaviour in C++, so this method stops after
  reading the slot and does not append.
- The `noexcept` trait checks and the test harness are not modelled.

## Findings

| source | as written | input that shows it | evidently intended | confidence | as-written member | corrected member |
|---|---|---|---|---|---|---|
| include/vector_lib/vector.hpp:48-62 | `push_back` takes a reference, calls `grow` when full (:49-50), which moves and destroys every element and releases the old block (:84-90), and only then constructs from the reference (:52, :60) | `v.push_back(v[0])` on a vector with size 1 and capacity 1 | read or copy the argument before growing, so the element is appended | high, from reading the code; not executed | `VectorLib.Vector.PushBackElementAsWritten`, `VectorLib.SelfPushOnFullVector` | `VectorLib.Vector.PushBackElement` |
