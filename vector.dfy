/**
 * `vector_lib::Vector<T, Allocator>`: a growable, contiguous, index-addressed
 * container owning one block of `capacity` slots, of which the first `size`
 * hold live elements.
 *
 * The block is an `array<Slot<T>>`. Constructing an element in a slot through
 * the allocator writes `Live(v)` there; destroying it writes `Vacant`. So the
 * object invariant can say what the C++ code only assumes: slots `[0, size)`
 * are live and slots `[size, capacity)` are not.
 */
module VectorLib {
  import VectorModel

  /** One slot of the raw block: constructed (live) or not. */
  datatype Slot<T> = Vacant | Live(value: T)

  class Vector<T> {
    // public view of the vector: its live elements, in index order
    ghost var Elements: seq<T>

    // the fields of the C++ class
    var data: array<Slot<T>>
    var size: nat
    var capacity: nat

    /** The abstract value, as the callers of the C++ class observe it. */
    ghost function Model(): VectorModel.Model<T>
      reads this
    {
      VectorModel.Model(Elements, capacity)
    }

    /** The object invariant: the fields represent `Elements` and the capacity policy holds. */
    ghost predicate Valid()
      reads this, data
    {
      VectorModel.Valid(Model()) &&
      |Elements| == size && data.Length == capacity &&
      (forall i :: 0 <= i < size ==> data[i] == Live(Elements[i])) &&
      (forall i :: size <= i < capacity ==> data[i] == Vacant)
    }

    /** `Vector() noexcept = default`: no block, no elements. */
    constructor ()
      ensures Valid() && fresh(data)
      ensures Model() == VectorModel.Initial()
    {
      Elements := [];
      data := new Slot<T>[0];
      size := 0;
      capacity := 0;
    }

    /** `empty()` */
    method Empty() returns (b: bool)
      requires Valid()
      ensures b <==> Elements == []
    {
      b := size == 0;
    }

    /** `size()` */
    method Size() returns (n: nat)
      requires Valid()
      ensures n == |Elements|
    {
      n := size;
    }

    /** `capacity()`: never below the size, and 0 or a power of two. */
    method Capacity() returns (c: nat)
      requires Valid()
      ensures c == Model().capacity
      ensures c >= |Elements|
      ensures c == 0 || VectorModel.IsPowerOfTwo(c)
    {
      c := capacity;
    }

    /** `operator[](index)`, read through the returned reference; unchecked, so `index < size` is the caller's duty. */
    method Get(index: nat) returns (x: T)
      requires Valid() && index < |Elements|
      ensures x == Elements[index]
    {
      x := data[index].value;
    }

    /** `operator[](index) = x`: assignment through the returned reference changes that element only. */
    method Set(index: nat, x: T)
      requires Valid() && index < |Elements|
      modifies this, data
      ensures Valid() && data == old(data)
      ensures Model() == VectorModel.Model(old(Elements)[index := x], old(capacity))
    {
      data[index] := Live(x);
      Elements := Elements[index := x];
    }

    /** Both `push_back` overloads: copy and move construct the same value here. */
    method PushBack(x: T)
      requires Valid()
      modifies this, data
      ensures Valid()
      ensures Model() == VectorModel.Push(old(Model()), x)
      ensures old(size) < old(capacity) ==> data == old(data)
      ensures old(size) == old(capacity) ==> fresh(data)
    {
      if size == capacity {
        ghost var moves := Grow();
      }
      data[size] := Live(x);
      Elements := Elements + [x];
      size := size + 1;
    }

    /**
     * `push_back(v[index])` as the header runs it: the argument is a reference
     * into the block, `grow` runs first when the vector is full, and only then is
     * the referenced slot read. Returns that slot as `push_back` would find it,
     * and stops there: when the vector was full the slot has been destroyed and
     * its block released, so constructing from it is undefined behaviour.
     */
    method PushBackElementAsWritten(index: nat) returns (source: Slot<T>)
      requires Valid() && index < |Elements|
      modifies this, data
      ensures Valid() && Elements == old(Elements)
      ensures capacity == if old(size) == old(capacity) then VectorModel.GrownCapacity(old(capacity)) else old(capacity)
      ensures old(size) < old(capacity) ==> source == Live(old(Elements)[index])
      ensures old(size) == old(capacity) ==> source == Vacant
    {
      var block := data;
      if size == capacity {
        ghost var moves := Grow();
      }
      source := block[index];
    }

    /**
     * `push_back(v[index])` as evidently intended: the element is read before any
     * growth, so the vector ends with its old elements followed by a copy of
     * element `index`, whether or not it had to grow.
     */
    method PushBackElement(index: nat)
      requires Valid() && index < |Elements|
      modifies this, data
      ensures Valid()
      ensures Model() == VectorModel.Push(old(Model()), old(Elements)[index])
      ensures Elements[|Elements| - 1] == Elements[index]
    {
      var x := data[index].value;
      PushBack(x);
    }

    /** `clear()`: destroys the live elements in index order and keeps the block. */
    method Clear()
      requires Valid()
      modifies this, data
      ensures Valid() && data == old(data)
      ensures Model() == VectorModel.Clear(old(Model()))
      ensures forall i :: 0 <= i < data.Length ==> data[i] == Vacant
    {
      var i := 0;
      while i < size
        invariant 0 <= i <= size
        invariant unchanged(this)
        invariant forall j :: 0 <= j < i ==> data[j] == Vacant
        invariant forall j :: i <= j < size ==> data[j] == Live(Elements[j])
        invariant forall j :: size <= j < capacity ==> data[j] == Vacant
      {
        data[i] := Vacant;
        i := i + 1;
      }
      size := 0;
      Elements := [];
    }

    /**
     * The private `grow()`: allocate a block of the grown capacity, move each
     * live element to the same index of the new block in index order, destroying
     * it in the old block, then adopt the new block. The elements are unchanged.
     * `moves` counts the elements relocated: one per live element.
     */
    method Grow() returns (ghost moves: nat)
      requires Valid()
      modifies this, data
      ensures Valid() && fresh(data)
      ensures moves == old(size)
      ensures Elements == old(Elements) && size == old(size)
      ensures capacity == VectorModel.GrownCapacity(old(capacity))
      ensures forall i :: 0 <= i < old(data).Length ==> old(data)[i] == Vacant
    {
      var newCapacity := VectorModel.GrownCapacity(capacity);
      var newData := new Slot<T>[newCapacity](_ => Vacant);
      var i := 0;
      moves := 0;
      while i < size
        invariant 0 <= i <= size
        invariant moves == i
        invariant unchanged(this)
        invariant forall j :: 0 <= j < i ==> newData[j] == Live(Elements[j]) && data[j] == Vacant
        invariant forall j :: i <= j < newCapacity ==> newData[j] == Vacant
        invariant forall j :: i <= j < size ==> data[j] == Live(Elements[j])
        invariant forall j :: size <= j < capacity ==> data[j] == Vacant
      {
        newData[i] := data[i];
        data[i] := Vacant;
        moves := moves + 1;
        i := i + 1;
      }
      data := newData;
      capacity := newCapacity;
    }
  }

  /**
   * `v.push_back(v[0])` on a vector of size 1 and capacity 1: the slot the
   * argument refers to is already destroyed when `push_back` reads it.
   */
  method SelfPushOnFullVector<T>(x: T) returns (source: Slot<T>)
    ensures source == Vacant
  {
    var v := new Vector<T>();
    v.PushBack(x);
    source := v.PushBackElementAsWritten(0);
  }

  /**
   * A caller appending each of `xs` in turn, as the growth test does with 0..99:
   * the vector ends up holding its old elements followed by `xs`.
   */
  method PushEach<T>(v: Vector<T>, xs: seq<T>)
    requires v.Valid()
    modifies v, v.data
    ensures v.Valid()
    ensures v.Model() == VectorModel.PushAll(old(v.Model()), xs)
    ensures v.Elements == old(v.Elements) + xs
  {
    var i := 0;
    while i < |xs|
      invariant 0 <= i <= |xs|
      invariant v.Valid()
      invariant v.data == old(v.data) || fresh(v.data)
      invariant VectorModel.PushAll(v.Model(), xs[i..]) == VectorModel.PushAll(old(v.Model()), xs)
    {
      assert xs[i..][1..] == xs[i + 1..];
      v.PushBack(xs[i]);
      i := i + 1;
    }
    assert xs[i..] == [];
  }
}
