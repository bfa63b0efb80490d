/**
 * The abstract state of a `vector_lib::Vector` and the growth policy it follows.
 *
 * A vector is observed through its live elements (`size()` of them, read with
 * `operator[]`) and its `capacity()`. `Model` holds exactly those two things;
 * `Push` and `Clear` say what `push_back` and `clear` do to them, and the
 * lemmas below state what follows for any sequence of appends: the elements
 * are the values appended, in order, and the capacity is the least power of
 * two that holds them, with fewer than two relocations per append.
 */
module VectorModel {

  /** `n` is one of 1, 2, 4, 8, ... */
  predicate IsPowerOfTwo(n: nat)
    decreases n
  {
    n == 1 || (n > 1 && n % 2 == 0 && IsPowerOfTwo(n / 2))
  }

  /** The capacity `grow` installs: 1 for an empty block, otherwise twice the old one. */
  function GrownCapacity(capacity: nat): (r: nat)
    ensures r > capacity
    ensures capacity == 0 ==> r == 1
    ensures capacity > 0 ==> r == 2 * capacity
    ensures (capacity == 0 || IsPowerOfTwo(capacity)) ==> IsPowerOfTwo(r)
  {
    if capacity == 0 then 1 else capacity * 2
  }

  /** What a caller can observe of a vector: its live elements and its capacity. */
  datatype Model<T> = Model(elems: seq<T>, capacity: nat)

  /** The representation invariant: the live elements fit, and the capacity is 0 or a power of two. */
  predicate Valid<T>(m: Model<T>)
  {
    |m.elems| <= m.capacity && (m.capacity == 0 || IsPowerOfTwo(m.capacity))
  }

  /** A default-constructed vector. */
  function Initial<T>(): (r: Model<T>)
    ensures Valid(r) && |r.elems| == 0 && r.capacity == 0
  {
    Model([], 0)
  }

  /**
   * `push_back(x)`: grow when full, then construct `x` at index `size`.
   * The new element lands at the old size, earlier elements keep their
   * positions, and the capacity changes exactly when the vector was full.
   */
  function Push<T>(m: Model<T>, x: T): (r: Model<T>)
    requires Valid(m)
    ensures Valid(r)
    ensures |r.elems| == |m.elems| + 1 && r.elems[|m.elems|] == x
    ensures forall i :: 0 <= i < |m.elems| ==> r.elems[i] == m.elems[i]
    ensures r.capacity != m.capacity <==> |m.elems| == m.capacity
    ensures r.capacity != m.capacity ==> r.capacity == GrownCapacity(m.capacity)
  {
    var capacity := if |m.elems| == m.capacity then GrownCapacity(m.capacity) else m.capacity;
    Model(m.elems + [x], capacity)
  }

  /** `clear()`: no live element remains and the block, hence the capacity, is kept. */
  function Clear<T>(m: Model<T>): (r: Model<T>)
    requires Valid(m)
    ensures Valid(r) && |r.elems| == 0
    ensures r.capacity == m.capacity && r.capacity >= |m.elems|
  {
    Model([], m.capacity)
  }

  /** The effect of calling `push_back` with each of `xs` in turn. */
  function PushAll<T>(m: Model<T>, xs: seq<T>): (r: Model<T>)
    requires Valid(m)
    ensures Valid(r)
    ensures r.elems == m.elems + xs
    ensures r.capacity >= m.capacity
    decreases |xs|
  {
    if xs == [] then m else PushAll(Push(m, xs[0]), xs[1..])
  }

  /**
   * Number of element relocations `grow` performs while `xs` is appended to `m`:
   * each append that finds the vector full runs `grow`, whose loop moves `size`
   * elements (the `moves` that `VectorLib.Vector.Grow` reports).
   */
  function Relocations<T>(m: Model<T>, xs: seq<T>): nat
    requires Valid(m)
    decreases |xs|
  {
    if xs == [] then 0
    else (if |m.elems| == m.capacity then |m.elems| else 0) + Relocations(Push(m, xs[0]), xs[1..])
  }

  /**
   * A state the vector can only be in if it was filled by appends alone:
   * no block while empty, and otherwise more than half of the block is live.
   */
  predicate Tight<T>(m: Model<T>)
  {
    if m.elems == [] then m.capacity == 0 else m.capacity < 2 * |m.elems|
  }

  lemma {:induction false} PushAllKeepsTight<T>(m: Model<T>, xs: seq<T>)
    requires Valid(m) && Tight(m)
    ensures Tight(PushAll(m, xs))
    decreases |xs|
  {
    if xs != [] {
      var m' := Push(m, xs[0]);
      assert Tight(m');
      PushAllKeepsTight(m', xs[1..]);
    }
  }

  /**
   * After `push_back(x0) ... push_back(xn-1)` on a default-constructed vector,
   * element i is xi and the capacity is the least power of two holding all n
   * elements (0 when nothing was appended).
   */
  lemma {:induction false} PushAllFromInitial<T>(xs: seq<T>)
    ensures PushAll(Initial(), xs).elems == xs
    ensures |xs| == 0 ==> PushAll(Initial(), xs).capacity == 0
    ensures |xs| > 0 ==> IsPowerOfTwo(PushAll(Initial(), xs).capacity)
    ensures |xs| > 0 ==> |xs| <= PushAll(Initial(), xs).capacity < 2 * |xs|
  {
    PushAllKeepsTight(Initial(), xs);
  }

  /**
   * Every relocation `grow` performs adds one slot of capacity, except that the
   * first growth (0 to 1) relocates nothing.
   */
  lemma {:induction false} RelocationsMatchGrowth<T>(m: Model<T>, xs: seq<T>)
    requires Valid(m)
    ensures Relocations(m, xs) + m.capacity + (if m.capacity == 0 && xs != [] then 1 else 0)
            == PushAll(m, xs).capacity
    decreases |xs|
  {
    if xs != [] {
      var m' := Push(m, xs[0]);
      RelocationsMatchGrowth(m', xs[1..]);
    }
  }

  /**
   * Doubling makes appends amortised constant time: filling a default-constructed
   * vector with n > 0 elements relocates fewer than 2n of them in all.
   */
  lemma AppendIsAmortizedConstant<T>(xs: seq<T>)
    ensures xs == [] ==> Relocations(Initial(), xs) == 0
    ensures xs != [] ==> Relocations(Initial(), xs) < 2 * |xs|
  {
    RelocationsMatchGrowth(Initial(), xs);
    PushAllFromInitial(xs);
  }
}
