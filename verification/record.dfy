/**
  The metadata record kept in front of every vector's buffer, the invariant
  the library maintains over it, the growth rule that `fvec.h` and
  `src/vector.h` share (`fvec_expand` and `vector_expand`), and the shrink
  rule of `fvec.h` (`src/vector.h` has no shrink and no removals).

  A vector of `element_size`-byte slots is modelled as a sequence of values
  of a type parameter `T`, one value per live slot; the record's four
  `unsigned int` fields are naturals below 2^32.
 */
module Record {
  import opened PowerOfTwo

  /** `FVecData` / `VecData`: element size, slot capacity, bytes allocated
      and live length, together with the live elements. */
  datatype Vec<T> = Vec(elementSize: nat, capacity: nat, bytesAlloc: nat, length: nat, items: seq<T>)

  /** Why a C `assert` would abort the operation. */
  datatype Error = EmptyVector | IndexOutOfBounds | ElementSizeMismatch

  datatype Result<R> = Success(value: R) | Failure(error: Error)

  /** The bookkeeping every operation relies on: a positive element size,
      no more live elements than slots, `bytes_alloc == capacity *
      element_size`, and every field representable as an `unsigned int`. */
  predicate Consistent<T>(v: Vec<T>) {
    && 0 < v.elementSize < U32
    && v.length <= v.capacity < U32
    && v.bytesAlloc == v.capacity * v.elementSize
    && v.bytesAlloc < U32
    && |v.items| == v.length
  }

  /** Consistent, and the capacity is 0 or a power of two, as every
      operation keeps it. */
  predicate Valid<T>(v: Vec<T>) {
    Consistent(v) && IsPot(v.capacity)
  }

  function Max(a: nat, b: nat): nat {
    if a < b then b else a
  }

  /** The first of c, 2c, 4c, ... that exceeds n: the capacity reached by
      doubling c until n elements fit with a slot to spare. */
  function Grown(c: nat, n: nat): (r: nat)
    requires c >= 1
    ensures n < r && c <= r
    ensures r <= Max(c, 2 * n)
    decreases if c > n then 0 else n + 1 - c
  {
    if c > n then c else Grown(2 * c, n)
  }

  /** Growing from a power of two only ever reaches powers of two. */
  lemma {:induction false} GrownIsPowerOfTwo(c: nat, n: nat)
    requires IsPowerOfTwo(c)
    ensures IsPowerOfTwo(Grown(c, n))
    decreases if c > n then 0 else n + 1 - c
  {
    if c <= n {
      DoubleIsPowerOfTwo(c);
      GrownIsPowerOfTwo(2 * c, n);
    }
  }

  /** Growing in two stages, first past n and then past m >= n, ends where
      growing past m in one go does. */
  lemma {:induction false} GrownTwice(c: nat, n: nat, m: nat)
    requires c >= 1 && n <= m
    ensures Grown(Grown(c, n), m) == Grown(c, m)
    decreases if c > n then 0 else n + 1 - c
  {
    if c <= n {
      GrownTwice(2 * c, n, m);
    }
  }

  /** The further the length, the larger the grown capacity. */
  lemma {:induction false} GrownMonotone(c: nat, n: nat, m: nat)
    requires c >= 1 && n <= m
    ensures Grown(c, n) <= Grown(c, m)
  {
    GrownTwice(c, n, m);
  }

  /** Doubling from one slot reaches the smallest power of two above n. */
  lemma {:induction false} GrownFromOne(n: nat)
    ensures Grown(1, n) == PowerOfTwoAbove(n)
  {
    GrownIsPowerOfTwo(1, n);
    PowerOfTwoAboveBounds(n);
    PowerOfTwoOrder(PowerOfTwoAbove(n), Grown(1, n));
    PowerOfTwoOrder(Grown(1, n), PowerOfTwoAbove(n));
  }

  /** The record after `realloc` to c slots: the capacity becomes c and
      `bytes_alloc` becomes `c * element_size`; the elements stay. */
  function Resized<T>(v: Vec<T>, c: nat): (r: Vec<T>)
    requires Consistent(v) && v.length <= c && c * v.elementSize < U32
    ensures Consistent(r) && r.capacity == c
    ensures r.elementSize == v.elementSize && r.length == v.length && r.items == v.items
    ensures IsPot(c) ==> Valid(r)
  {
    AtMostProduct(c, v.elementSize);
    v.(capacity := c, bytesAlloc := c * v.elementSize)
  }

  /** `fvec_expand` and `vector_expand`: an allocation of zero bytes grows
      to two slots, any other allocation doubles; the elements stay. The C
      asserts `capacity >= length` and `bytes_alloc == capacity *
      element_size`, and the new byte count must fit an `unsigned int`. */
  function Expand<T>(v: Vec<T>): (r: Vec<T>)
    requires Consistent(v)
    requires 2 * Max(v.capacity, 1) * v.elementSize < U32
    ensures Consistent(r) && v.length < r.capacity
    ensures r.capacity == 2 * Max(v.capacity, 1)
    ensures r.elementSize == v.elementSize && r.length == v.length && r.items == v.items
    ensures IsPot(v.capacity) ==> IsPot(r.capacity)
  {
    var c := if v.bytesAlloc == 0 then 2 else 2 * v.capacity;
    assert c == 2 * Max(v.capacity, 1) by {
      AtMostProduct(v.capacity, v.elementSize);
    }
    DoubleIsPowerOfTwo(v.capacity);
    Resized(v, c)
  }

  /** `fvec_shrink`: the capacity drops to the length. Callers only shrink
      when `is_pot(length)`, which keeps the capacity 0 or a power of two. */
  function Shrink<T>(v: Vec<T>): (r: Vec<T>)
    requires Consistent(v)
    ensures Consistent(r) && r.capacity == v.length && r.capacity <= v.capacity
    ensures r.elementSize == v.elementSize && r.length == v.length && r.items == v.items
    ensures IsPot(v.length) ==> Valid(r)
  {
    MultiplyMonotone(v.length, v.capacity, v.elementSize);
    Resized(v, v.length)
  }

  lemma {:induction false} MultiplyMonotone(a: nat, b: nat, k: nat)
    requires a <= b
    ensures a * k <= b * k
  {
  }

  /** A factor of at least one does not make a natural smaller. */
  lemma {:induction false} AtMostProduct(c: nat, k: nat)
    requires k >= 1
    ensures c <= c * k
  {
    MultiplyMonotone(1, k, c);
  }
}
