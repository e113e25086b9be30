/**
  The older container of `src/vector.h`: the same metadata record as
  `fvec.h`, created with zero capacity, sized through a `pot` that returns
  a signed `int`, and checked for space in unsigned arithmetic.
 */
module Vector {
  import opened PowerOfTwo
  import opened Record
  import FVec

  // ---------------------------------------------------------------------
  // Signed and unsigned int
  // ---------------------------------------------------------------------

  /** The most negative 32-bit `int`. */
  const IntMin: int := -0x8000_0000

  /** Converting an `unsigned int` to a 32-bit two's-complement `int`:
      words from 2^31 up read as negative. */
  function AsSigned(u: nat): (r: int)
    requires u < U32
    ensures IntMin <= r < TopBit
    ensures r >= 0 <==> u < TopBit
    ensures r % U32 == u
  {
    if u < TopBit then u else u - U32
  }

  /** Converting an `int` back to `unsigned int`: reduce modulo 2^32. */
  function AsUnsigned(i: int): (r: nat)
    ensures r < U32
    ensures (i - r) % U32 == 0
  {
    i % U32
  }

  /** Every unsigned int survives the trip through `int` and back. */
  lemma {:induction false} SignedRoundTrip(u: nat)
    requires u < U32
    ensures AsUnsigned(AsSigned(u)) == u
  {
    if u >= TopBit {
      assert (u - U32) % U32 == u;
    }
  }

  /** Every int in range survives the trip through `unsigned int` and back. */
  lemma {:induction false} UnsignedRoundTrip(i: int)
    requires IntMin <= i < TopBit
    ensures AsSigned(AsUnsigned(i)) == i
  {
    if i < 0 {
      assert i % U32 == i + U32;
    }
  }

  // ---------------------------------------------------------------------
  // __pot
  // ---------------------------------------------------------------------

  /** `__pot`: the bit trick of `pot`, with its unsigned result returned as
      an `int`. Up to 2^30 the result is the rounded-up power of two; from
      just above 2^30 to 2^31 the result 2^31 reads as the most negative
      int; 0 and everything above 2^31 wrap round to 0. */
  function SignedPot(x: nat): (r: int)
    requires x < U32
    ensures 1 <= x <= TopBit / 2 ==> x <= r < 2 * x && IsPowerOfTwo(r)
    ensures TopBit / 2 < x <= TopBit ==> r == IntMin
    ensures x == 0 || x > TopBit ==> r == 0
  {
    SignedPotFacts(x);
    AsSigned(Pot(x))
  }

  /** What `pot` gives on the three ranges that `__pot` tells apart. */
  lemma {:induction false} SignedPotFacts(x: nat)
    requires x < U32
    ensures 1 <= x <= TopBit ==> IsPowerOfTwo(Pot(x)) && x <= Pot(x) < 2 * x
    ensures TopBit / 2 < x <= TopBit ==> Pot(x) == TopBit
  {
    if 1 <= x <= TopBit {
      PotRoundsUp(x);
      if x > TopBit / 2 {
        PotAboveHalf(x);
      }
    }
  }

  /** Above 2^30, the only power of two `pot` can reach is 2^31. */
  lemma {:induction false} PotAboveHalf(x: nat)
    requires TopBit / 2 < x <= TopBit
    ensures Pot(x) == TopBit
  {
    PotRoundsUp(x);
    TopBitIsPowerOfTwo();
    PowerOfTwoBelowU32(Pot(x));
    PowerOfTwoOrder(Pot(x), TopBit);
  }

  /** Storing the `int` that `__pot` returns back into the `unsigned int`
      `initial_size` recovers exactly what `pot` computes. */
  lemma {:induction false} SignedPotStoredIsPot(x: nat)
    requires x < U32
    ensures AsUnsigned(SignedPot(x)) == Pot(x)
  {
    SignedRoundTrip(Pot(x));
  }

  // ---------------------------------------------------------------------
  // Constructors
  // ---------------------------------------------------------------------

  /** `vector_create`: an empty vector with no slots and no bytes. */
  function Create<T>(elementSize: nat): (r: Vec<T>)
    requires 0 < elementSize < U32
    ensures Valid(r) && r.elementSize == elementSize && r.items == []
    ensures r.capacity == 0 && r.bytesAlloc == 0
  {
    Vec(elementSize, 0, 0, 0, [])
  }

  /** `vector_create_init`: an empty vector whose capacity is the `__pot`
      of the requested size, stored back into an `unsigned int`. */
  function CreateInit<T>(elementSize: nat, initialSize: nat): (r: Vec<T>)
    requires 0 < elementSize < U32 && initialSize < U32
    requires Pot(initialSize) * elementSize < U32
    ensures Valid(r) && r.elementSize == elementSize && r.items == []
    ensures FVec.RoundsUpTo(initialSize, r.capacity)
  {
    var c := AsUnsigned(SignedPot(initialSize));
    SignedPotStoredIsPot(initialSize);
    FVec.PotRoundsUpTo(initialSize);
    AtMostProduct(c, elementSize);
    Vec(elementSize, c, c * elementSize, 0, [])
  }

  /** The signed detour of `__pot` changes nothing: `vector_create_init`
      builds the same record as `fvecci`. */
  lemma {:induction false} CreateInitIsWithCapacity<T>(elementSize: nat, initialSize: nat)
    requires 0 < elementSize < U32 && initialSize < U32
    requires Pot(initialSize) * elementSize < U32
    ensures CreateInit<T>(elementSize, initialSize) == FVec.WithCapacity(elementSize, initialSize)
  {
    SignedPotStoredIsPot(initialSize);
  }

  // ---------------------------------------------------------------------
  // Space check and push
  // ---------------------------------------------------------------------

  /** `vector_has_space`: the product and the difference are computed in
      `unsigned int`, so both wrap modulo 2^32, and the test is that the
      difference is not zero. */
  predicate HasSpace<T>(v: Vec<T>) {
    var used := (v.length * v.elementSize) % U32;
    (v.bytesAlloc - used) % U32 > 0
  }

  /** On a consistent record nothing wraps, and the unsigned test agrees
      with both the slot test and the signed test of `fvec_has_space`. */
  lemma {:induction false} HasSpaceIffRoom<T>(v: Vec<T>)
    requires Consistent(v)
    ensures HasSpace(v) <==> v.length < v.capacity
    ensures HasSpace(v) <==> FVec.HasSpace(v)
  {
    SpareBytes(v.length, v.capacity, v.elementSize);
    var used := v.length * v.elementSize;
    assert used % U32 == used;
    assert (v.bytesAlloc - used) % U32 == v.bytesAlloc - used;
    FVec.HasSpaceIffRoom(v);
  }

  /** The bytes in use and the spare bytes of a record with capacity c both
      lie within the c * k bytes allocated, and the spare bytes are positive
      exactly when a slot is free. */
  lemma {:induction false} SpareBytes(n: nat, c: nat, k: nat)
    requires n <= c && k >= 1
    ensures n * k <= c * k
    ensures c * k - n * k == (c - n) * k
    ensures c * k - n * k > 0 <==> n < c
  {
    MultiplyMonotone(n, c, k);
    if n < c {
      AtMostProduct(k, c - n);
    }
  }

  /** What `vector_push` leaves behind: the vector, the index of the slot
      it handed out, and whether its third space check (after the slot
      pointer is computed) found the vector full. */
  datatype Pushed<T> = Pushed(vec: Vec<T>, slot: nat, thirdCheckFull: bool)

  /** `vector_push`: make room if there is none, count the new element,
      and make room again if the vector became full. The third check
      then always finds a free slot, so its expansion never runs. */
  function Push<T>(v: Vec<T>, x: T): (r: Pushed<T>)
    requires Consistent(v) && FVec.RoomFor(v, 1)
    ensures Consistent(r.vec) && r.vec.elementSize == v.elementSize
    ensures r.vec.items == v.items + [x] && r.slot == v.length
    ensures r.vec.length < r.vec.capacity
    ensures r.vec.capacity == Grown(Max(v.capacity, 1), r.vec.length)
    ensures !r.thirdCheckFull
    ensures IsPot(v.capacity) ==> IsPot(r.vec.capacity)
  {
    HasSpaceIffRoom(v);
    FVec.PushGrowth(v);
    var v1 := if HasSpace(v) then v else Expand(v);
    var v2 := v1.(length := v1.length + 1, items := v1.items + [x]);
    HasSpaceIffRoom(v2);
    var v3 := if HasSpace(v2) then v2 else Expand(v2);
    HasSpaceIffRoom(v3);
    Pushed(v3, v3.length - 1, !HasSpace(v3))
  }

  /** `vector_push` and `fvec_push` leave the same record and hand out the
      same slot. */
  lemma {:induction false} PushIsFVecPush<T>(v: Vec<T>, x: T)
    requires Consistent(v) && FVec.RoomFor(v, 1)
    ensures Push(v, x).vec == FVec.Push(v, x).vec
    ensures Push(v, x).slot == FVec.Push(v, x).slot
  {
    var a := Push(v, x).vec;
    var b := FVec.Push(v, x).vec;
    assert a.length == b.length;
    assert a.capacity == b.capacity;
  }

  /** Pushing xs one after another with `vector_push`. */
  function PushAll<T>(v: Vec<T>, xs: seq<T>): (r: Vec<T>)
    requires Consistent(v) && FVec.RoomFor(v, |xs|)
    ensures r == FVec.PushAll(v, xs)
    decreases |xs|
  {
    if xs == [] then v
    else
      FVec.RoomForFewer(v, 1, |xs|);
      PushIsFVecPush(v, xs[0]);
      var w := Push(v, xs[0]).vec;
      assert w == FVec.PushFirst(v, xs);
      PushAll(w, xs[1..])
  }

  /** Pushing n >= 1 elements onto `vector_create(element_size)` leaves the
      smallest power of two above n as the capacity; with no pushes the
      capacity stays 0. */
  lemma {:induction false} PushesFromCreate<T>(elementSize: nat, xs: seq<T>)
    requires 0 < elementSize < U32
    requires PowerOfTwoAbove(|xs|) * elementSize < U32
    ensures FVec.RoomFor(Create<T>(elementSize), |xs|)
    ensures var r := PushAll(Create(elementSize), xs);
      && r.items == xs
      && r.capacity == (if xs == [] then 0 else PowerOfTwoAbove(|xs|))
  {
    GrownFromOne(|xs|);
  }

  /** Once something has been pushed, a vector started with
      `vector_create` and one started with `fvec` are the same record: the
      different starting capacities, 0 and 1, both grow to the smallest
      power of two above the length. */
  lemma {:induction false} CreateCatchesUpWithNew<T>(elementSize: nat, xs: seq<T>)
    requires 0 < elementSize < U32 && xs != []
    requires PowerOfTwoAbove(|xs|) * elementSize < U32
    ensures FVec.RoomFor(Create<T>(elementSize), |xs|)
    ensures FVec.RoomFor(FVec.New<T>(elementSize), |xs|)
    ensures PushAll(Create(elementSize), xs) == FVec.PushAll(FVec.New(elementSize), xs)
  {
    PushesFromCreate(elementSize, xs);
    FVec.PushesFromNew(elementSize, xs);
  }
}
