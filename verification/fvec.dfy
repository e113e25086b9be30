/**
  The operations of `fvec.h` on the metadata record: the space check, the
  constructors, element access, push, the three removals and
  `fvec_shrink_to_fit`. A C `assert` on the caller's arguments becomes a
  `Failure` result naming the violated condition. The two asserts inside
  `fvec_expand` and `fvec_shrink` (length within capacity, `bytes_alloc`
  equal to capacity times element size) are part of the precondition
  `Consistent` instead.
 */
module FVec {
  import opened PowerOfTwo
  import opened Record

  /** What `fvec_push` leaves behind: the vector and the index of the slot
      it handed out (the C returns a pointer to that slot, which the caller
      fills; the model fills it with the pushed value). */
  datatype Pushed<T> = Pushed(vec: Vec<T>, slot: nat)

  /** `fvec_has_space`: the difference between allocated and used bytes,
      computed in signed `long` arithmetic, is positive. */
  predicate HasSpace<T>(v: Vec<T>) {
    v.bytesAlloc - v.length * v.elementSize > 0
  }

  /** On a consistent record the byte test is exactly the slot test. */
  lemma {:induction false} HasSpaceIffRoom<T>(v: Vec<T>)
    requires Consistent(v)
    ensures HasSpace(v) <==> v.length < v.capacity
  {
    var spare := v.capacity - v.length;
    assert v.bytesAlloc - v.length * v.elementSize == spare * v.elementSize;
    if spare > 0 {
      AtMostProduct(v.elementSize, spare);
    }
  }

  /** Pushing k more elements never overflows an `unsigned int`: either
      they fit in the current slots, or the capacity reached by doubling
      still has a byte count below 2^32. */
  predicate RoomFor<T>(v: Vec<T>, k: nat) {
    k == 0 || Grown(Max(v.capacity, 1), v.length + k) * v.elementSize < U32
  }

  /** The capacity of w, produced from v by pushes only: unchanged while
      nothing was pushed, and otherwise v's capacity doubled until the
      length fits with a slot to spare. */
  predicate GrownFrom<T>(v: Vec<T>, w: Vec<T>) {
    w.capacity == if w.length == v.length then v.capacity else Grown(Max(v.capacity, 1), w.length)
  }

  // ---------------------------------------------------------------------
  // Constructors
  // ---------------------------------------------------------------------

  /** `fvec`: an empty vector with one slot of `element_size` bytes. */
  function New<T>(elementSize: nat): (r: Vec<T>)
    requires 0 < elementSize < U32
    ensures Valid(r) && r.elementSize == elementSize && r.items == []
    ensures r.capacity == 1 && r.bytesAlloc == elementSize
  {
    Vec(elementSize, 1, elementSize, 0, [])
  }

  /** c is what `pot(n)` makes of a requested size n: the smallest power
      of two that is at least n when 1 <= n <= 2^31, and 0 otherwise. */
  predicate RoundsUpTo(n: nat, c: nat) {
    && (1 <= n <= TopBit ==> IsPowerOfTwo(c) && n <= c < 2 * n)
    && (n == 0 || n > TopBit ==> c == 0)
  }

  lemma {:induction false} PotRoundsUpTo(n: nat)
    requires n < U32
    ensures RoundsUpTo(n, Pot(n))
  {
    if 1 <= n <= TopBit {
      PotRoundsUp(n);
    }
  }

  /** `fvecci`: an empty vector whose capacity is `pot(initial_size)`. */
  function WithCapacity<T>(elementSize: nat, initialSize: nat): (r: Vec<T>)
    requires 0 < elementSize < U32 && initialSize < U32
    requires Pot(initialSize) * elementSize < U32
    ensures Valid(r) && r.elementSize == elementSize && r.items == []
    ensures RoundsUpTo(initialSize, r.capacity)
  {
    var c := Pot(initialSize);
    PotRoundsUpTo(initialSize);
    AtMostProduct(c, elementSize);
    Vec(elementSize, c, c * elementSize, 0, [])
  }

  /** `fvec_from_ptr`: a vector holding the first n elements that src
      points at, with capacity `pot(n)`. */
  function FromPtr<T>(src: seq<T>, n: nat, elementSize: nat): (r: Vec<T>)
    requires 0 < elementSize < U32 && n <= |src|
    requires n <= TopBit && Pot(n) * elementSize < U32
    ensures Valid(r) && r.elementSize == elementSize
    ensures r.items == src[..n]
    ensures RoundsUpTo(n, r.capacity)
  {
    var c := Pot(n);
    PotRoundsUpTo(n);
    AtMostProduct(c, elementSize);
    assert n <= c && IsPot(c);
    Vec(elementSize, c, c * elementSize, n, src[..n])
  }

  /** On a valid vector, `pot(length)` slots hold the elements, and their
      byte count fits in an `unsigned int`. */
  lemma {:induction false} PotOfLengthFits<T>(v: Vec<T>)
    requires Valid(v)
    ensures v.length <= TopBit && Pot(v.length) <= v.capacity
    ensures Pot(v.length) * v.elementSize < U32
  {
    if v.length > 0 {
      PowerOfTwoBelowU32(v.capacity);
      PotRoundsUp(v.length);
    }
    MultiplyMonotone(Pot(v.length), v.capacity, v.elementSize);
  }

  /** `fvec_clone` as written: it allocates with `fvecci(element_size,
      length)` and copies the bytes, but never sets the new length, so the
      clone has no live elements. */
  function CloneAsWritten<T>(v: Vec<T>): (r: Vec<T>)
    requires Valid(v)
    ensures Valid(r) && r.elementSize == v.elementSize
    ensures r.length == 0 && RoundsUpTo(v.length, r.capacity)
  {
    PotOfLengthFits(v);
    WithCapacity(v.elementSize, v.length)
  }

  /** `fvec_clone` as documented: a separate vector with the same elements,
      its capacity `pot(length)`. */
  function Clone<T>(v: Vec<T>): (r: Vec<T>)
    requires Valid(v)
    ensures Valid(r) && r.elementSize == v.elementSize && r.items == v.items
    ensures RoundsUpTo(v.length, r.capacity) && r.capacity <= v.capacity
  {
    PotOfLengthFits(v);
    WithCapacity(v.elementSize, v.length).(length := v.length, items := v.items)
  }

  /** The clone as written loses every element of a non-empty vector. */
  lemma {:induction false} CloneAsWrittenLosesItems<T>(v: Vec<T>)
    requires Valid(v) && v.length > 0
    ensures CloneAsWritten(v).items != v.items
    ensures Clone(v).items == v.items
  {
    assert |CloneAsWritten(v).items| == 0;
  }

  /** A concrete instance: cloning the one-element vector built from [7]. */
  lemma {:induction false} CloneOfSevenIsEmpty()
    ensures var v := FromPtr([7], 1, 4);
      CloneAsWritten(v).items == [] && Clone(v).items == [7]
  {
    var v := FromPtr([7], 1, 4);
    PotFixesPowersOfTwo(1);
    assert v.items == [7];
  }

  // ---------------------------------------------------------------------
  // Access and push
  // ---------------------------------------------------------------------

  /** `fvec_get`: the element at an index below the length. */
  function Get<T>(v: Vec<T>, index: nat): (r: Result<T>)
    requires Consistent(v)
    ensures r.Success? <==> index < v.length
    ensures r.Success? ==> r.value == v.items[index]
    ensures r.Failure? ==> r.error == IndexOutOfBounds
  {
    if index < v.length then Success(v.items[index]) else Failure(IndexOutOfBounds)
  }

  /** `fvec_push`: make room if there is none, count the new element, and
      make room again if the vector became full, so a free slot always
      remains. The capacity only grows, by doubling, and only as far as
      needed. */
  function Push<T>(v: Vec<T>, x: T): (r: Pushed<T>)
    requires Consistent(v) && RoomFor(v, 1)
    ensures Consistent(r.vec) && r.vec.elementSize == v.elementSize
    ensures r.vec.items == v.items + [x] && r.slot == v.length
    ensures r.vec.length < r.vec.capacity
    ensures r.vec.capacity == Grown(Max(v.capacity, 1), r.vec.length)
    ensures IsPot(v.capacity) ==> IsPot(r.vec.capacity)
  {
    HasSpaceIffRoom(v);
    PushGrowth(v);
    var v1 := if HasSpace(v) then v else Expand(v);
    var v2 := v1.(length := v1.length + 1, items := v1.items + [x]);
    HasSpaceIffRoom(v2);
    var v3 := if HasSpace(v2) then v2 else Expand(v2);
    Pushed(v3, v3.length - 1)
  }

  /** The doublings `fvec_push` performs, case by case. */
  lemma {:induction false} PushGrowth<T>(v: Vec<T>)
    requires Consistent(v) && RoomFor(v, 1)
    ensures var g := Grown(Max(v.capacity, 1), v.length + 1);
      && (v.length + 1 < v.capacity ==> g == v.capacity)
      && (v.length + 1 == v.capacity ==> g == 2 * v.capacity && g * v.elementSize < U32)
      && (v.length == v.capacity ==> 2 * Max(v.capacity, 1) * v.elementSize < U32)
      && (v.length == v.capacity && v.capacity != 1 ==> g == 2 * Max(v.capacity, 1))
      && (v.length == v.capacity && v.capacity == 1 ==> g == 4 && 4 * v.elementSize < U32)
  {
    var c := Max(v.capacity, 1);
    var g := Grown(c, v.length + 1);
    if v.length == v.capacity {
      assert Grown(c, v.length + 1) == Grown(2 * c, v.length + 1);
      if v.capacity == 1 {
        assert Grown(2, 2) == Grown(4, 2);
      }
      MultiplyMonotone(2 * c, g, v.elementSize);
    }
  }

  /** Pushing xs one after another, from the first to the last. */
  function PushAll<T>(v: Vec<T>, xs: seq<T>): (r: Vec<T>)
    requires Consistent(v) && RoomFor(v, |xs|)
    ensures Consistent(r) && r.elementSize == v.elementSize
    ensures r.items == v.items + xs
    ensures GrownFrom(v, r)
    ensures IsPot(v.capacity) ==> IsPot(r.capacity)
    decreases |xs|
  {
    if xs == [] then v
    else
      var w := PushFirst(v, xs);
      var r := PushAll(w, xs[1..]);
      PushAllGrowth(v, w, r);
      AppendFirst(v.items, xs);
      r
  }

  /** Reading the slot `fvec_push` handed out gives the pushed value, and
      every earlier index still reads what it did. */
  lemma {:induction false} PushThenGet<T>(v: Vec<T>, x: T)
    requires Consistent(v) && RoomFor(v, 1)
    ensures var r := Push(v, x);
      && Get(r.vec, r.slot) == Success(x)
      && r.slot == r.vec.length - 1
      && forall i :: 0 <= i < v.length ==> Get(r.vec, i) == Get(v, i)
  {
  }

  /** `fvec_pop_back` undoes `fvec_push` on the elements. */
  lemma {:induction false} PushThenPopBack<T>(v: Vec<T>, x: T)
    requires Consistent(v) && RoomFor(v, 1)
    ensures PopBack(Push(v, x).vec).Success?
    ensures PopBack(Push(v, x).vec).value.items == v.items
  {
    var w := Push(v, x).vec;
    assert w.items[..w.length - 1] == v.items;
  }

  /** Pushing n elements onto `fvec(element_size)` leaves the smallest power
      of two above n as the capacity: one slot is always spare. */
  lemma {:induction false} PushesFromNew<T>(elementSize: nat, xs: seq<T>)
    requires 0 < elementSize < U32
    requires PowerOfTwoAbove(|xs|) * elementSize < U32
    ensures RoomFor(New<T>(elementSize), |xs|)
    ensures var r := PushAll(New(elementSize), xs);
      r.items == xs && r.capacity == PowerOfTwoAbove(|xs|)
  {
    GrownFromOne(|xs|);
  }

  /** The first push of PushAll, with the room it leaves for the rest. */
  function PushFirst<T>(v: Vec<T>, xs: seq<T>): (w: Vec<T>)
    requires Consistent(v) && |xs| > 0 && RoomFor(v, |xs|)
    ensures Consistent(w) && w.elementSize == v.elementSize
    ensures w.items == v.items + [xs[0]] && RoomFor(w, |xs| - 1)
    ensures w.capacity == Grown(Max(v.capacity, 1), w.length)
    ensures IsPot(v.capacity) ==> IsPot(w.capacity)
  {
    RoomForFewer(v, 1, |xs|);
    var w := Push(v, xs[0]).vec;
    RoomAfterPush(v, w, |xs| - 1);
    w
  }

  /** The capacity after a first push and then more pushes is the capacity
      grown from the start. */
  lemma {:induction false} PushAllGrowth<T>(v: Vec<T>, w: Vec<T>, r: Vec<T>)
    requires w.length == v.length + 1 && w.length <= r.length
    requires w.capacity == Grown(Max(v.capacity, 1), w.length)
    requires GrownFrom(w, r)
    ensures GrownFrom(v, r)
  {
    var c := Max(v.capacity, 1);
    assert Max(w.capacity, 1) == w.capacity;
    GrownTwice(c, w.length, r.length);
  }

  /** Pushing xs and then x is pushing xs + [x]. */
  lemma {:induction false} PushAllThenPush<T>(v: Vec<T>, xs: seq<T>, x: T)
    requires Consistent(v) && RoomFor(v, |xs| + 1)
    ensures RoomFor(v, |xs|)
    ensures RoomFor(PushAll(v, xs), 1)
    ensures PushAll(v, xs + [x]) == Push(PushAll(v, xs), x).vec
    decreases |xs|
  {
    if xs == [] {
      assert [x][1..] == [];
    } else {
      RoomForFewer(v, |xs|, |xs| + 1);
      var w := PushFirst(v, xs);
      assert PushFirst(v, xs + [x]) == w;
      assert (xs + [x])[1..] == xs[1..] + [x];
      PushAllThenPush(w, xs[1..], x);
    }
  }

  /** w is what pushing xs onto v leaves behind: v's elements followed by
      xs, in a consistent record of the same element size whose capacity
      grew from v's by doubling. */
  ghost predicate PushedOnto<T>(v: Vec<T>, xs: seq<T>, w: Vec<T>) {
    && Consistent(w) && w.elementSize == v.elementSize
    && w.items == v.items + xs && GrownFrom(v, w)
  }

  /** Only one record is pushed onto v with xs: the one PushAll builds. */
  lemma {:induction false} PushedOntoIsPushAll<T>(v: Vec<T>, xs: seq<T>, w: Vec<T>)
    requires Consistent(v) && RoomFor(v, |xs|)
    requires PushedOnto(v, xs, w)
    ensures w == PushAll(v, xs)
  {
    var r := PushAll(v, xs);
    assert w.length == r.length;
  }

  /** A push onto a record that xs was pushed onto is a push of xs + [x]. */
  lemma {:induction false} PushExtends<T>(v: Vec<T>, xs: seq<T>, d: Vec<T>, x: T)
    requires Consistent(v) && RoomFor(v, |xs| + 1)
    requires PushedOnto(v, xs, d)
    ensures RoomFor(d, 1)
    ensures PushedOnto(v, xs + [x], Push(d, x).vec)
  {
    RoomToPushOnto(v, xs, d);
    PushedOntoStep(v, xs, d, x, Push(d, x).vec);
  }

  /** Room for one more element than xs leaves room after pushing xs. */
  lemma {:induction false} RoomToPushOnto<T>(v: Vec<T>, xs: seq<T>, d: Vec<T>)
    requires Consistent(v) && RoomFor(v, |xs| + 1)
    requires PushedOnto(v, xs, d)
    ensures RoomFor(d, 1)
  {
    var n := d.length + 1;
    assert n == v.length + |xs| + 1;
    GrownOnward(v, d, n);
  }

  /** Any record with the effect of one push on d extends what d records. */
  lemma {:induction false} PushedOntoStep<T>(v: Vec<T>, xs: seq<T>, d: Vec<T>, x: T, e: Vec<T>)
    requires Consistent(v) && PushedOnto(v, xs, d)
    requires Consistent(e) && e.elementSize == d.elementSize && e.items == d.items + [x]
    requires e.capacity == Grown(Max(d.capacity, 1), e.length)
    ensures PushedOnto(v, xs + [x], e)
  {
    GrownOnward(v, d, e.length);
    ConcatAssociates(v.items, xs, [x]);
  }

  /** Growing on from a record that grew from v is growing from v. */
  lemma {:induction false} GrownOnward<T>(v: Vec<T>, d: Vec<T>, n: nat)
    requires GrownFrom(v, d) && v.length <= d.length <= n
    ensures Grown(Max(d.capacity, 1), n) == Grown(Max(v.capacity, 1), n)
  {
    if d.length != v.length {
      assert Max(d.capacity, 1) == d.capacity;
      GrownTwice(Max(v.capacity, 1), d.length, n);
    }
  }

  lemma {:induction false} ConcatAssociates<T>(a: seq<T>, b: seq<T>, c: seq<T>)
    ensures a + (b + c) == (a + b) + c
  {
  }

  /** Room for k pushes is room for any fewer. */
  lemma {:induction false} RoomForFewer<T>(v: Vec<T>, j: nat, k: nat)
    requires 1 <= j <= k && RoomFor(v, k)
    ensures RoomFor(v, j)
  {
    GrownScaledBelow(Max(v.capacity, 1), v.length + j, v.length + k, v.elementSize);
  }

  /** Doubling to a smaller length, scaled by the element size, stays below
      2^32 when doubling to the larger one does. */
  lemma {:induction false} GrownScaledBelow(c: nat, n: nat, m: nat, k: nat)
    requires c >= 1 && n <= m && Grown(c, m) * k < U32
    ensures Grown(c, n) * k < U32
  {
    GrownMonotone(c, n, m);
    MultiplyMonotone(Grown(c, n), Grown(c, m), k);
  }

  /** After one push, the room left is the room that was there for the
      pushes still to come. */
  lemma {:induction false} RoomAfterPush<T>(v: Vec<T>, w: Vec<T>, k: nat)
    requires Consistent(v) && RoomFor(v, k + 1)
    requires w.length == v.length + 1 && w.elementSize == v.elementSize
    requires w.capacity == Grown(Max(v.capacity, 1), w.length)
    ensures RoomFor(w, k)
  {
    if k > 0 {
      GrownTwice(Max(v.capacity, 1), w.length, w.length + k);
    }
  }

  // ---------------------------------------------------------------------
  // Removal
  // ---------------------------------------------------------------------

  /** The rule every removal ends with: the allocation shrinks to the new
      length exactly when `is_pot(length)` holds (0 included), and is left
      alone otherwise. */
  predicate ShrinkRule<T>(v: Vec<T>, w: Vec<T>) {
    && Consistent(w) && w.elementSize == v.elementSize
    && w.length + 1 == v.length
    && w.capacity == (if IsPot(w.length) then w.length else v.capacity)
    && (Valid(v) ==> Valid(w))
  }

  /** Count one element fewer, keep rest, and apply the shrink rule. */
  function Removing<T>(v: Vec<T>, rest: seq<T>): (r: Vec<T>)
    requires Consistent(v) && v.length > 0 && |rest| == v.length - 1
    ensures r.items == rest && ShrinkRule(v, r)
  {
    var w := v.(length := v.length - 1, items := rest);
    if IsPot(w.length) then Shrink(w) else w
  }

  /** `fvec_pop_back`: drop the last element; an empty vector fails the
      assertion. */
  function PopBack<T>(v: Vec<T>): (r: Result<Vec<T>>)
    requires Consistent(v)
    ensures r.Success? <==> v.length > 0
    ensures r.Failure? ==> r.error == EmptyVector
    ensures r.Success? ==> r.value.items == v.items[..v.length - 1] && ShrinkRule(v, r.value)
  {
    if v.length == 0 then Failure(EmptyVector)
    else Success(Removing(v, v.items[..v.length - 1]))
  }

  /** `fvec_pop_front`: shift every element one place towards the front. */
  function PopFront<T>(v: Vec<T>): (r: Result<Vec<T>>)
    requires Consistent(v)
    ensures r.Success? <==> v.length > 0
    ensures r.Failure? ==> r.error == EmptyVector
    ensures r.Success? ==> r.value.items == v.items[1..] && ShrinkRule(v, r.value)
  {
    if v.length == 0 then Failure(EmptyVector)
    else Success(Removing(v, v.items[1..]))
  }

  /** `fvec_pop`: remove the element at index, shifting the later ones
      forward; the last index is handed to `fvec_pop_back`. The emptiness
      assertion comes before the bounds assertion. */
  function Pop<T>(v: Vec<T>, index: nat): (r: Result<Vec<T>>)
    requires Consistent(v)
    ensures r.Success? <==> index < v.length
    ensures v.length == 0 ==> r == Failure(EmptyVector)
    ensures 0 < v.length <= index ==> r == Failure(IndexOutOfBounds)
    ensures r.Success? ==> r.value.items == v.items[..index] + v.items[index + 1..] && ShrinkRule(v, r.value)
  {
    if v.length == 0 then Failure(EmptyVector)
    else if index >= v.length then Failure(IndexOutOfBounds)
    else if index == v.length - 1 then
      assert v.items[..index] + v.items[index + 1..] == v.items[..v.length - 1];
      PopBack(v)
    else Success(Removing(v, v.items[..index] + v.items[index + 1..]))
  }

  /** `fvec_pop(v, 0)` and `fvec_pop_front(v)` agree on every vector. */
  lemma {:induction false} PopAtZeroIsPopFront<T>(v: Vec<T>)
    requires Consistent(v)
    ensures Pop(v, 0) == PopFront(v)
  {
    if v.length > 1 {
      assert v.items[..0] + v.items[1..] == v.items[1..];
    }
  }

  /** `fvec_pop` at the last index is `fvec_pop_back`, on every non-empty
      vector. */
  lemma {:induction false} PopLastIsPopBack<T>(v: Vec<T>)
    requires Consistent(v) && v.length > 0
    ensures Pop(v, v.length - 1) == PopBack(v)
  {
  }

  /** `fvec_shrink_to_fit`: one slot for an empty vector, otherwise
      `pot(length)` slots, which is the fewest a power of two can hold. */
  function ShrinkToFit<T>(v: Vec<T>): (r: Vec<T>)
    requires Valid(v)
    ensures Valid(r) && r.elementSize == v.elementSize && r.items == v.items
    ensures v.length == 0 ==> r.capacity == 1
    ensures v.length > 0 ==> IsPowerOfTwo(r.capacity) && v.length <= r.capacity < 2 * v.length
    ensures v.length > 0 ==> r.capacity <= v.capacity
  {
    if v.length == 0 then
      Resized(v, 1)
    else
      PotOfLengthFits(v);
      PotRoundsUpTo(v.length);
      Resized(v, Pot(v.length))
  }

  lemma {:induction false} AppendFirst<T>(a: seq<T>, xs: seq<T>)
    requires |xs| > 0
    ensures a + xs == (a + [xs[0]]) + xs[1..]
  {
    assert xs == [xs[0]] + xs[1..];
  }
}
