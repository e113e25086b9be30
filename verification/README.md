# fvec in Dafny

A model of the fat-pointer vector library `fvec.h` and its earlier variant
`src/vector.h`. Both libraries keep a metadata record in front of a raw
buffer. The record holds `element_size`, `capacity`, `bytes_alloc` and
`length`, all of them `unsigned int`. Every operation is bookkeeping on that
record plus a change to the live elements.

The model represents the record as the datatype `Record.Vec<T>`. Its four
naturals are below 2^32. It also holds a sequence `items` of the live
elements, one value of the type parameter `T` per `element_size`-byte slot.
Each operation is a pure function, or a method where the C code loops, from
records to records. Three C asserts become a `Failure` result that names
the violated condition: an empty vector, an index out of bounds, and
differing element sizes. The null-pointer asserts are not modelled (see
"## Left out"). The two asserts inside
`fvec_expand` and `fvec_shrink` (fvec.h:177-178 and fvec.h:218-219) check
that the length is within the capacity and that `bytes_alloc` equals
capacity times element size. They are not `Failure` results: they are part
of the precondition `Record.Consistent` of `Record.Expand` and
`Record.Shrink`.

Modules, in dependency order:

- `Words` (`words.dfy`): small facts about 32-bit words and their values as
  numbers.
- `PowerOfTwo` (`pot.dfy`): the `pot` bit trick, written exactly as the C
  code computes it on `bv32`. It is proved to round up to the smallest power
  of two. At 0 and above 2^31 it wraps to 0. The module also defines the
  integer form of `is_pot`.
- `Record` (`record.dfy`): the record and its invariant. It holds the growth
  rule `expand`, which both libraries share, and the shrink rule `shrink` of
  `fvec.h`. `src/vector.h` has no shrink and no removals. It also defines
  `Grown`, the capacity that repeated doubling reaches.
- `FVec` (`fvec.dfy`): the operations of `fvec.h`. These are the space
  check, the constructors, `fvec_clone`, `fvec_get`, `fvec_push`, the three
  removals and `fvec_shrink_to_fit`.
- `Traversal` (`traversal.dfy`): `fvec_clear`, `fvec_map`, `fvec_filter`
  and `fvec_fold`, as loops checked against reference definitions.
- `Vector` (`vector.dfy`): `src/vector.h`. Here `__pot` returns a signed
  `int`, the record starts at capacity 0, the space check uses unsigned
  arithmetic, and `vector_push` makes a third space check.

The invariant `Record.Valid` holds after every operation. It says:

- `length <= capacity`;
- `bytes_alloc == capacity * element_size`;
- every field fits an `unsigned int`;
- the capacity is 0 or a power of two.

`is_pot` compares `ceil(log2(x))` with `floor(log2(x))` in double precision.
Over 32-bit inputs this holds exactly for the powers of two and for 0, where
both sides are minus infinity. The model therefore defines `IsPot(n)` as
`n == 0 || IsPowerOfTwo(n)`. As a result, popping the last element shrinks
the capacity to 0. The next push then grows it to 2, because
`bytes_alloc == 0`.

Where the code and the library's own description disagree, the model follows
the code:

- A removal that reaches length 0 shrinks the capacity to 0. It is not
  skipped.
- `fvec_clone` returns a clone of length 0. See Findings.
- `fvec_fold` applies the callback from the first element to the last,
  although its comment calls it a right fold.
- `fvec` starts at capacity 1 and `vector_create` at capacity 0. The
  `calloc` in `fvec` reserves only the header, not any buffer bytes
  (fvec.h:261), while `bytes_alloc` records `element_size` (fvec.h:270). No
  slot is written before the first push reallocates: that push finds the
  space check true, counts the element, then finds the vector full and
  expands it to capacity 2 before handing out slot 0.

All six files are verified together, for example with
`dafny verify words.dfy pot.dfy record.dfy fvec.dfy traversal.dfy vector.dfy`.
No verification option is needed.

## Model

| member | source | states |
|---|---|---|
| PowerOfTwo.Pot32 | fvec.h:131-150 | `pot` on a 32-bit word: decrement, the five or-shifts, increment, all wrapping modulo 2^32. Its meaning is stated by PowerOfTwo.Pot32Meaning. |
| PowerOfTwo.Pot32Meaning | fvec.h:131-150 | On words, `pot` sends 0 and everything above 2^31 to 0. For 1 <= x <= 2^31 the result is a single set bit, at least x, and half of it is below x. A power of two is returned unchanged. |
| PowerOfTwo.SmearIncrementIsPowerOfTwoAbove | fvec.h:141-147 | The five or-shifts followed by the increment, applied to the word holding m, give the smallest power of two strictly above m. |
| PowerOfTwo.Pot | fvec.h:131-150 | `pot(n)` read as a number is 0 for n = 0 and for n > 2^31. Otherwise it is the smallest power of two above n - 1. |
| PowerOfTwo.PotRoundsUp | fvec.h:126-150 | For 1 <= n <= 2^31, `pot(n)` is a power of two with n <= pot(n) < 2n, and no power of two that is at least n is smaller. |
| PowerOfTwo.PotFixesPowersOfTwo | fvec.h:131-150 | `pot` maps every power of two below 2^32 to itself. |
| PowerOfTwo.IsPot | fvec.h:157-159 | `is_pot(x)` holds exactly for 0 and the powers of two, the inputs on which ceil and floor of log2 agree. |
| PowerOfTwo.IsPotIffPotFixes | fvec.h:131-159 | A word passes `is_pot` exactly when `pot` leaves it unchanged. |
| Record.Expand | fvec.h:175-193 | Under the two asserted facts, capacity 0 (zero bytes) becomes 2 and any other capacity doubles. `bytes_alloc` is recomputed, length and elements stay, and a power-of-two capacity stays a power of two. `vector_expand` in src/vector.h:91-108 is the same code and shares this member. |
| Record.Shrink | fvec.h:216-230 | The capacity becomes the length and `bytes_alloc` follows. The elements stay. When the length is 0 or a power of two, the invariant holds afterwards. |
| Record.GrownIsPowerOfTwo | fvec.h:180-185 | Doubling a power-of-two capacity any number of times gives a power of two. |
| Record.GrownFromOne | fvec.h:180-185 | Doubling from one slot until n elements fit with a slot to spare reaches the smallest power of two above n. |
| FVec.HasSpace | fvec.h:166-168 | `fvec_has_space`: `bytes_alloc` minus `length * element_size`, in signed arithmetic, is positive. Its meaning is stated by FVec.HasSpaceIffRoom. |
| FVec.HasSpaceIffRoom | fvec.h:166-168 | On a consistent record, the signed byte test is true exactly when length < capacity. |
| FVec.New | fvec.h:260-273 | `fvec(es)` is a valid empty vector with capacity 1 and `bytes_alloc == es`. |
| FVec.WithCapacity | fvec.h:280-295 | `fvecci(es, n)` is a valid empty vector whose capacity is the power of two that `pot(n)` rounds n up to, or 0 when n is 0 or above 2^31. |
| FVec.FromPtr | fvec.h:304-323 | `fvec_from_ptr(p, n, es)` is valid, holds exactly the first n source elements, and has capacity `pot(n)`. |
| FVec.CloneAsWritten | fvec.h:361-369 | The clone as coded is a valid vector of length 0 whose capacity is `pot(length)` of the original. |
| FVec.CloneAsWrittenLosesItems | fvec.h:361-369 | For every non-empty vector, the coded clone's elements differ from the original's, while the corrected clone keeps them. |
| FVec.CloneOfSevenIsEmpty | fvec.h:364-366 | Cloning the one-element vector built from [7] gives no elements as coded and [7] when corrected. |
| FVec.Clone | fvec.h:356-369 | The documented clone is valid, has the same elements, and has capacity `pot(length)`. That capacity never exceeds the original's. |
| FVec.Get | fvec.h:348-354 | `fvec_get` succeeds exactly for indices below the length and reads the element there. Any other index fails the bounds assertion. |
| FVec.Push | fvec.h:376-392 | `fvec_push` appends one element and hands out slot `length - 1`. It always leaves a free slot, keeps the capacity a power of two, and grows the capacity only by doubling as far as needed. |
| FVec.PushAll | fvec.h:376-392 | Successive pushes append their elements in order. The capacity is unchanged if nothing was pushed, and otherwise is the doubled capacity that just exceeds the new length. |
| FVec.PushAllThenPush | fvec.h:376-392 | Pushing a sequence and then one more element is pushing the extended sequence. Room for the longer sequence gives room for each step. |
| FVec.PushedOntoIsPushAll | fvec.h:376-392 | A consistent record with the element size of v, holding v's elements followed by xs, whose capacity grew from v's by doubling, is exactly the record that pushing xs onto v leaves behind. |
| FVec.PushExtends | fvec.h:376-392 | One more push onto a record that xs was pushed onto has room, and leaves the record that pushing xs followed by the new element leaves. |
| FVec.PushThenGet | fvec.h:348-392 | After a push, `fvec_get` at the slot handed out reads the pushed value, and every earlier index reads what it read before. |
| FVec.PushThenPopBack | fvec.h:376-411 | `fvec_pop_back` after `fvec_push` gives back the original elements. |
| FVec.PushesFromNew | fvec.h:260-273 | After n pushes onto `fvec(es)`, the vector holds exactly those elements and its capacity is the smallest power of two above n. |
| FVec.PopBack | fvec.h:399-411 | An empty vector fails. Otherwise the last element goes, the length drops by one, and the capacity becomes the new length when `is_pot` of it holds (0 included), else stays. Validity is preserved. |
| FVec.PopFront | fvec.h:418-436 | An empty vector fails. Otherwise the first element goes, the rest shift forward, and the same shrink rule applies. |
| FVec.Pop | fvec.h:443-467 | An empty vector fails the emptiness assertion first. An index at or past the length then fails the bounds assertion. Otherwise the element at the index is removed, the order is kept, and the same shrink rule applies. |
| FVec.PopLastIsPopBack | fvec.h:449-452 | `fvec_pop` at the last index gives exactly what `fvec_pop_back` gives, on every non-empty vector. |
| FVec.PopAtZeroIsPopFront | fvec.h:443-467 | `fvec_pop(v, 0)` and `fvec_pop_front(v)` give the same result on every vector, including the one-element vector, where `fvec_pop` hands over to `fvec_pop_back`. |
| FVec.ShrinkToFit | fvec.h:474-482 | The elements stay. An empty vector gets one slot. Otherwise the capacity becomes a power of two c with length <= c < 2 * length, never more than before. |
| Traversal.Clear | fvec.h:489-496 | Every live element becomes the default value. Length, capacity, `bytes_alloc` and element size are unchanged. |
| Traversal.Map | fvec.h:503-509 | Element i becomes f(element i) for every live index. The rest of the record is unchanged. |
| Traversal.Fold | fvec.h:535-541 | The accumulator ends as the left fold of binop over the elements, starting from base. |
| Traversal.FoldRunsFirstToLast | fvec.h:530-541 | A fold whose callback appends the element to the accumulator rebuilds the elements in order, so the fold runs from the first element to the last. |
| Traversal.KeptMembers | fvec.h:523-527 | An element is selected by the filter exactly when it occurs in the source and the predicate accepts it. |
| Traversal.PushKept | fvec.h:523-527 | The filter loop leaves the destination equal to the record that pushing the accepted source elements, in source order, onto it produces. |
| Traversal.FilterTurn | fvec.h:523-527 | One turn of the filter loop, which pushes the element when the predicate accepts it, keeps the destination equal to dest with the accepted elements seen so far pushed onto it. |
| Traversal.Filter | fvec.h:516-528 | Differing element sizes fail. Otherwise the destination becomes the record that pushing the accepted source elements one by one, in source order, produces, and its elements are the old ones followed by those. |
| Vector.SignedPot | src/vector.h:36-46 | `__pot(x)` as an `int` is the rounded-up power of two for 1 <= x <= 2^30. It is the most negative int for 2^30 < x <= 2^31, and 0 for x = 0 and x > 2^31. |
| Vector.SignedRoundTrip | src/vector.h:59 | Storing an `unsigned int` into an `int` and back into an `unsigned int` gives the original word. |
| Vector.UnsignedRoundTrip | src/vector.h:36-46 | Every 32-bit `int` survives the trip through `unsigned int` and back. This is the other half of the bijection that Vector.SignedRoundTrip starts. |
| Vector.SignedPotStoredIsPot | src/vector.h:58-63 | Storing the `int` that `__pot` returns back into the `unsigned int` gives exactly `pot`'s value. |
| Vector.Create | src/vector.h:48-56 | `vector_create(es)` is a valid empty vector with capacity 0 and no bytes. |
| Vector.CreateInit | src/vector.h:58-70 | `vector_create_init(es, n)` is a valid empty vector whose capacity is n rounded up by `pot`, or 0 when n is 0 or above 2^31. |
| Vector.CreateInitIsWithCapacity | src/vector.h:58-70 | `vector_create_init` and `fvecci` build the same record for every input. |
| Vector.HasSpace | src/vector.h:86-89 | `vector_has_space`: the product and the difference wrap modulo 2^32 and the test is that the difference is nonzero. Its meaning is stated by Vector.HasSpaceIffRoom. |
| Vector.HasSpaceIffRoom | src/vector.h:86-89 | On a consistent record the unsigned test does not wrap. It is true exactly when length < capacity, and it agrees with `fvec_has_space`. |
| Vector.Push | src/vector.h:110-134 | `vector_push` appends one element, hands out slot `length - 1`, and keeps the capacity a power of two. Its third space check always finds a free slot. |
| Vector.PushIsFVecPush | src/vector.h:110-134 | `vector_push` and `fvec_push` leave the same record and hand out the same slot. |
| Vector.PushAll | src/vector.h:110-134 | Successive `vector_push` calls give the record that successive `fvec_push` calls give. |
| Vector.PushesFromCreate | src/vector.h:48-134 | After n >= 1 pushes onto `vector_create(es)`, the vector holds exactly those elements and its capacity is the smallest power of two above n. With no pushes the capacity stays 0. |
| Vector.CreateCatchesUpWithNew | src/vector.h:48-56 | Once at least one element has been pushed, a vector started by `vector_create` and one started by `fvec` are the same record. |

## Left out

- Memory layout is not modelled. This covers the header stored in front of
  the buffer, the pointer arithmetic of `fvec_get_data` and
  `vector_get_data`, and `calloc`/`realloc`/`free`. The model works on the
  record directly, and the pointer a push or get returns becomes a slot index
  or a value.
- Allocation failure is not modelled. The `exit(1)` paths are process
  plumbing. The failure check after the `realloc` in `fvec_shrink` tests the
  old pointer rather than the returned one, which only matters when
  allocation fails.
- `fvec_free`, `vector_free` and `fvec_print` are left out: they free memory
  or do I/O.
- The accessors `fvec_length`, `fvec_element_size`, `fvec_capacity` and
  `fvec_bytes_alloc` are not separate members: they are the fields of
  `Record.Vec`.
- The `FVEC_NO_RESIZE` variants of expand and shrink are left out. Only the
  default configuration is modelled.
- The double-precision `log2`/`ceil`/`floor` in `is_pot` is replaced by the
  integer predicate `IsPot`, which agrees with it on 32-bit inputs.
- `memcpy` on overlapping regions in `fvec_pop_front` and `fvec_pop` is
  modelled as the intended shift.
- Callbacks are modelled as pure functions. A callback that touches the
  vector, and a filter whose source and destination are the same vector, are
  outside the model.
- The element size is assumed positive. The invariant `Record.Consistent`
  requires it.
- The null-handle and null-argument asserts are not modelled, because the
  model has no pointers. These are `assert(ptr)` in `fvec_from_ptr`,
  `assert(vector)` in the operations that take a vector, `assert(default_value)`
  in `fvec_clear`, and `assert(*dest_vector)` and `assert(src_vector)` in
  `fvec_filter`.
- The demonstration programs `main.c` and `src/main.c` are left out.
- FVec.Push: requires `RoomFor`, meaning the byte count the doubling reaches
  fits an `unsigned int`. The wrap-around of `capacity * element_size` is not
  modelled.
- FVec.PushAll: requires `RoomFor` for all of its elements, for the same
  reason as FVec.Push.
- Vector.Push: requires `RoomFor`, for the same reason as FVec.Push.
- Vector.PushAll: requires `RoomFor` for all of its elements, for the same
  reason as FVec.Push.
- Traversal.Filter: when the element sizes agree, requires room in the
  destination for every accepted element, for the same reason as FVec.Push.
  When they differ nothing is pushed and no room is required.
- Vector.SignedPot: assumes that converting an `unsigned int` to `int`
  wraps modulo 2^32 (two's complement), so 2^31 reads as `INT_MIN`. In C
  that conversion is implementation-defined.
- FVec.HasSpaceIffRoom: assumes a 64-bit `long`, so the subtraction
  never overflows. With a 32-bit `long`, a `bytes_alloc` of 2^31 or more
  converts in an implementation-defined way and `length * element_size` can
  overflow. For example, element size 2 with capacity 2^30 and length 0
  could read as full.
- Record.Expand: requires the doubled byte count to fit an
  `unsigned int`.
- FVec.WithCapacity: requires `pot(n) * element_size` to fit an
  `unsigned int`. The C code would compute it modulo 2^32.
- Vector.CreateInit: requires `pot(n) * element_size` to fit an
  `unsigned int`, as FVec.WithCapacity does.
- FVec.FromPtr: requires the product to fit, and also requires n <= 2^31.
  For larger n, `pot(n)` wraps to 0 and the C code would record n live
  elements in a zero-slot buffer.
- Traversal.Clear, Traversal.Map, Traversal.Fold, Traversal.Filter: the C
  loops count with a signed `int`. The model does not track that this limits them to lengths
  below 2^31.

## Findings

| source | as written | input that shows it | evidently intended | confidence | as-written member | corrected member |
|---|---|---|---|---|---|---|
| fvec.h:361-369 | `fvec_clone` allocates with `fvecci(element_size, length)` and copies the element bytes, but never sets the new record's `length`, which stays 0 | any non-empty vector, for example the one `fvec_from_ptr` builds from [7] | the clone has the original's length and elements, at capacity `pot(length)` | high, not executed | FVec.CloneAsWritten, FVec.CloneAsWrittenLosesItems | FVec.Clone |
