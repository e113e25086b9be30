/**
  Powers of two on 32-bit unsigned words: the `pot` bit trick that rounds a
  word up to a power of two, the `is_pot` test, and the bridge between the
  machine words the C code computes with and the unbounded naturals the
  container record is modelled with.
 */
module PowerOfTwo {
  import Words

  /** One more than the largest `unsigned int`. */
  const U32: nat := 0x1_0000_0000

  /** The largest power of two an `unsigned int` can hold. */
  const TopBit: nat := 0x8000_0000

  /** n is 1, 2, 4, 8, ... */
  predicate IsPowerOfTwo(n: nat)
    decreases n
  {
    n == 1 || (n >= 2 && n % 2 == 0 && IsPowerOfTwo(n / 2))
  }

  /** The smallest power of two strictly greater than m (the reference for `pot`). */
  function PowerOfTwoAbove(m: nat): (r: nat)
    ensures IsPowerOfTwo(r)
    ensures m < r
    ensures m == 0 ==> r == 1
    ensures m > 0 ==> r <= 2 * m
    decreases m
  {
    if m == 0 then 1
    else
      var q := PowerOfTwoAbove(m / 2);
      assert (2 * q) / 2 == q;
      2 * q
  }

  lemma {:induction false} PowerOfTwoAboveBounds(m: nat)
    ensures IsPowerOfTwo(PowerOfTwoAbove(m))
    ensures m + 1 <= PowerOfTwoAbove(m) < 2 * (m + 1)
  {
  }

  /** Between two powers of two, the larger is at least twice the smaller
      unless they are equal. */
  lemma {:induction false} PowerOfTwoOrder(p: nat, r: nat)
    requires IsPowerOfTwo(p) && IsPowerOfTwo(r)
    requires r < 2 * p
    ensures r <= p
    decreases r
  {
    if r > 1 && p > 1 {
      PowerOfTwoOrder(p / 2, r / 2);
    }
  }

  lemma {:induction false} DoubleIsPowerOfTwo(p: nat)
    ensures IsPowerOfTwo(p) ==> IsPowerOfTwo(2 * p)
  {
    assert (2 * p) / 2 == p;
  }

  /** No power of two held in 32 bits is above 2^31. */
  lemma {:induction false} PowerOfTwoBelowU32(p: nat)
    requires IsPowerOfTwo(p) && p < U32
    ensures p <= TopBit
  {
    TopBitIsPowerOfTwo();
    PowerOfTwoOrder(TopBit, p);
  }

  /** A power of two r with n <= r < 2n is the least power of two that is >= n. */
  lemma {:induction false} SmallestPowerOfTwoAtLeast(n: nat, r: nat, p: nat)
    requires IsPowerOfTwo(r) && n <= r && r < 2 * n
    requires IsPowerOfTwo(p) && n <= p
    ensures r <= p
  {
    PowerOfTwoOrder(p, r);
  }

  // ---------------------------------------------------------------------
  // The bit trick, on 32-bit words
  // ---------------------------------------------------------------------

  /** Copies every set bit into all the positions below it: the five
      or-shift steps of `pot`. */
  function Smear(y: bv32): bv32 {
    var y1 := y | (y >> 1);
    var y2 := y1 | (y1 >> 2);
    var y3 := y2 | (y2 >> 4);
    var y4 := y3 | (y3 >> 8);
    y4 | (y4 >> 16)
  }

  /** `pot` exactly as written: decrement, smear, increment, all wrapping
      modulo 2^32. */
  function Pot32(x: bv32): bv32 {
    Smear(x - 1) + 1
  }

  /** What the bit trick computes, stated on words: 0 and everything above
      2^31 wrap round to 0; in between, the result is a single set bit, at
      least x, and halving it drops below x; a single set bit is returned
      unchanged. */
  lemma {:induction false} Pot32Meaning(x: bv32)
    ensures x == 0 ==> Pot32(x) == 0
    ensures x > 0x8000_0000 ==> Pot32(x) == 0
    ensures 1 <= x <= 0x8000_0000 ==> var r := Pot32(x); r != 0 && r & (r - 1) == 0 && x <= r && (r >> 1) < x
    ensures x != 0 && x & (x - 1) == 0 ==> Pot32(x) == x
  {
    Pot32Wraps(x);
    Pot32InRange(x);
    Pot32FixesSingleBits(x);
  }

  lemma {:induction false} Pot32Wraps(x: bv32)
    ensures x == 0 || x > 0x8000_0000 ==> Pot32(x) == 0
  {
  }

  lemma {:induction false} Pot32InRange(x: bv32)
    ensures 1 <= x <= 0x8000_0000 ==> var r := Pot32(x); r != 0 && r & (r - 1) == 0 && x <= r && (r >> 1) < x
  {
  }

  lemma {:induction false} Pot32FixesSingleBits(x: bv32)
    ensures x != 0 && x & (x - 1) == 0 ==> Pot32(x) == x
  {
  }

  /** Smearing a nonzero word and adding one doubles what the same steps
      give for the word shifted right by one. */
  lemma {:induction false} SmearStep(y: bv32)
    requires y != 0
    ensures Smear(y) + 1 == (Smear(y >> 1) + 1) << 1
  {
  }

  // ---------------------------------------------------------------------
  // From naturals to words
  // ---------------------------------------------------------------------

  /** The 32-bit word holding n, built from its binary digits. */
  function ToU32(n: nat): bv32
    requires n < U32
  {
    if n == 0 then 0 else Words.AppendDigit(ToU32(n / 2), n % 2)
  }

  /** If h holds n / 2, then appending the last binary digit of n gives a
      word holding n. */
  lemma {:induction false} AppendValue(n: nat, h: bv32)
    requires 0 < n < 0x1_0000_0000 && h as int == n / 2
    ensures Words.AppendDigit(h, n % 2) as int == n
  {
    Words.DigitAsInt(h, n % 2);
  }

  /** ToU32 is the inverse of reading a word as a number. */
  lemma {:induction false} ToU32Value(n: nat)
    requires n < 0x1_0000_0000
    ensures ToU32(n) as int == n
    decreases n
  {
    if n > 0 {
      ToU32Value(n / 2);
      AppendValue(n, ToU32(n / 2));
    }
  }

  lemma {:induction false} ToU32Small(n: nat)
    requires n < 0x8000_0000
    ensures ToU32(n) < 0x8000_0000
  {
    ToU32Value(n);
    Words.BelowTopBit(ToU32(n));
  }

  /** Incrementing the word agrees with incrementing the number. */
  lemma {:induction false} ToU32Succ(m: nat)
    requires m + 1 < 0x1_0000_0000
    ensures ToU32(m) + 1 == ToU32(m + 1)
    decreases m
  {
    if m % 2 == 0 {
      ToU32SuccEven(m);
    } else {
      ToU32Succ(m / 2);
      ToU32SuccOdd(m);
    }
  }

  /** An even number ends in binary digit 0, so incrementing sets it. */
  lemma {:induction false} ToU32SuccEven(m: nat)
    requires m + 1 < 0x1_0000_0000 && m % 2 == 0
    ensures ToU32(m) + 1 == ToU32(m + 1)
  {
    ToU32OfOdd(m + 1, m / 2);
    if m == 0 {
      Words.IncrementEven(ToU32(0), 0, ToU32(1));
    } else {
      ToU32OfEven(m, m / 2);
      Words.IncrementEven(ToU32(m / 2), ToU32(m), ToU32(m + 1));
    }
  }

  /** An odd number ends in binary digit 1, so incrementing carries into
      the word for its upper digits. */
  lemma {:induction false} ToU32SuccOdd(m: nat)
    requires m + 1 < 0x1_0000_0000 && m % 2 == 1
    requires ToU32(m / 2) + 1 == ToU32(m / 2 + 1)
    ensures ToU32(m) + 1 == ToU32(m + 1)
  {
    ToU32OfOdd(m, m / 2);
    ToU32OfEven(m + 1, m / 2 + 1);
    Words.IncrementOdd(ToU32(m / 2), ToU32(m / 2 + 1), ToU32(m), ToU32(m + 1));
  }

  /** The word for 2h + 1 is the word for h with digit 1 appended. */
  lemma {:induction false} ToU32OfOdd(n: nat, h: nat)
    requires n < 0x1_0000_0000 && n == 2 * h + 1
    ensures ToU32(n) == Words.AppendDigit(ToU32(h), 1)
  {
    assert n / 2 == h && n % 2 == 1;
  }

  /** The word for 2h, h > 0, is the word for h with digit 0 appended. */
  lemma {:induction false} ToU32OfEven(n: nat, h: nat)
    requires n < 0x1_0000_0000 && n == 2 * h && h > 0
    ensures ToU32(n) == Words.AppendDigit(ToU32(h), 0)
  {
    assert n / 2 == h && n % 2 == 0;
  }

  /** Shifting the word right by one halves the number. */
  lemma {:induction false} ToU32Half(m: nat)
    requires m < 0x1_0000_0000
    ensures ToU32(m) >> 1 == ToU32(m / 2)
  {
    if m > 0 {
      ToU32Small(m / 2);
      Words.ShiftOutDigit(ToU32(m / 2), m % 2);
    }
  }

  lemma {:induction false} ToU32NonZero(m: nat)
    requires 0 < m < 0x1_0000_0000
    ensures ToU32(m) != 0
  {
    ToU32Value(m);
  }

  /** The smear-and-increment steps of `pot`, applied to the word holding m,
      compute the smallest power of two above m. */
  lemma {:induction false} SmearIncrementIsPowerOfTwoAbove(m: nat)
    requires m < 0x8000_0000
    ensures (Smear(ToU32(m)) + 1) as int == PowerOfTwoAbove(m)
    decreases m
  {
    if m > 0 {
      var y := ToU32(m);
      ToU32NonZero(m);
      SmearStep(y);
      ToU32Half(m);
      SmearIncrementIsPowerOfTwoAbove(m / 2);
      Words.DoubledAsInt(Smear(ToU32(m / 2)) + 1, Smear(y) + 1);
    }
  }

  // ---------------------------------------------------------------------
  // pot and is_pot on the naturals of the record
  // ---------------------------------------------------------------------

  /** `pot` applied to the unsigned int holding n. For 1 <= n <= 2^31 it is
      the smallest power of two that is at least n; for 0 and for anything
      above 2^31 the increment wraps round to 0. */
  function Pot(n: nat): (r: nat)
    requires n < U32
    ensures n == 0 ==> r == 0
    ensures n > TopBit ==> r == 0
    ensures 1 <= n <= TopBit ==> r == PowerOfTwoAbove(n - 1)
  {
    PotMeaning(n);
    Value(Pot32(ToU32(n)))
  }

  /** The number an unsigned int holds. */
  function Value(b: bv32): nat {
    b as nat
  }

  lemma {:induction false} PotMeaning(n: nat)
    requires n < U32
    ensures n == 0 ==> Value(Pot32(ToU32(n))) == 0
    ensures n > TopBit ==> Value(Pot32(ToU32(n))) == 0
    ensures 1 <= n <= TopBit ==> Value(Pot32(ToU32(n))) == PowerOfTwoAbove(n - 1)
  {
    if n > TopBit {
      PotOfLargeWraps(n);
      Words.ZeroAsInt(Pot32(ToU32(n)));
    } else if n >= 1 {
      PotOfInRange(n);
    } else {
      Words.ZeroAsInt(Pot32(ToU32(n)));
    }
  }

  lemma {:induction false} PotOfLargeWraps(n: nat)
    requires TopBit < n < U32
    ensures Pot32(ToU32(n)) == 0
  {
    ToU32Value(n);
    Words.AboveTopBit(ToU32(n));
    Pot32Meaning(ToU32(n));
  }

  lemma {:induction false} PotOfInRange(n: nat)
    requires 1 <= n <= TopBit
    ensures Pot32(ToU32(n)) as int == PowerOfTwoAbove(n - 1)
  {
    PotOfSuccessor(n - 1);
    SmearIncrementIsPowerOfTwoAbove(n - 1);
  }

  lemma {:induction false} PotOfSuccessor(m: nat)
    requires m + 1 < 0x1_0000_0000
    ensures Pot32(ToU32(m + 1)) == Smear(ToU32(m)) + 1
  {
    ToU32Succ(m);
  }

  /** 2^31 is a power of two: `pot` maps the word 0x8000_0000 to itself, and
      the bridge above says its result is a power of two. */
  lemma {:induction false} TopBitIsPowerOfTwo()
    ensures IsPowerOfTwo(TopBit)
  {
    PotOfInRange(TopBit);
    ToU32Value(TopBit);
    Words.WordOfTopBit(ToU32(TopBit));
    Pot32Meaning(ToU32(TopBit));
    Words.TopBitAsInt(Pot32(ToU32(TopBit)));
  }

  /** For 1 <= n <= 2^31, `pot` gives the smallest power of two that is at
      least n. */
  lemma {:induction false} PotRoundsUp(n: nat)
    requires 1 <= n <= TopBit
    ensures IsPowerOfTwo(Pot(n)) && n <= Pot(n) < 2 * n
    ensures forall p :: IsPowerOfTwo(p) && n <= p ==> Pot(n) <= p
  {
    PowerOfTwoAboveBounds(n - 1);
    forall p | IsPowerOfTwo(p) && n <= p
      ensures Pot(n) <= p
    {
      SmallestPowerOfTwoAtLeast(n, Pot(n), p);
    }
  }

  /** `pot` leaves a power of two unchanged. */
  lemma {:induction false} PotFixesPowersOfTwo(n: nat)
    requires IsPowerOfTwo(n) && n < U32
    ensures Pot(n) == n
  {
    PowerOfTwoBelowU32(n);
    PotRoundsUp(n);
  }

  /** `is_pot`: the C code compares ceil(log2(x)) with floor(log2(x)); both
      are -infinity at 0, so 0 passes the test along with every power of two. */
  predicate IsPot(n: nat) {
    n == 0 || IsPowerOfTwo(n)
  }

  /** `is_pot` and `pot` agree: a word passes `is_pot` exactly when `pot`
      leaves it unchanged. */
  lemma {:induction false} IsPotIffPotFixes(n: nat)
    requires n < U32
    ensures IsPot(n) <==> Pot(n) == n
  {
    if IsPowerOfTwo(n) {
      PotFixesPowersOfTwo(n);
    } else if n > 0 && Pot(n) == n {
      PotRoundsUp(n);
    }
  }
}
