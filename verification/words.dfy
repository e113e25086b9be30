/**
  Facts about reading a 32-bit word as a number, each small enough for the
  solver to settle by itself.
 */
module Words {

  lemma {:induction false} BelowTopBit(h: bv32)
    requires h as int < 0x8000_0000
    ensures h < 0x8000_0000
  {
  }

  lemma {:induction false} AboveTopBit(h: bv32)
    requires h as int > 0x8000_0000
    ensures h > 0x8000_0000
  {
    if h < 0x8000_0000 {
      BelowTopBitAsInt(h);
    } else if h == 0x8000_0000 {
      TopBitAsInt(h);
    }
  }

  lemma {:induction false} DoubleAsInt(h: bv32)
    requires h < 0x8000_0000
    ensures (h << 1) as int == 2 * (h as int)
  {
  }

  lemma {:induction false} DoublePlusOneAsInt(h: bv32)
    requires h < 0x8000_0000
    ensures ((h << 1) | 1) as int == 2 * (h as int) + 1
  {
  }

  /** The word h shifted left by one with the binary digit d in the
      vacated place. */
  function AppendDigit(h: bv32, d: nat): bv32 {
    if d == 1 then (h << 1) | 1 else h << 1
  }

  /** Appending binary digit d to a word below 2^31 doubles its value and
      adds d. */
  lemma {:induction false} DigitAsInt(h: bv32, d: nat)
    requires h as int < 0x8000_0000 && d <= 1
    ensures AppendDigit(h, d) as int == 2 * (h as int) + d
  {
    BelowTopBit(h);
    if d == 1 {
      DoublePlusOneAsInt(h);
    } else {
      DoubleAsInt(h);
    }
  }

  lemma {:induction false} DoubledAsInt(p: bv32, b: bv32)
    requires p as int < 0x8000_0000
    requires b == p << 1
    ensures b as int == 2 * (p as int)
  {
    BelowTopBit(p);
    DoubleAsInt(p);
  }

  lemma {:induction false} WordOfTopBit(b: bv32)
    requires b as int == 0x8000_0000
    ensures b == 0x8000_0000
  {
    if b < 0x8000_0000 {
      BelowTopBitAsInt(b);
    } else if b > 0x8000_0000 {
      AboveTopBitAsInt(b);
    }
  }

  lemma {:induction false} BelowTopBitAsInt(b: bv32)
    requires b < 0x8000_0000
    ensures b as int < 0x8000_0000
  {
    var h := b + 0x8000_0000;
    AtLeastTopBitAsInt(h);
    assert h as int == b as int + 0x8000_0000;
  }

  lemma {:induction false} AtLeastTopBitAsInt(h: bv32)
    requires h >= 0x8000_0000
    ensures h as int >= 0x8000_0000
  {
  }

  lemma {:induction false} AboveTopBitAsInt(b: bv32)
    requires b > 0x8000_0000
    ensures b as int > 0x8000_0000
  {
  }

  lemma {:induction false} ZeroAsInt(b: bv32)
    requires b == 0
    ensures b as int == 0
  {
  }

  lemma {:induction false} TopBitAsInt(b: bv32)
    requires b == 0x8000_0000
    ensures b as int == 0x8000_0000
  {
  }

  /** Incrementing a word that ends in binary digit 0 sets that digit. */
  lemma {:induction false} IncrementEven(h: bv32, a: bv32, b: bv32)
    ensures a == AppendDigit(h, 0) && b == AppendDigit(h, 1) ==> a + 1 == b
  {
  }

  /** Incrementing a word that ends in binary digit 1 clears that digit and
      carries into the rest: g is the rest, incremented. */
  lemma {:induction false} IncrementOdd(h: bv32, g: bv32, a: bv32, b: bv32)
    ensures h + 1 == g && a == AppendDigit(h, 1) && b == AppendDigit(g, 0) ==> a + 1 == b
  {
  }

  lemma {:induction false} ShiftOutDigit(h: bv32, d: nat)
    requires h < 0x8000_0000
    ensures AppendDigit(h, d) >> 1 == h
  {
  }
}
