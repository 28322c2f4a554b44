/** The bit operations of the 64-bit kernels, on naturals. */
module Bits {
  import opened Exact

  /** 2^64 and 2^63. */
  const WORD: nat := 0x1_0000_0000_0000_0000
  const SIGN: nat := 0x8000_0000_0000_0000

  function And(x: nat, y: nat): nat {
    if x == 0 || y == 0 then 0 else (x % 2) * (y % 2) + 2 * And(x / 2, y / 2)
  }

  /** The complement of a 64-bit word. */
  function Not(x: nat): nat
    requires x < WORD
  {
    WORD - 1 - x
  }

  /** Reading a 64-bit word as a signed integer. */
  function AsInt64(x: nat): int
    requires x < WORD
  {
    if x < SIGN then x else x - WORD
  }

  /** The width of the word, as a number the verifier does not compute with. */
  lemma WordBits() returns (w: nat)
    ensures w <= 63 && Pow(2, w) == SIGN && Pow(2, w + 1) == WORD
  {
    w := WordBitsExactly();
  }

  lemma WordBitsExactly() returns (w: nat)
    ensures 63 <= w <= 63 && Pow(2, w) == SIGN && Pow(2, w + 1) == WORD
  {
    w := 63;
    assert Pow(2, 1) == 2 && Pow(2, 2) == 2 * Pow(2, 1) && Pow(2, 3) == 2 * Pow(2, 2);
    PowAdd(2, 3, 3);
    PowAdd(2, 6, 3);
    PowAdd(2, 9, 9);
    assert Pow(2, 18) == 0x4_0000;
    PowAdd(2, 18, 18);
    assert Pow(2, 36) == 0x10_0000_0000;
    PowAdd(2, 36, 18);
    assert Pow(2, 54) == 0x40_0000_0000_0000;
    PowAdd(2, 54, 9);
  }

  lemma {:induction false} AndBit(x: nat, k: nat)
    ensures And(x, Pow(2, k)) == x / Pow(2, k) % 2 * Pow(2, k)
  {
    if k == 0 {
      assert And(x / 2, 0) == 0;
    } else {
      AndBit(x / 2, k - 1);
      DivDiv(x, 2, Pow(2, k - 1));
      Assoc(2, x / Pow(2, k) % 2, Pow(2, k - 1));
      AndDouble(x, Pow(2, k - 1));
    }
  }

  lemma AndDouble(x: nat, y: nat)
    ensures And(x, 2 * y) == 2 * And(x / 2, y)
  {
    if x > 0 && y > 0 {
      assert 2 * y / 2 == y && 2 * y % 2 == 0;
      assert (x % 2) * 0 == 0;
    }
  }

  /** The half bit, or anything below it, decides a rounding: `3 * 2^k - 1` masks the unit bit and the part below. */
  lemma {:induction false} AndUnitOrBelow(x: nat, k: nat)
    ensures And(x, 3 * Pow(2, k) - 1) != 0 <==> x % Pow(2, k) != 0 || x / Pow(2, k) / 2 % 2 == 1
  {
    var p := Pow(2, k);
    if k == 0 {
      assert And(x, 2) == 2 * And(x / 2, 1) by { AndDouble(x, 1); }
      AndBit(x / 2, 0);
    } else {
      var h := Pow(2, k - 1);
      AndUnitOrBelow(x / 2, k - 1);
      DivDiv(x, 2, h);
      assert (3 * p - 1) / 2 == 3 * h - 1 && (3 * p - 1) % 2 == 1;
      assert And(x, 3 * p - 1) == if x == 0 then 0 else x % 2 + 2 * And(x / 2, 3 * h - 1);
    }
  }

  lemma ClearDoubled(x: nat, c: nat, r: nat, rest: int)
    requires And(x / 2, c) == x / 2 - r && rest == x % 2 + 2 * r
    ensures And(x, 2 * c) == x - rest
  {
    AndDouble(x, c);
  }

  lemma SmallRemainder(x: nat, d: nat)
    requires x < d
    ensures x % d == x
  {}

  /** Clearing the low `k` bits of a `w`-bit number. */
  lemma {:induction false} AndClear(x: nat, k: nat, w: nat)
    requires x < Pow(2, w) && k <= w
    ensures Pow(2, k) <= Pow(2, w) && And(x, Pow(2, w) - Pow(2, k)) == x - x % Pow(2, k)
    decreases w
  {
    PowMono(2, k, w);
    if k > 0 {
      AndClear(x / 2, k - 1, w - 1);
      RemainderByDouble(x, Pow(2, k - 1));
      ClearDoubled(x, Pow(2, w - 1) - Pow(2, k - 1), x / 2 % Pow(2, k - 1), x % Pow(2, k));
    } else {
      AndMask(x, w);
      SmallRemainder(x, Pow(2, w));
    }
  }

  function Or(x: nat, y: nat): nat {
    if x == 0 then y else if y == 0 then x else Max(x % 2, y % 2) + 2 * Or(x / 2, y / 2)
  }

  /** OR-ing two bits in keeps everything above them, and leaves them clear exactly if both were. */
  lemma OrTwoBits(x: nat, y: nat)
    requires y < 4
    ensures Or(x, y) / 4 == x / 4 && (Or(x, y) % 4 == 0 <==> x % 4 == 0 && y == 0)
    ensures y < 2 ==> Or(x, y) / 2 == x / 2 && (Or(x, y) % 2 == 0 <==> x % 2 == 0 && y == 0)
  {
    assert y / 2 / 2 == 0;
    assert Or(x / 2 / 2, 0) == x / 2 / 2;
    assert x / 2 / 2 == x / 4;
  }

  lemma DoubleScaled(x: nat, p: nat)
    requires x > 0 && p > 0
    ensures x * (2 * p) == 2 * (x * p) && x * p > 0
  {}

  lemma OrDouble(h: nat, y: nat)
    requires h > 0 && y > 0
    ensures Or(2 * h, y) == y % 2 + 2 * Or(h, y / 2)
  {
    assert 2 * h / 2 == h && 2 * h % 2 == 0;
  }

  /** OR-ing in bits below the lowest one set is adding. */
  lemma {:induction false} OrAdds(x: nat, y: nat, k: nat)
    requires y < Pow(2, k)
    ensures Or(x * Pow(2, k), y) == x * Pow(2, k) + y
  {
    if k > 0 && x > 0 && y > 0 {
      OrAdds(x, y / 2, k - 1);
      DoubleScaled(x, Pow(2, k - 1));
      OrDouble(x * Pow(2, k - 1), y);
    }
  }

  lemma AndThree(x: nat)
    ensures And(x, 3) == x % 4
  {
    assert And(x / 2 / 2, 0) == 0;
    assert And(x / 2, 1) == x / 2 % 2;
  }

  /** The mask of the two top bits of a word. */
  lemma AndTopTwo(x: nat)
    requires x < WORD
    ensures And(x, 0xc000_0000_0000_0000) != 0 <==> x >= 0x4000_0000_0000_0000
  {
    var w := WordBits();
    assert Pow(2, w - 1) == 0x4000_0000_0000_0000;
    AndClear(x, w - 1, w + 1);
  }

  function Xor(x: nat, y: nat): nat {
    if x == 0 then y else if y == 0 then x else (x + y) % 2 + 2 * Xor(x / 2, y / 2)
  }

  lemma AndOdd(x: nat, p: nat)
    requires x > 0 && p > 0
    ensures And(x, 2 * p - 1) == x % 2 + 2 * And(x / 2, p - 1)
  {
    assert (2 * p - 1) / 2 == p - 1 && (2 * p - 1) % 2 == 1;
  }

  lemma RemainderByDouble(x: nat, p: nat)
    requires p > 0
    ensures x % (2 * p) == x % 2 + 2 * (x / 2 % p)
  {
    DivDiv(x, 2, p);
  }

  lemma MaskStep(x: nat, p: nat, mask: nat, high: nat, rest: nat)
    requires x > 0 && p > 0 && mask == 2 * p - 1 && And(x / 2, p - 1) == high && rest == x % 2 + 2 * high
    ensures And(x, mask) == rest
  {
    AndOdd(x, p);
  }

  /** Masking with 2^k - 1 is the remainder by 2^k. */
  lemma {:induction false} AndMask(x: nat, k: nat)
    ensures And(x, Pow(2, k) - 1) == x % Pow(2, k)
    decreases k
  {
    if x == 0 {
      SmallRemainder(0, Pow(2, k));
    } else if k == 0 {
      SmallRemainder(0, 1);
    } else {
      var p := Pow(2, k - 1);
      AndMask(x / 2, k - 1);
      RemainderByDouble(x, p);
      MaskStep(x, p, Pow(2, k) - 1, x / 2 % p, x % Pow(2, k));
    }
  }
}
