/** strscan.js: how the scanners read digits from the heap, and `strscan_hex`. */
module ScanText {
  import opened Exact
  import opened Positional
  import opened Bits
  import opened Ieee
  import opened Fpu
  import opened ScanDouble
  import opened Sticky

  const DOT: nat := 46
  const ZERO: nat := 48

  /** The heap byte at `p`. */
  function Byte(h: seq<nat>, p: nat): nat {
    if p < |h| then h[p] else 0
  }

  /** A digit read steps over the decimal point. */
  function SkipDot(h: seq<nat>, p: nat): nat {
    if Byte(h, p) != DOT then p else p + 1
  }

  /** The pointer after `k` digits read from `p`. */
  function After(h: seq<nat>, p: nat, k: nat): nat {
    if k == 0 then p else SkipDot(h, After(h, p, k - 1)) + 1
  }

  /** The byte of digit `k` from `p`. */
  function DigitByte(h: seq<nat>, p: nat, k: nat): nat {
    Byte(h, SkipDot(h, After(h, p, k)))
  }

  predicate IsDecByte(c: nat) { 48 <= c <= 57 }

  predicate IsHexByte(c: nat) { IsDecByte(c) || 65 <= c <= 70 || 97 <= c <= 102 }

  function HexValue(c: nat): nat {
    if 97 <= c then c - 87 else if 65 <= c then c - 55 else if 48 <= c then c - 48 else 0
  }

  /** The digit values of the `n` digits read from `p`. */
  function Values(h: seq<nat>, p: nat, n: nat): (s: seq<nat>)
    ensures |s| == n
  {
    if n == 0 then [] else Values(h, p, n - 1) + [HexValue(DigitByte(h, p, n - 1))]
  }

  lemma NumeralStep(base: nat, h: seq<nat>, p: nat, n: nat)
    ensures Numeral(base, Values(h, p, n + 1)) == Numeral(base, Values(h, p, n)) * base + HexValue(DigitByte(h, p, n))
  {
    assert Values(h, p, n + 1)[..n] == Values(h, p, n);
  }

  // ----- hexadecimal -----

  /** One more hexadecimal digit past the sixteenth, folded into the sticky bit. */
  lemma FoldHexDigit(n: nat, k: nat, x: nat, d: nat)
    requires Folds(n, k, x, 1) && d < 16
    ensures Folds(n * 16 + d, k + 4, Or(x, if d != 0 then 1 else 0), 1)
  {
    OrTwoBits(x, if d != 0 then 1 else 0);
    assert Pow(2, k + 5) == 2 * Pow(2, k + 4) && Pow(2, k + 4) == 2 * Pow(2, k + 3)
        && Pow(2, k + 3) == 2 * Pow(2, k + 2);
    DivUnique(n * 16 + d, 16, n, d);
    DivDiv(n * 16 + d, 16, Pow(2, k + 1));
  }

  /** Making room for the sign keeps the two bits shifted out. */
  lemma FoldTopShift(x: nat)
    ensures Folds(x, 2, Or(x / 4, And(x, 3)), 2)
  {
    AndThree(x);
    OrTwoBits(x / 4, x % 4);
    DivDiv(x, 4, 4);
    assert Pow(2, 1) == 2 && Pow(2, 2) == 4 && Pow(2, 3) == 8 && Pow(2, 4) == 16;
  }

  method NextHex(h: seq<nat>, p0: nat, p: nat, ghost k: nat) returns (d: nat, q: nat)
    requires p == After(h, p0, k) && IsHexByte(DigitByte(h, p0, k))
    ensures d == HexValue(DigitByte(h, p0, k)) && q == After(h, p0, k + 1)
  {
    q := SkipDot(h, p);
    d := Byte(h, q);
    if d > 57 { d := d + 9; }
    HexNibble(DigitByte(h, p0, k));
    d, q := d % 16, q + 1;
  }

  /** The first loop of `strscan_hex`: at most sixteen digits, exactly. */
  method HexHead(h: seq<nat>, p0: nat, n: nat) returns (x: nat, p: nat)
    requires n <= 16 && (forall k | 0 <= k < n :: IsHexByte(DigitByte(h, p0, k)))
    ensures x < WORD && x == Numeral(16, Values(h, p0, n)) && p == After(h, p0, n)
  {
    x, p := 0, p0;
    var i := n;
    ghost var done := 0;
    while i > 0
      invariant i >= 0 && done + i == n && p == After(h, p0, done) && x == Numeral(16, Values(h, p0, done))
    {
      var d;
      d, p := NextHex(h, p0, p, done);
      NumeralStep(16, h, p0, done);
      x := x * 16 + d;
      done := done + 1;
      i := i - 1;
    }
    HexWord(h, p0, n);
  }

  lemma HexWord(h: seq<nat>, p: nat, n: nat)
    requires n <= 16 && (forall k | 0 <= k < n :: IsHexByte(DigitByte(h, p, k)))
    ensures Numeral(16, Values(h, p, n)) < WORD
  {
    ValuesIndex(h, p, n);
    NumeralBound(16, Values(h, p, n));
    SixteenDigits(n, Numeral(16, Values(h, p, n)));
  }

  /** The second loop: every further digit only as a sticky bit, four binary places each. */
  method HexTail(h: seq<nat>, p0: nat, x0: nat, p1: nat, ex2: int, dig: nat) returns (x: nat, ex: int)
    requires dig >= 16 && x0 < WORD && p1 == After(h, p0, 16) && Folds(Numeral(16, Values(h, p0, 16)), 0, x0, 1)
    requires forall k | 0 <= k < dig :: IsHexByte(DigitByte(h, p0, k))
    ensures x0 <= x < WORD && ex == ex2 + 4 * (dig - 16) && Folds(Numeral(16, Values(h, p0, dig)), 4 * (dig - 16), x, 1)
  {
    x, ex := x0, ex2;
    var p: nat, j: nat := p1, 16;
    while j < dig
      invariant 16 <= j <= dig && p == After(h, p0, j) && ex == ex2 + 4 * (j - 16) && x0 <= x < WORD
      invariant Folds(Numeral(16, Values(h, p0, j)), 4 * (j - 16), x, 1)
    {
      x, p := StickyDigit(h, p0, p, x, j);
      ex, j := ex + 4, j + 1;
    }
  }

  /** One further digit folded into the sticky bit. */
  method StickyDigit(h: seq<nat>, p0: nat, p: nat, x: nat, ghost j: nat) returns (y: nat, q: nat)
    requires j >= 16 && p == After(h, p0, j) && x < WORD && IsHexByte(DigitByte(h, p0, j))
    requires Folds(Numeral(16, Values(h, p0, j)), 4 * (j - 16), x, 1)
    ensures x <= y < WORD && q == After(h, p0, j + 1)
    ensures Folds(Numeral(16, Values(h, p0, j + 1)), 4 * (j + 1 - 16), y, 1)
  {
    q := SkipDot(h, p);
    var bit := if Byte(h, q) != ZERO then 1 else 0;
    NumeralStep(16, h, p0, j);
    HexNibble(Byte(h, q));
    FoldHexDigit(Numeral(16, Values(h, p0, j)), 4 * (j - 16), x, HexValue(Byte(h, q)));
    OrTwoBits(x, bit);
    y, q := Or(x, bit), q + 1;
  }

  lemma HexNibble(c: nat)
    requires IsHexByte(c)
    ensures (if c > 57 then c + 9 else c) % 16 == HexValue(c) < 16 && (HexValue(c) != 0 <==> c != ZERO)
  {}

  lemma SixteenDigits(n: nat, x: nat)
    requires n <= 16 && x < Pow(16, n)
    ensures x < WORD
  {
    PowMono(16, n, 16);
    assert Pow(16, 1) == 16 && Pow(16, 2) == 256;
    PowAdd(16, 2, 2);
    PowAdd(16, 4, 4);
    PowAdd(16, 8, 8);
  }

  lemma LeadingHex(h: seq<nat>, p: nat)
    requires forall k | 0 <= k < 16 :: IsHexByte(DigitByte(h, p, k))
    requires HexValue(DigitByte(h, p, 0)) > 0
    ensures Numeral(16, Values(h, p, 16)) >= 0x1000_0000_0000_0000
  {
    ValuesIndex(h, p, 16);
    NumeralBound(16, Values(h, p, 16));
    SixteenPowers();
  }

  lemma SixteenPowers()
    ensures Pow(16, 15) == 0x1000_0000_0000_0000
  {
    assert Pow(16, 1) == 16 && Pow(16, 2) == 256 && Pow(16, 3) == 0x1000;
    PowAdd(16, 3, 3);
    PowAdd(16, 6, 6);
    PowAdd(16, 12, 3);
  }

  lemma {:induction false} ValuesIndex(h: seq<nat>, p: nat, n: nat)
    ensures forall k | 0 <= k < n :: Values(h, p, n)[k] == HexValue(DigitByte(h, p, k))
  {
    if n > 0 {
      ValuesIndex(h, p, n - 1);
    }
  }

  method StrscanHex(f: Format, h: seq<nat>, p: nat, ex2: int, neg: bool, dig: nat) returns (r: Double)
    requires Roomy(f) && (forall k | 0 <= k < dig :: IsHexByte(DigitByte(h, p, k)))
    requires dig > 16 ==> HexValue(DigitByte(h, p, 0)) > 0
    ensures r == RoundExact(f, neg, Numeral(16, Values(h, p, dig)), ex2)
  {
    ghost var n := Numeral(16, Values(h, p, dig));
    var ex := ex2;
    var x, q := HexHead(h, p, if dig > 16 then 16 else dig);
    if dig > 16 {
      LeadingHex(h, p);
      x, ex := HexTail(h, p, x, q, ex2, dig);
      FoldedTail(f, n, 4 * (dig - 16), x, ex2);
    }
    AndTopTwo(x);
    if And(x, 0xc000_0000_0000_0000) != 0 {
      FoldedTop(f, x, ex);
      x := Or(x / 4, And(x, 3));
      ex := ex + 2;
    }
    SmallNeverWraps(f, x, ex);
    r := StrscanDouble(f, x, ex, neg);
  }

  lemma FoldedTail(f: Format, n: nat, k: nat, x: nat, e: int)
    requires f.bits <= 56 && Folds(n, k, x, 1) && x >= 0x1000_0000_0000_0000
    ensures RoundUnits(f, Num(f, x, e + k), Den(f, e + k)) == RoundUnits(f, Num(f, n, e), Den(f, e))
  {
    MoreThanSixtyBits(x);
    FoldRounds(f, n, k, x, 1, e);
  }

  lemma FoldedTop(f: Format, x: nat, e: int)
    requires f.bits <= 56 && 0x4000_0000_0000_0000 <= x < WORD
    ensures var y := Or(x / 4, And(x, 3));
        2 * y < SIGN && RoundUnits(f, Num(f, y, e + 2), Den(f, e + 2)) == RoundUnits(f, Num(f, x, e), Den(f, e))
  {
    var y := Or(x / 4, And(x, 3));
    ShiftedTop(x, y);
    FoldRounds(f, x, 2, y, 2, e);
  }

  lemma ShiftedTop(x: nat, y: nat)
    requires 0x4000_0000_0000_0000 <= x < WORD && y == Or(x / 4, And(x, 3))
    ensures 2 * y < SIGN && Folds(x, 2, y, 2) && BitLen(y) > 60
  {
    AndThree(x);
    OrTwoBits(x / 4, x % 4);
    FoldTopShift(x);
    MoreThanSixtyBits(y);
  }

  lemma {:induction false} MoreThanSixtyBits(x: nat)
    requires x >= 0x1000_0000_0000_0000
    ensures BitLen(x) > 60
  {
    var w := WordBitsExactly();
    var b := Pow(2, w - 3);
    assert Pow(2, w) == 2 * Pow(2, w - 1) && Pow(2, w - 1) == 2 * Pow(2, w - 2) && Pow(2, w - 2) == 2 * b;
    BitLenUnique(b, w - 2);
    BitLenMono(b, x);
  }
}
