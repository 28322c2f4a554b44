/** strscan.js, `strscan_double`: a 64-bit integer times a power of two, stored as a double. */
module ScanDouble {
  import opened Exact
  import opened Bits
  import opened Ieee
  import opened Fpu

  /** The largest power a 64-bit integer reaches stays a finite double, and binades fit the word. */
  predicate Roomy(f: Format) {
    f.low + 64 < f.top && f.bits <= 56 && f.Encodable()
  }

  /** The exponents at which the result is subnormal but not below half the smallest one: the code rounds first. */
  predicate PreRounds(f: Format, x: nat, ex2: int) {
    && ex2 <= 0 - f.low - 1 && x != 0
    && BitLen(x) - 1 + ex2 <= 0 - f.low + f.bits - 2
    && BitLen(x) - 1 + ex2 >= 0 - f.low - 1
  }

  /** The integer the code converts: rounded half to even at the lowest unit when that comes first. */
  function PreRounded(f: Format, x: nat, ex2: int): nat {
    if PreRounds(f, x, ex2) then HalfEven(x, Pow(2, 0 - f.low - ex2)) * Pow(2, 0 - f.low - ex2) else x
  }

  /** When the rounded integer is 2^63, which the conversion reads as a negative number: the half unit 2^k takes the
      value past 2^63, or exactly to it with an even multiple above. */
  predicate Wraps(f: Format, x: nat, ex2: int) {
    && PreRounds(f, x, ex2)
    && var half := Pow(2, 0 - f.low - 1 - ex2);
       x + half > SIGN || (x + half == SIGN && 2 * half < SIGN)
  }

  /** The first half of the code: the rounding by masks. */
  method PreRound(f: Format, x0: nat, ex2: int) returns (x: nat)
    requires x0 < SIGN
    ensures x == PreRounded(f, x0, ex2) && x <= SIGN
  {
    x := x0;
    if ex2 <= 0 - f.low - 1 && x != 0 {
      var b := BitLen(x) - 1;
      if b + ex2 <= 0 - f.low + f.bits - 2 && b + ex2 >= 0 - f.low - 1 {
        var k := 0 - f.low - 1 - ex2;
        var rb := Pow(2, k);
        HalfBitFits(x, k);
        if And(x, rb) != 0 && And(x, 3 * rb - 1) != 0 {
          x := (x + 2 * rb) % WORD;
        }
        RoundByMask(x0, x, k);
        x := And(x, Not(2 * rb - 1));
      }
    }
  }

  method StrscanDouble(f: Format, x0: nat, ex2: int, neg: bool) returns (r: Double)
    requires x0 < SIGN && Roomy(f)
    ensures r == RoundExact(f, if Wraps(f, x0, ex2) then !neg else neg, x0, ex2)
    ensures r == RoundExact(f, neg, x0, ex2) <==> !Wraps(f, x0, ex2)
  {
    var x := PreRound(f, x0, ex2);
    var v := AsInt64(x);
    ConvertThenScale(f, x0, ex2);
    WrapsExactly(f, x0, ex2);
    var n := Round(f, v < 0, Abs(v) * Pow(2, f.low), 1);
    n := if neg then Negate(n) else n;
    if ex2 != 0 {
      n := LdexpOnce(f, n, ex2);
    }
    r := n;
  }

  // ----- the mask arithmetic is a rounding -----

  lemma HalfBitFits(x: nat, k: int)
    requires 0 < x < SIGN && 0 <= k <= BitLen(x) - 1
    ensures 2 * Pow(2, k) <= SIGN && Pow(2, k) <= x && 2 * Pow(2, k) <= 2 * x
  {
    var w := WordBits();
    BitLenBounds(x);
    PowMono(2, k, BitLen(x) - 1);
    BitLenBelowPower(x, w);
    PowMono(2, k + 1, w);
  }

  lemma {:induction false} BitLenBelowPower(x: nat, w: nat)
    requires x < Pow(2, w)
    ensures BitLen(x) <= w
  {
    if x > 0 {
      BitLenBounds(x);
      if BitLen(x) > w { PowMono(2, w, BitLen(x) - 1); }
    }
  }

  /** Adding two half units where the half bit and anything else is set, then masking, rounds half to even. */
  lemma RoundByMask(x: nat, y: nat, k: nat)
    requires x < SIGN && 2 * Pow(2, k) <= SIGN
    requires y == if And(x, Pow(2, k)) != 0 && And(x, 3 * Pow(2, k) - 1) != 0 then (x + 2 * Pow(2, k)) % WORD else x
    ensures And(y, Not(2 * Pow(2, k) - 1)) == HalfEven(x, Pow(2, k + 1)) * Pow(2, k + 1) <= SIGN
  {
    var w := WordBits();
    if k + 1 > w { PowStrict(w, k + 1); }
    AtMostSign(x, k + 1, w);
    MaskedStep(x, y, k);
    AndClear(y, k + 1, w + 1);
  }

  lemma MaskedStep(x: nat, y: nat, k: nat)
    requires x < SIGN && 2 * Pow(2, k) <= SIGN
    requires y == if And(x, Pow(2, k)) != 0 && And(x, 3 * Pow(2, k) - 1) != 0 then (x + 2 * Pow(2, k)) % WORD else x
    ensures y < WORD && y - y % Pow(2, k + 1) == HalfEven(x, Pow(2, k + 1)) * Pow(2, k + 1)
  {
    AndBit(x, k);
    AndUnitOrBelow(x, k);
    MaskDecides(x, Pow(2, k));
    MultiplesOfGrid(x, y, Pow(2, k + 1));
  }

  lemma MaskDecides(x: nat, h: nat)
    requires h > 0
    ensures 2 * (x % (2 * h)) > 2 * h || (2 * (x % (2 * h)) == 2 * h && x / (2 * h) % 2 == 1) <==>
            x / h % 2 * h != 0 && (x % h != 0 || x / h / 2 % 2 == 1)
  {
    DivDiv(x, h, 2);
    assert h * 2 == 2 * h;
    if x / h % 2 == 0 { assert 0 * h == 0; } else { assert 1 * h == h; }
  }

  lemma MultiplesOfGrid(x: nat, y: nat, g: nat)
    requires g > 0
    requires y == if HalfEven(x, g) == x / g then x else x + g
    ensures y - y % g == HalfEven(x, g) * g
  {
    assert x == x / g * g + x % g;
    if y != x {
      Distrib(x / g, 1, g);
      DivUnique(y, g, x / g + 1, x % g);
    }
  }

  lemma AtMostSign(x: nat, k: nat, w: nat)
    requires x < Pow(2, w) && k <= w
    ensures HalfEven(x, Pow(2, k)) * Pow(2, k) <= Pow(2, w)
  {
    PowAdd(2, w - k, k);
    HalfEvenMono(x, Pow(2, w), Pow(2, k));
    HalfEvenExact(Pow(2, w - k), Pow(2, k));
    MulMono(Pow(2, k), HalfEven(x, Pow(2, k)), Pow(2, w - k));
  }

  /** The only pre-rounded value that is no 63-bit integer is 2^63. */
  lemma WrapsOnlyAtSign(f: Format, x: nat, ex2: int)
    requires x < SIGN
    ensures PreRounded(f, x, ex2) <= SIGN
  {
    if PreRounds(f, x, ex2) {
      var w := WordBits();
      var k := 0 - f.low - ex2;
      BitLenBelowPower(x, w);
      AtMostSign(x, k, w);
    }
  }

  lemma WrapsExactly(f: Format, x: nat, ex2: int)
    requires x < SIGN
    ensures PreRounded(f, x, ex2) >= SIGN <==> Wraps(f, x, ex2)
  {
    if PreRounds(f, x, ex2) {
      var w := WordBits();
      var k := 0 - f.low - 1 - ex2;
      HalfBitFits(x, k);
      if k + 1 > w { PowStrict(w, k + 1); }
      PowAdd(2, w - k - 1, k + 1);
      RoundsToTop(x, Pow(2, k), Pow(2, w - k - 1));
      if w - k - 1 > 0 { EvenPower(w - k - 1); }
    }
  }

  /** Below 2^62 nothing wraps. */
  lemma SmallNeverWraps(f: Format, x: nat, ex2: int)
    requires 2 * x < SIGN
    ensures !Wraps(f, x, ex2)
  {
    if PreRounds(f, x, ex2) {
      HalfBitFits(x, 0 - f.low - 1 - ex2);
    }
  }

  lemma RoundsToTop(x: nat, h: nat, m: nat)
    requires h > 0 && m > 0 && x < m * (2 * h)
    ensures HalfEven(x, 2 * h) * (2 * h) >= m * (2 * h) <==> x + h > m * (2 * h) || (x + h == m * (2 * h) && m % 2 == 0)
  {
    var g := 2 * h;
    QuotientBound(x, g, m);
    Distrib(m - 1, 1, g);
    QuotientBound(x, g, m - 1);
    HalfEvenBounds(x, g);
    if HalfEven(x, g) < m { MulStrict(g, HalfEven(x, g), m); } else { MulMono(g, m, HalfEven(x, g)); }
    if x / g == m - 1 {
      assert x == (m - 1) * g + x % g;
    }
  }

  /** Without the guard the statement is false: just below 2^63, at the binary64 exponent -1085, the sign flips. */
  lemma WrapExample()
    ensures SIGN - 1 < SIGN && Wraps(BINARY64, SIGN - 1, -1085)
  {
    var w := WordBitsExactly();
    BitLenUnique(SIGN - 1, w);
    PowMono(2, 1, 10);
  }

  // ----- converting to a double and scaling it rounds once -----

  lemma ConvertThenScale(f: Format, x: nat, ex2: int)
    requires x < SIGN && Roomy(f)
    ensures var u := RoundUnits(f, PreRounded(f, x, ex2) * Pow(2, f.low), 1);
            && IsValue(f, u)
            && (ex2 == 0 ==> u == RoundUnits(f, Num(f, x, ex2), Den(f, ex2)))
            && (ex2 >= 0 ==> RoundUnits(f, u * Pow(2, ex2), 1) == RoundUnits(f, Num(f, x, ex2), Den(f, ex2)))
            && (ex2 < 0 ==> RoundUnits(f, u, Pow(2, 0 - ex2)) == RoundUnits(f, Num(f, x, ex2), Den(f, ex2)))
  {
    var y := PreRounded(f, x, ex2);
    RoundUnitsFits(f, y * Pow(2, f.low), 1);
    WrapsOnlyAtSign(f, x, ex2);
    ConversionFinite(f, y);
    if PreRounds(f, x, ex2) {
      ScaleAfterRounding(f, x, ex2);
    } else if BitLen(x) - f.bits < 0 - f.low - ex2 && BitLen(x) < 0 - f.low - ex2 {
      ScaleBelowHalf(f, x, ex2);
    } else {
      ScaleNormal(f, x, ex2);
    }
  }

  lemma ConversionFinite(f: Format, y: nat)
    requires y <= SIGN && Roomy(f)
    ensures RoundUnits(f, y * Pow(2, f.low), 1) < Pow(2, f.top)
  {
    var w := WordBits();
    BoundedRounding(f, y, w);
    PowStrict(w + f.low, f.top);
  }

  /** Inside the pre-rounding window the integer already sits on the lowest grid. */
  lemma ScaleAfterRounding(f: Format, x: nat, ex2: int)
    requires PreRounds(f, x, ex2)
    ensures RoundUnits(f, RoundUnits(f, PreRounded(f, x, ex2) * Pow(2, f.low), 1), Pow(2, 0 - ex2))
        == RoundUnits(f, Num(f, x, ex2), Den(f, ex2))
  {
    var k := 0 - f.low - ex2;
    ScaledDown(f, x, k, k);
    OnLowestGrid(f, HalfEven(x, Pow(2, k)), k);
  }

  lemma OnLowestGrid(f: Format, q: nat, k: nat)
    requires q <= Pow(2, f.bits)
    ensures RoundUnits(f, RoundUnits(f, q * Pow(2, k) * Pow(2, f.low), 1), Pow(2, k + f.low)) == q
  {
    PowAdd(2, k, f.low);
    Assoc(q, Pow(2, k), Pow(2, f.low));
    FitsScaled(f, q, k + f.low);
    RoundIdentity(f, q * Pow(2, k + f.low), 1);
    FitsScaled(f, q, 0);
    RoundIdentity(f, q, Pow(2, k + f.low));
  }

  /** Below half the smallest subnormal both ways give zero. */
  lemma ScaleBelowHalf(f: Format, x: nat, ex2: int)
    requires ex2 < 0 && BitLen(x) < 0 - f.low - ex2
    ensures RoundUnits(f, RoundUnits(f, x * Pow(2, f.low), 1), Pow(2, 0 - ex2))
        == RoundUnits(f, Num(f, x, ex2), Den(f, ex2))
  {
    var l, k := BitLen(x), 0 - f.low - ex2;
    var u := RoundUnits(f, x * Pow(2, f.low), 1);
    if x > 0 { BitLenBounds(x); }
    BoundedRounding(f, x, l);
    PowStrict(l, k);
    PowStrict(l + f.low, 0 - ex2);
    HalfIsZero(f, u, Pow(2, 0 - ex2));
    HalfIsZero(f, x, Pow(2, k));
  }

  lemma BoundedRounding(f: Format, x: nat, l: nat)
    requires x <= Pow(2, l)
    ensures RoundUnits(f, x * Pow(2, f.low), 1) <= Pow(2, l + f.low)
  {
    MulMono(Pow(2, f.low), x, Pow(2, l));
    FitsScaled(f, 1, l + f.low);
    PowAdd(2, l, f.low);
    RoundIdentity(f, Pow(2, l + f.low), 1);
    RoundMonotone(f, x * Pow(2, f.low), Pow(2, l + f.low), 1);
  }

  lemma HalfIsZero(f: Format, u: nat, d: nat)
    requires d > 0 && 2 * u <= d
    ensures RoundUnits(f, u, d) == 0
  {
    DivUnique(u, d, 0, u);
    assert Pow(2, Ulp(f, 0)) == 1 && d * 1 == d;
  }

  /** Elsewhere the conversion rounds at the grid of the result, and the scaling is exact. */
  lemma ScaleNormal(f: Format, x: nat, ex2: int)
    requires BitLen(x) - f.bits >= 0 - f.low - ex2 || 0 - f.low - ex2 <= 0
    ensures var u := RoundUnits(f, x * Pow(2, f.low), 1);
            && (ex2 == 0 ==> u == RoundUnits(f, Num(f, x, ex2), Den(f, ex2)))
            && (ex2 >= 0 ==> RoundUnits(f, u * Pow(2, ex2), 1) == RoundUnits(f, Num(f, x, ex2), Den(f, ex2)))
            && (ex2 < 0 ==> RoundUnits(f, u, Pow(2, 0 - ex2)) == RoundUnits(f, Num(f, x, ex2), Den(f, ex2)))
  {
    var q, s := Converted(f, x);
    ShiftRounds(f, f.low, x, ex2);
    if ex2 >= 0 {
      ScaleUpExact(f, q, s + f.low, ex2);
    } else {
      ScaleDownExact(f, q, s + f.low + ex2, 0 - ex2);
    }
  }

  /** The conversion of an integer to a double. */
  lemma Converted(f: Format, x: nat) returns (q: nat, s: nat)
    ensures s == Max(BitLen(x) - f.bits, 0) && q == HalfEven(x, Pow(2, s)) && q <= Pow(2, f.bits)
    ensures RoundUnits(f, x * Pow(2, f.low), 1) == q * Pow(2, s + f.low)
  {
    s := Max(BitLen(x) - f.bits, 0);
    q := HalfEven(x, Pow(2, s));
    assert HalfEven(x, 1) == x;
    ScaledUp(f, x, f.low, Max(BitLen(x) - f.bits, 0 - f.low));
  }

  lemma ScaleUpExact(f: Format, q: nat, j: nat, k: nat)
    requires q <= Pow(2, f.bits)
    ensures RoundUnits(f, q * Pow(2, j) * Pow(2, k), 1) == q * Pow(2, j + k)
  {
    PowAdd(2, j, k);
    Assoc(q, Pow(2, j), Pow(2, k));
    FitsScaled(f, q, j + k);
    RoundIdentity(f, q * Pow(2, j + k), 1);
  }

  lemma ScaleDownExact(f: Format, q: nat, j: nat, k: nat)
    requires q <= Pow(2, f.bits)
    ensures RoundUnits(f, q * Pow(2, j + k), Pow(2, k)) == q * Pow(2, j)
  {
    PowAdd(2, j, k);
    Assoc(q, Pow(2, j), Pow(2, k));
    FitsScaled(f, q, j);
    RoundIdentity(f, q * Pow(2, j), Pow(2, k));
  }
}
