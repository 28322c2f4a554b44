/** fpu.js: the host floating-point primitives (fma, ldexp, and the one rounding both need), for any binary format;
    the host's is BINARY64, whose `bits` and `low` are the 53 and 1074 of the source. */
module Fpu {
  import opened Exact
  import opened Ieee

  /** `m * 2^e` as a fraction in units: the numerator and the denominator. */
  function Num(f: Format, m: nat, e: int): nat { m * Pow(2, Max(0, e + f.low)) }

  function Den(f: Format, e: int): (d: nat)
    ensures d > 0
  {
    Pow(2, Max(0, -(e + f.low)))
  }

  /** The exact value `m * 2^e`, of the given sign, rounded once. */
  function RoundExact(f: Format, neg: bool, m: nat, e: int): Double {
    Round(f, neg, Num(f, m, e), Den(f, e))
  }

  // ----- the host's own operations: IEEE multiplication and addition -----

  function PowerOfTwo(f: Format, k: int): Double
    requires 0 <= k + f.low
  {
    Finite(false, Pow(2, k + f.low))
  }

  function Negate(x: Double): Double {
    match x
    case Finite(neg, u) => Finite(!neg, u)
    case Infinity(neg) => Infinity(!neg)
    case NaN => NaN
  }

  /** The host's `x * y`, correctly rounded. */
  function Mul(f: Format, x: Double, y: Double): Double {
    if x.NaN? || y.NaN? then NaN
    else if x.Infinity? || y.Infinity? then
      if (x.Finite? && x.units == 0) || (y.Finite? && y.units == 0) then NaN else Infinity(x.neg != y.neg)
    else Round(f, x.neg != y.neg, x.units * y.units, Pow(2, f.low))
  }

  function Signed(neg: bool, m: nat): int { if neg then 0 - m else m }

  /** An exact signed sum `s / d` units rounded once; `zero` is the sign of an exact zero. */
  function RoundSum(f: Format, s: int, d: nat, zero: bool): Double
    requires d > 0
  {
    if s == 0 then Finite(zero, 0) else Round(f, s < 0, Abs(s), d)
  }

  /** The host's `x + y`, correctly rounded: an exact zero sum is negative only when both operands are. */
  function Add(f: Format, x: Double, y: Double): Double {
    if x.NaN? || y.NaN? then NaN
    else if x.Infinity? then if y.Infinity? && x.neg != y.neg then NaN else x
    else if y.Infinity? then y
    else RoundSum(f, Signed(x.neg, x.units) + Signed(y.neg, y.units), 1, x.neg && y.neg)
  }

  /** What IEEE 754-2019 section 5.4.1 asks of fusedMultiplyAdd on finite operands. */
  function FusedMultiplyAdd(f: Format, a: Double, b: Double, c: Double): Double
    requires a.Finite? && b.Finite? && c.Finite?
  {
    RoundSum(f, Signed(a.neg != b.neg, a.units * b.units) + Signed(c.neg, c.units) * Pow(2, f.low), Pow(2, f.low),
        (a.neg != b.neg) && c.neg)
  }

  ghost predicate Valid(f: Format, x: Double) {
    x.Finite? ==> IsValue(f, x.units)
  }

  // ----- the encoding -----

  /** The bit pattern of a finite value, with an exponent field `w` bits wide. */
  function Bits(f: Format, w: nat, neg: bool, u: nat): nat {
    var s, k := f.bits - 1, Ulp(f, u);
    var magnitude := if u < Pow(2, s) then u else (k + 1) * Pow(2, s) + u / Pow(2, k) % Pow(2, s);
    (if neg then 1 else 0) * Pow(2, w) * Pow(2, s) + magnitude
  }

  /** `decompose`: the sign, the integer significand and its exponent, read off the bit pattern. */
  function Decompose(f: Format, w: nat, low: nat, b: nat): (bool, nat, int) {
    var p := Pow(2, f.bits - 1);
    var neg := b / p / Pow(2, w) != 0;
    var ex := b / p % Pow(2, w);
    if ex == 0 then (neg, b % p, 0 - low) else (neg, p + b % p, ex - low - 1)
  }

  /** Taking a double apart loses nothing: the significand scaled is the value it was made from. */
  lemma DecomposeExact(f: Format, w: nat, low: nat, neg: bool, u: nat)
    requires IsValue(f, u) && f.top - f.bits + 1 < Pow(2, w)
    ensures var (s, m, e) := Decompose(f, w, low, Bits(f, w, neg, u));
            s == neg && m < Pow(2, f.bits) && e + low >= 0 && m * Pow(2, e + low) == u
  {
    var p := Pow(2, f.bits - 1);
    var k := Ulp(f, u);
    var q := Significand(f, u);
    var s := if neg then 1 else 0;
    if u < p {
      SplitBits(s, Pow(2, w), p, 0, u);
    } else {
      UlpBelowTop(f, u);
      Multiple(q, Pow(2, k));
      NormalSignificand(f, u, q, k);
      DivUnique(q, p, 1, q - p);
      SplitBits(s, Pow(2, w), p, k + 1, q - p);
    }
  }

  lemma NormalSignificand(f: Format, u: nat, q: nat, k: nat)
    requires k == Ulp(f, u) && u == q * Pow(2, k) && (k == 0 || Pow(2, f.bits - 1) <= q) && u >= Pow(2, f.bits - 1)
    ensures q >= Pow(2, f.bits - 1)
  {}

  /** Sign, exponent and fraction fields packed into one number come apart again. */
  lemma SplitBits(s: nat, w: nat, p: nat, ex: nat, frac: nat)
    requires w > 0 && p > 0 && s <= 1 && ex < w && frac < p
    ensures var b := s * w * p + ex * p + frac;
        b / p == s * w + ex && b % p == frac && b / p / w == s && b / p % w == ex
  {
    Distrib(s * w, ex, p);
    DivUnique(s * w * p + ex * p + frac, p, s * w + ex, frac);
    DivUnique(s * w + ex, w, s, ex);
  }

  lemma UlpBelowTop(f: Format, u: nat)
    requires u < Pow(2, f.top)
    ensures Ulp(f, u) <= f.top - f.bits
  {
    if u > 0 {
      BitLenBounds(u);
      if BitLen(u) > f.top { PowMono(2, f.top, BitLen(u) - 1); }
    }
  }

  // ----- the rounding shift -----

  /** Shifting out all bits beyond the significand, or below the lowest unit, is the rounding. */
  lemma ShiftRounds(f: Format, low: nat, m: nat, e: int)
    ensures var shift := Max(BitLen(m) - f.bits, 0 - low - e);
            var n, d := m * Pow(2, Max(0, e + low)), Pow(2, Max(0, -(e + low)));
            && (shift > 0 ==>
                HalfEven(m, Pow(2, shift)) <= Pow(2, f.bits)
                && RoundUnits(f, n, d) == HalfEven(m, Pow(2, shift)) * Pow(2, e + shift + low))
            && (shift <= 0 ==> m < Pow(2, f.bits) && e + low >= 0 && RoundUnits(f, n, d) == m * Pow(2, e + low))
  {
    var shift := Max(BitLen(m) - f.bits, 0 - low - e);
    var n, d := m * Pow(2, Max(0, e + low)), Pow(2, Max(0, -(e + low)));
    if e + low >= 0 {
      ScaledUp(f, m, e + low, shift);
    } else {
      ScaledDown(f, m, -(e + low), shift);
    }
  }

  lemma ShiftRoundsBy(f: Format, m: nat, e: int, shift: nat)
    requires shift == Max(BitLen(m) - f.bits, 0 - f.low - e) && shift > 0
    ensures e + shift + f.low >= 0
    ensures RoundUnits(f, Num(f, m, e), Den(f, e)) == HalfEven(m, Pow(2, shift)) * Pow(2, e + shift + f.low)
  {
    ShiftRounds(f, f.low, m, e);
  }

  lemma SmallBits(f: Format, m: nat)
    requires BitLen(m) <= f.bits
    ensures m < Pow(2, f.bits)
  {
    if m > 0 {
      BitLenBounds(m);
      PowMono(2, BitLen(m), f.bits);
    }
  }

  lemma ScaledUp(f: Format, m: nat, a: nat, shift: int)
    requires shift == Max(BitLen(m) - f.bits, 0 - a)
    ensures shift > 0 ==>
        HalfEven(m, Pow(2, shift)) <= Pow(2, f.bits)
        && RoundUnits(f, m * Pow(2, a), 1) == HalfEven(m, Pow(2, shift)) * Pow(2, shift + a)
    ensures shift <= 0 ==> m < Pow(2, f.bits) && RoundUnits(f, m * Pow(2, a), 1) == m * Pow(2, a)
  {
    if shift > 0 {
      var q, k := RoundGrid(f, m, 1);
      BitLenScale(m, a);
      PowAdd(2, shift, a);
      HalfEvenScale(m, Pow(2, shift), Pow(2, a));
    } else {
      SmallBits(f, m);
      FitsScaled(f, m, a);
      RoundIdentity(f, m * Pow(2, a), 1);
    }
  }

  lemma ScaledDown(f: Format, m: nat, b: nat, shift: int)
    requires b > 0 && shift == Max(BitLen(m) - f.bits, b)
    ensures HalfEven(m, Pow(2, shift)) <= Pow(2, f.bits)
    ensures RoundUnits(f, m, Pow(2, b)) == HalfEven(m, Pow(2, shift)) * Pow(2, shift - b)
  {
    BitLenShift(m, b);
    PowAdd(2, b, shift - b);
    var q, k := RoundGrid(f, m, Pow(2, b));
  }

  /** A significand of at most `bits` bits stays one when scaled. */
  lemma FitsScaled(f: Format, m: nat, k: nat)
    requires m <= Pow(2, f.bits)
    ensures Fits(f, m * Pow(2, k))
  {
    if m < Pow(2, f.bits - 1) {
      SmallScaled(f, m, k);
    } else {
      UlpOf(f, m, k);
    }
  }

  lemma SmallScaled(f: Format, m: nat, k: nat)
    requires m < Pow(2, f.bits)
    ensures Fits(f, m * Pow(2, k))
  {
    var u := m * Pow(2, k);
    UlpOfScaled(f, m, k, u);
    ScaledMultiple(m, k, Ulp(f, u), u);
  }

  lemma UlpOfScaled(f: Format, m: nat, k: nat, u: nat)
    requires m < Pow(2, f.bits) && u == m * Pow(2, k)
    ensures Ulp(f, u) <= k
  {
    if m > 0 {
      BitLenScale(m, k);
      BitLenBounds(m);
      if BitLen(m) > f.bits { PowMono(2, f.bits, BitLen(m) - 1); }
    }
  }

  lemma ScaledMultiple(m: nat, k: nat, j: nat, u: nat)
    requires j <= k && u == m * Pow(2, k)
    ensures u % Pow(2, j) == 0
  {
    PowAdd(2, k - j, j);
    Assoc(m, Pow(2, k - j), Pow(2, j));
    Multiple(m * Pow(2, k - j), Pow(2, j));
  }

  // ----- ldexp, round, $ldexp -----

  /** Scaling a representable magnitude by a power of two is exact or overflows. */
  lemma MulPowerOfTwo(f: Format, u: nat, k: nat, low: nat)
    requires Fits(f, u)
    ensures Fits(f, u * Pow(2, k))
    ensures RoundUnits(f, u * Pow(2, k + low), Pow(2, low)) == u * Pow(2, k)
  {
    var q := Significand(f, u);
    PowAdd(2, Ulp(f, u), k);
    Assoc(q, Pow(2, Ulp(f, u)), Pow(2, k));
    FitsScaled(f, q, Ulp(f, u) + k);
    PowAdd(2, k, low);
    Assoc(u, Pow(2, k), Pow(2, low));
    RoundIdentity(f, u * Pow(2, k), Pow(2, low));
  }

  lemma DivPowerOfTwo(f: Format, m: nat, j: nat, k: nat, low: nat)
    requires m <= Pow(2, f.bits) && k <= j && k <= low
    ensures RoundUnits(f, m * Pow(2, j) * Pow(2, low - k), Pow(2, low)) == m * Pow(2, j - k)
  {
    PowAdd(2, j - k, k);
    PowAdd(2, k, low - k);
    var g := Pow(2, j - k);
    Assoc(m, g, Pow(2, k));
    Assoc(m * g, Pow(2, k), Pow(2, low - k));
    FitsScaled(f, m, j - k);
    RoundIdentity(f, m * g, Pow(2, low));
  }

  /** `units` as a double, overflowing to infinity. */
  function Saturate(f: Format, neg: bool, u: nat): Double {
    if u < Pow(2, f.top) then Finite(neg, u) else Infinity(neg)
  }

  lemma StepUp(f: Format, m: nat, j: nat, k: nat, low: nat, x: Double)
    requires m <= Pow(2, f.bits) && x == Saturate(f, false, m * Pow(2, j))
    ensures m * Pow(2, j + k) == m * Pow(2, j) * Pow(2, k)
    ensures x.Finite? ==>
        Round(f, false, x.units * Pow(2, k + low), Pow(2, low)) == Saturate(f, false, m * Pow(2, j + k))
    ensures x.Infinity? ==> Saturate(f, false, m * Pow(2, j + k)) == x
  {
    PowAdd(2, j, k);
    Assoc(m, Pow(2, j), Pow(2, k));
    FitsScaled(f, m, j);
    MulPowerOfTwo(f, m * Pow(2, j), k, low);
    MulMono(m * Pow(2, j), 1, Pow(2, k));
  }

  lemma StepDown(f: Format, m: nat, j: nat, k: nat, low: nat)
    requires m <= Pow(2, f.bits) && k <= j && k <= low && f.bits + j < f.top
    ensures Round(f, false, m * Pow(2, j) * Pow(2, low - k), Pow(2, low)) == Finite(false, m * Pow(2, j - k))
  {
    DivPowerOfTwo(f, m, j, k, low);
    Bounded(f, m, j - k);
  }

  lemma Bounded(f: Format, m: nat, j: nat)
    requires m <= Pow(2, f.bits) && f.bits + j < f.top
    ensures m * Pow(2, j) < Pow(2, f.top)
  {
    PowAdd(2, f.bits, j);
    MulMono(Pow(2, j), m, Pow(2, f.bits));
    PowStrict(f.bits + j, f.top);
  }

  /** An integer `m` of at most 53 bits times `2^n`, by multiplications that are exact or overflow. */
  method Ldexp(f: Format, m: nat, n: int) returns (r: Double)
    requires m <= Pow(2, f.bits) && n + f.low >= 0
    ensures r == Saturate(f, false, m * Pow(2, n + f.low))
  {
    var k := n;
    r := Finite(false, m * Pow(2, f.low));
    Bounded(f, m, f.low);
    while k > 1000
      invariant k <= 1000 ==> k >= 0 || k == n
      invariant n - k >= 0 && r == Saturate(f, false, m * Pow(2, n - k + f.low))
    {
      StepUp(f, m, n - k + f.low, 1000, f.low, r);
      r := Mul(f, r, PowerOfTwo(f, 1000));
      k := k - 1000;
    }
    while k < -1000
      invariant k < 0 ==> n - k <= 0 && r == Finite(false, m * Pow(2, n - k + f.low))
      invariant k >= 0 ==> n - k >= 0 && r == Saturate(f, false, m * Pow(2, n - k + f.low))
      invariant k <= 1000
    {
      StepDown(f, m, n - k + f.low, 1000, f.low);
      r := Mul(f, r, PowerOfTwo(f, -1000));
      k := k + 1000;
    }
    if k >= 0 {
      StepUp(f, m, n - k + f.low, k, f.low, r);
    } else {
      StepDown(f, m, n - k + f.low, 0 - k, f.low);
    }
    r := Mul(f, r, PowerOfTwo(f, k));
  }

  /** `round`: the exact value `s * 2^e` rounded to nearest-even once. */
  method RoundOnce(f: Format, s: int, e: int) returns (r: Double)
    ensures r == RoundExact(f, s < 0, Abs(s), e)
  {
    var neg := s < 0;
    var m := Abs(s);
    var shift := Max(BitLen(m) - f.bits, 0 - f.low - e);
    var exp := e;
    if shift > 0 {
      var p, half := Pow(2, shift), Pow(2, shift - 1);
      var q := m / p;
      var rem := m - q * p;
      if rem > half || (rem == half && q % 2 == 1) {
        q := q + 1;
      }
      HalfEvenSteps(m, p, half, q);
      m := q;
      exp := exp + shift;
    }
    ShiftRoundsTo(f, Abs(s), e, m, exp);
    r := Ldexp(f, m, exp);
    r := if neg then Negate(r) else r;
  }

  lemma ShiftRoundsTo(f: Format, m: nat, e: int, q: nat, exp: int)
    requires var shift := Max(BitLen(m) - f.bits, 0 - f.low - e);
             if shift > 0 then q == HalfEven(m, Pow(2, shift)) && exp == e + shift else q == m && exp == e
    ensures q <= Pow(2, f.bits) && exp + f.low >= 0
    ensures RoundUnits(f, Num(f, m, e), Den(f, e)) == q * Pow(2, exp + f.low)
  {
    ShiftRounds(f, f.low, m, e);
  }

  lemma HalfEvenSteps(m: nat, p: nat, half: nat, q: nat)
    requires half > 0 && p == 2 * half
    requires var q0 := m / p; var rem := m - q0 * p;
        q == if rem > half || (rem == half && q0 % 2 == 1) then q0 + 1 else q0
    ensures q == HalfEven(m, p)
  {
    assert m == m / p * p + m % p;
  }

  /** `decompose` of a finite double, through its bits: a significand and an exponent that lose nothing. */
  method Parts(f: Format, x: Double) returns (neg: bool, m: nat, e: int)
    requires x.Finite? && Valid(f, x) && f.Encodable()
    ensures neg == x.neg && m < Pow(2, f.bits) && e + f.low >= 0 && m * Pow(2, e + f.low) == x.units
  {
    DecomposeExact(f, f.field, f.low, x.neg, x.units);
    var (s, q, k) := Decompose(f, f.field, f.low, Bits(f, f.field, x.neg, x.units));
    neg, m, e := s, q, k;
  }

  /** C's ldexp: `x * 2^n` rounded once. */
  method LdexpOnce(f: Format, x: Double, n: int) returns (r: Double)
    requires Valid(f, x) && f.Encodable()
    ensures !x.Finite? ==> r == x
    ensures x.Finite? && n >= 0 ==> r == Round(f, x.neg, x.units * Pow(2, n), 1)
    ensures x.Finite? && n < 0 ==> r == Round(f, x.neg, x.units, Pow(2, 0 - n))
  {
    if !x.Finite? || x.units == 0 {
      ZeroRounds(f, Pow(2, Max(0, 0 - n)));
      return x;
    }
    var neg, m, e := Parts(f, x);
    r := RoundOnce(f, Signed(neg, m), e + n);
    ScaleExact(f, m, e, n);
  }

  lemma ZeroRounds(f: Format, d: nat)
    requires d > 0
    ensures RoundUnits(f, 0, d) == 0
  {
    RoundIdentity(f, 0, d);
  }

  /** Moving the exponent of an exact value by `n`, in units. */
  lemma ScaleExact(f: Format, m: nat, e: int, n: int)
    requires e + f.low >= 0
    ensures RoundUnits(f, Num(f, m, e + n), Den(f, e + n)) ==
            if n >= 0 then RoundUnits(f, m * Pow(2, e + f.low) * Pow(2, n), 1)
            else RoundUnits(f, m * Pow(2, e + f.low), Pow(2, 0 - n))
  {
    var a := e + f.low;
    if n >= 0 {
      PowAdd(2, a, n);
      Assoc(m, Pow(2, a), Pow(2, n));
    } else if a + n >= 0 {
      PowAdd(2, a + n, 0 - n);
      Assoc(m, Pow(2, a + n), Pow(2, 0 - n));
      RoundScale(f, Num(f, m, e + n), 1, Pow(2, 0 - n));
    } else {
      PowAdd(2, 0 - n - a, a);
      RoundScale(f, m, Pow(2, 0 - n - a), Pow(2, a));
    }
  }

  // ----- $fma -----

  /** Signed significands on a common exponent add up to the exact sum, in units of 2^-2low. */
  lemma CommonExponent(ua: nat, ub: nat, uc: nat, ma: nat, mb: nat, mc: nat, ea: nat, eb: nat, ec: nat, low: nat)
    requires ua == ma * Pow(2, ea) && ub == mb * Pow(2, eb) && uc == mc * Pow(2, ec)
    ensures var k := Min(ea + eb, ec + low);
            && ua * ub == ma * mb * Pow(2, ea + eb - k) * Pow(2, k)
            && uc * Pow(2, low) == mc * Pow(2, ec + low - k) * Pow(2, k)
  {
    var k := Min(ea + eb, ec + low);
    MulSwap(ma, mb, Pow(2, ea), Pow(2, eb));
    PowAdd(2, ea, eb);
    PowAdd(2, ea + eb - k, k);
    Assoc(ma * mb, Pow(2, ea + eb - k), Pow(2, k));
    PowAdd(2, ec, low);
    Assoc(mc, Pow(2, ec), Pow(2, low));
    PowAdd(2, ec + low - k, k);
    Assoc(mc, Pow(2, ec + low - k), Pow(2, k));
  }

  lemma SignedSum(pos: bool, neg: bool, x: nat, y: nat, g: nat)
    requires g > 0
    ensures Signed(pos, x * g) + Signed(neg, y * g) == (Signed(pos, x) + Signed(neg, y)) * g
    ensures var s := Signed(pos, x) + Signed(neg, y);
            && Abs(s * g) == Abs(s) * g && (s * g < 0 <==> s < 0) && (s * g == 0 <==> s == 0)
  {
    var s := Signed(pos, x) + Signed(neg, y);
    Distrib(Signed(pos, x), Signed(neg, y), g);
    assert (0 - x) * g == 0 - x * g && (0 - y) * g == 0 - y * g;
    if s < 0 {
      MulMono(g, s, -1);
      assert (0 - s) * g == 0 - s * g;
    } else if s > 0 {
      MulMono(g, 1, s);
    }
  }

  /** `s * 2^e` and `s * 2^(e + 2 low)` counted in units of 2^-2low are one value, so they round alike. */
  lemma RoundCommon(f: Format, m: nat, e: int)
    requires e + f.low + f.low >= 0
    ensures RoundUnits(f, m * Pow(2, e + f.low + f.low), Pow(2, f.low)) == RoundUnits(f, Num(f, m, e), Den(f, e))
  {
    var a := e + f.low;
    if a >= 0 {
      PowAdd(2, a, f.low);
      Assoc(m, Pow(2, a), Pow(2, f.low));
      RoundScale(f, Num(f, m, e), 1, Pow(2, f.low));
    } else {
      PowAdd(2, 0 - a, a + f.low);
      RoundScale(f, m, Pow(2, 0 - a), Pow(2, a + f.low));
    }
  }

  /** `$fma`: on finite operands, `a * b + c` rounded once. */
  method Fma(f: Format, a: Double, b: Double, c: Double) returns (r: Double)
    requires Valid(f, a) && Valid(f, b) && Valid(f, c) && f.Encodable()
    ensures a.Finite? && b.Finite? && c.Finite? ==> r == FusedMultiplyAdd(f, a, b, c)
    ensures !(a.Finite? && b.Finite? && c.Finite?) ==> r == Add(f, Mul(f, a, b), c)
  {
    if !a.Finite? || !b.Finite? || !c.Finite? || a.units == 0 || b.units == 0 {
      ZeroProduct(f, a, b, c);
      return Add(f, Mul(f, a, b), c);
    }
    if c.units == 0 {
      ZeroAddend(f, a, b, c);
      return Mul(f, a, b);
    }
    r := FmaNonzero(f, a, b, c);
  }

  method FmaNonzero(f: Format, a: Double, b: Double, c: Double) returns (r: Double)
    requires Valid(f, a) && Valid(f, b) && Valid(f, c) && f.Encodable()
    requires a.Finite? && b.Finite? && c.Finite? && a.units > 0 && b.units > 0 && c.units > 0
    ensures r == FusedMultiplyAdd(f, a, b, c)
  {
    var na, ma, ea := Parts(f, a);
    var nb, mb, eb := Parts(f, b);
    var nc, mc, ec := Parts(f, c);
    var ep := ea + eb;
    var e := Min(ep, ec);
    NonNegative(ma, mb);
    NonNegative(ma * mb, Pow(2, ep - e));
    NonNegative(mc, Pow(2, ec - e));
    var s := Signed(na != nb, ma * mb * Pow(2, ep - e)) + Signed(nc, mc * Pow(2, ec - e));
    FmaSum(f, a, b, c, ma, mb, mc, ea, eb, ec, s);
    if s == 0 {
      return Finite(false, 0);
    }
    r := RoundOnce(f, s, e);
  }

  lemma ZeroAddend(f: Format, a: Double, b: Double, c: Double)
    requires a.Finite? && b.Finite? && c.Finite? && a.units > 0 && b.units > 0 && c.units == 0
    ensures Mul(f, a, b) == FusedMultiplyAdd(f, a, b, c)
  {
    Positive(a.units, b.units);
    assert 0 * Pow(2, f.low) == 0;
  }

  lemma ZeroProduct(f: Format, a: Double, b: Double, c: Double)
    ensures a.Finite? && b.Finite? && c.Finite? && (a.units == 0 || b.units == 0)
        ==> Add(f, Mul(f, a, b), c) == FusedMultiplyAdd(f, a, b, c)
  {
    if a.Finite? && b.Finite? && c.Finite? && (a.units == 0 || b.units == 0) {
      ZeroRounds(f, Pow(2, f.low));
      assert a.units * b.units == 0;
      RoundScale(f, c.units, 1, Pow(2, f.low));
      SignedSum(false, c.neg, 0, c.units, Pow(2, f.low));
    }
  }

  lemma FmaSum(f: Format, a: Double, b: Double, c: Double, ma: nat, mb: nat, mc: nat, ea: int, eb: int, ec: int, s: int)
    requires a.Finite? && b.Finite? && c.Finite? && a.units > 0 && b.units > 0 && c.units > 0
    requires ea + f.low >= 0 && eb + f.low >= 0 && ec + f.low >= 0
    requires a.units == ma * Pow(2, ea + f.low) && b.units == mb * Pow(2, eb + f.low)
    requires c.units == mc * Pow(2, ec + f.low)
    requires var e := Min(ea + eb, ec);
        s == Signed(a.neg != b.neg, ma * mb * Pow(2, ea + eb - e)) + Signed(c.neg, mc * Pow(2, ec - e))
    ensures FusedMultiplyAdd(f, a, b, c) == if s == 0 then Finite(false, 0)
        else RoundExact(f, s < 0, Abs(s), Min(ea + eb, ec))
  {
    var e := Min(ea + eb, ec);
    var k := e + f.low + f.low;
    var x, y := ma * mb * Pow(2, ea + eb - e), mc * Pow(2, ec - e);
    CommonExponent(a.units, b.units, c.units, ma, mb, mc, ea + f.low, eb + f.low, ec + f.low, f.low);
    SignedSum(a.neg != b.neg, c.neg, x, y, Pow(2, k));
    SignedScale(c.neg, c.units, Pow(2, f.low));
    RoundCommon(f, Abs(s), e);
    SameSignSum(a.neg != b.neg, c.neg, a.units * b.units, c.units * Pow(2, f.low));
    Positive(a.units, b.units);
    Positive(c.units, Pow(2, f.low));
  }

  lemma SignedScale(neg: bool, y: nat, g: nat)
    ensures Signed(neg, y) * g == Signed(neg, y * g)
  {
    assert (0 - y) * g == 0 - y * g;
  }

  lemma SameSignSum(m: bool, n: bool, x: nat, y: nat)
    ensures x > 0 && y > 0 && Signed(m, x) + Signed(n, y) == 0 ==> !(m && n)
  {}

  // ----- what the one rounding is -----

  /** The exact value of `a * b + c`, in units of 2^-2low. */
  function ExactSum(f: Format, a: Double, b: Double, c: Double): int
    requires a.Finite? && b.Finite? && c.Finite?
  {
    Signed(a.neg != b.neg, a.units * b.units) + Signed(c.neg, c.units) * Pow(2, f.low)
  }

  /** An fma whose exact value is not zero is the nearest-even double to it, infinite only from the
      overflow threshold. */
  lemma FmaCorrect(f: Format, a: Double, b: Double, c: Double)
    requires a.Finite? && b.Finite? && c.Finite? && ExactSum(f, a, b, c) != 0
    ensures CorrectlyRounded(f, ExactSum(f, a, b, c) < 0, Abs(ExactSum(f, a, b, c)), Pow(2, f.low),
        FusedMultiplyAdd(f, a, b, c))
  {
    RoundCorrect(f, ExactSum(f, a, b, c) < 0, Abs(ExactSum(f, a, b, c)), Pow(2, f.low));
  }

  /** Negating a factor and the addend negates the result, except that an exact zero keeps its sign rule. */
  lemma FmaOdd(f: Format, a: Double, b: Double, c: Double)
    requires a.Finite? && b.Finite? && c.Finite?
    ensures ExactSum(f, Negate(a), b, Negate(c)) == 0 - ExactSum(f, a, b, c)
    ensures ExactSum(f, a, b, c) != 0
        ==> FusedMultiplyAdd(f, Negate(a), b, Negate(c)) == Negate(FusedMultiplyAdd(f, a, b, c))
  {
    SignedOpposite(a.neg != b.neg, a.units * b.units);
    SignedOpposite(c.neg, c.units);
    assert (0 - Signed(c.neg, c.units)) * Pow(2, f.low) == 0 - Signed(c.neg, c.units) * Pow(2, f.low);
  }

  lemma SignedOpposite(neg: bool, m: nat)
    ensures Signed(!neg, m) == 0 - Signed(neg, m)
  {}

  /** A larger exact value of the same sign never gives a smaller result. */
  lemma RoundExactMonotone(f: Format, m: nat, n: nat, e: int)
    requires m <= n
    ensures RoundExact(f, false, m, e).Infinity? ==> RoundExact(f, false, n, e).Infinity?
    ensures RoundExact(f, false, m, e).Finite? && RoundExact(f, false, n, e).Finite?
        ==> RoundExact(f, false, m, e).units <= RoundExact(f, false, n, e).units
  {
    MulMono(Pow(2, Max(0, e + f.low)), m, n);
    RoundMonotone(f, Num(f, m, e), Num(f, n, e), Den(f, e));
  }
}
