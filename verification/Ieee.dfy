/** Binary floating point as exact integers: a finite value is a sign and a multiple of the smallest subnormal, and
    the one rounding every operation owes is the nearest value, ties to the even significand. Everything is stated
    for any format; binary64 is the instance the runtime uses. */
module Ieee {
  import opened Exact

  /** `bits` significand bits; the smallest subnormal, the unit, is 2^-`low`; magnitudes are below 2^`top` units. */
  datatype Layout = Layout(bits: nat, low: nat, top: nat, field: nat) {
    /** The exponent field, `field` bits wide, has room for every binade. */
    predicate Encodable() { top - bits + 1 < Pow(2, field) }
  }

  type Format = f: Layout | 2 <= f.bits && f.bits + f.low < f.top witness Layout(2, 0, 3, 2)

  /** 53 significand bits, an 11-bit exponent field, smallest subnormal 2^-1074; 2^1024 is 2^2098 units. */
  const BINARY64: Format := Layout(53, 1074, 2098, 11)

  /** A finite value is `units * 2^-low`. */
  datatype Double = Finite(neg: bool, units: nat) | Infinity(neg: bool) | NaN

  /** The exponent, in units, of the last significand bit of the binade holding `u`. */
  function Ulp(f: Format, u: nat): nat {
    if BitLen(u) > f.bits then BitLen(u) - f.bits else 0
  }

  /** `u` units fit the significand. */
  predicate Fits(f: Format, u: nat) {
    u % Pow(2, Ulp(f, u)) == 0
  }

  predicate IsValue(f: Format, u: nat) {
    Fits(f, u) && u < Pow(2, f.top)
  }

  predicate EvenSignificand(f: Format, u: nat) {
    u / Pow(2, Ulp(f, u)) % 2 == 0
  }

  /** How far, times `d`, the double of `u` units is from the exact value `n / d` units. */
  function Distance(n: nat, d: nat, u: nat): nat {
    Abs(n - u * d)
  }

  /** `u` is the double nearest to `n / d` units, the even one when two are equally near. */
  ghost predicate Nearest(f: Format, n: nat, d: nat, u: nat) {
    && IsValue(f, u)
    && (forall v: nat | IsValue(f, v) :: Distance(n, d, u) <= Distance(n, d, v))
    && (forall v: nat | IsValue(f, v) && v != u && Distance(n, d, v) == Distance(n, d, u) :: EvenSignificand(f, u))
  }

  /** The magnitudes at or above the midpoint between the largest double and 2^1024. */
  ghost predicate Overflows(f: Format, n: nat, d: nat) {
    n >= (Pow(2, f.top) - Pow(2, f.top - f.bits - 1)) * d
  }

  /** What section 4.3.1 of IEEE 754-2019 demands of an operation with exact result `n / d` units of sign `neg`. */
  ghost predicate CorrectlyRounded(f: Format, neg: bool, n: nat, d: nat, x: Double) {
    if Overflows(f, n, d) then x == Infinity(neg) else x.Finite? && x.neg == neg && Nearest(f, n, d, x.units)
  }

  /** `n / d` units rounded to the grid of its binade. */
  function RoundUnits(f: Format, n: nat, d: nat): nat
    requires d > 0
  {
    var g := Pow(2, Ulp(f, n / d));
    MulStrict(g, 0, d);
    HalfEven(n, d * g) * g
  }

  function Round(f: Format, neg: bool, n: nat, d: nat): Double
    requires d > 0
  {
    var u := RoundUnits(f, n, d);
    if u < Pow(2, f.top) then Finite(neg, u) else Infinity(neg)
  }

  // ----- the grid -----

  /** A significand of at most `bits` bits, full unless the binade is the lowest, fixes the binade. */
  lemma UlpOf(f: Format, q: nat, k: nat)
    requires q <= Pow(2, f.bits) && (k == 0 || Pow(2, f.bits - 1) <= q)
    ensures Ulp(f, q * Pow(2, k)) == if q == Pow(2, f.bits) then k + 1 else k
    ensures Fits(f, q * Pow(2, k))
    ensures EvenSignificand(f, q * Pow(2, k)) == (q % 2 == 0)
  {
    if q == Pow(2, f.bits) {
      UlpOfCarry(f, k);
    } else {
      UlpOfBelow(f, q, k);
      Multiple(q, Pow(2, k));
    }
  }

  lemma UlpOfBelow(f: Format, q: nat, k: nat)
    requires q < Pow(2, f.bits) && (k == 0 || Pow(2, f.bits - 1) <= q)
    ensures Ulp(f, q * Pow(2, k)) == k
  {
    if q > 0 {
      BitLenScale(q, k);
      BitLenBounds(q);
      if BitLen(q) > f.bits { PowMono(2, f.bits, BitLen(q) - 1); }
      if k > 0 { BitLenUnique(q, f.bits); }
    }
  }

  lemma UlpOfCarry(f: Format, k: nat)
    ensures Ulp(f, Pow(2, f.bits) * Pow(2, k)) == k + 1
    ensures Fits(f, Pow(2, f.bits) * Pow(2, k)) && EvenSignificand(f, Pow(2, f.bits) * Pow(2, k))
  {
    PowAdd(2, f.bits, k);
    PowAdd(2, f.bits - 1, k + 1);
    BitLenUnique(Pow(2, f.bits + k), f.bits + 1 + k);
    Multiple(Pow(2, f.bits - 1), Pow(2, k + 1));
    EvenPower(f.bits - 1);
  }

  lemma EvenPower(k: nat)
    requires k > 0
    ensures Pow(2, k) % 2 == 0
  {}

  lemma UlpMono(f: Format, u: nat, v: nat)
    requires u <= v
    ensures Ulp(f, u) <= Ulp(f, v)
  {
    BitLenMono(u, v);
  }

  /** Every number of units that fits is a full significand scaled, or a small one in the lowest binade. */
  lemma Significand(f: Format, u: nat) returns (q: nat)
    requires Fits(f, u)
    ensures u == q * Pow(2, Ulp(f, u)) && q < Pow(2, f.bits) && (Ulp(f, u) == 0 || Pow(2, f.bits - 1) <= q)
  {
    var k := Ulp(f, u);
    var g := Pow(2, k);
    q := u / g;
    assert u == q * g + u % g;
    BitLenShift(u, k);
    if q > 0 {
      BitLenBounds(q);
      PowMono(2, BitLen(q), f.bits);
    }
  }

  lemma CoarserMultiple(f: Format, v: nat, k: nat)
    requires Fits(f, v) && k <= Ulp(f, v)
    ensures v % Pow(2, k) == 0
  {
    var q := Significand(f, v);
    PowAdd(2, Ulp(f, v) - k, k);
    Assoc(q, Pow(2, Ulp(f, v) - k), Pow(2, k));
    Multiple(q * Pow(2, Ulp(f, v) - k), Pow(2, k));
  }

  // ----- the rounding is the nearest double -----

  /** The rounded significand, and the grid it sits on. */
  lemma RoundGrid(f: Format, n: nat, d: nat) returns (q: nat, k: nat)
    requires d > 0
    ensures k == Ulp(f, n / d) && d * Pow(2, k) > 0 && q == HalfEven(n, d * Pow(2, k))
    ensures RoundUnits(f, n, d) == q * Pow(2, k) && q <= Pow(2, f.bits) && (k == 0 || Pow(2, f.bits - 1) <= q)
    ensures k > 0 ==> n / d >= Pow(2, f.bits - 1) * Pow(2, k)
  {
    k := Ulp(f, n / d);
    var g := Pow(2, k);
    MulStrict(g, 0, d);
    q := HalfEven(n, d * g);
    DivDiv(n, d, g);
    BitLenShift(n / d, k);
    var top := n / d / g;
    if top > 0 {
      BitLenBounds(top);
      PowMono(2, BitLen(top), f.bits);
    }
    if k > 0 {
      BitLenBounds(n / d);
      PowAdd(2, f.bits - 1, k);
      BitLenBounds(top);
    }
  }

  lemma RoundUnitsFits(f: Format, n: nat, d: nat)
    requires d > 0
    ensures Fits(f, RoundUnits(f, n, d))
  {
    var q, k := RoundGrid(f, n, d);
    UlpOf(f, q, k);
  }

  /** No number of units that fits is nearer than the rounded one, and a tie goes to the even significand. */
  lemma RoundNearest(f: Format, n: nat, d: nat, v: nat)
    requires d > 0 && Fits(f, v)
    ensures Distance(n, d, RoundUnits(f, n, d)) <= Distance(n, d, v)
    ensures v != RoundUnits(f, n, d) && Distance(n, d, v) == Distance(n, d, RoundUnits(f, n, d))
        ==> EvenSignificand(f, RoundUnits(f, n, d))
  {
    var q, k := RoundGrid(f, n, d);
    UlpOf(f, q, k);
    NearestOnGrid(f, n, d, q, k, v);
  }

  lemma NearestOnGrid(f: Format, n: nat, d: nat, q: nat, k: nat, v: nat)
    requires d > 0 && d * Pow(2, k) > 0 && q == HalfEven(n, d * Pow(2, k)) && Fits(f, v)
    requires k > 0 ==> n / d >= Pow(2, f.bits - 1) * Pow(2, k)
    ensures Distance(n, d, q * Pow(2, k)) <= Distance(n, d, v)
    ensures v != q * Pow(2, k) && Distance(n, d, v) == Distance(n, d, q * Pow(2, k)) ==> q % 2 == 0
  {
    if k <= Ulp(f, v) {
      CoarserMultiple(f, v, k);
      NearestAligned(n, d, q, v, Pow(2, k));
    } else {
      NearestOffGrid(f, n, d, q, k, v);
    }
  }

  lemma NearestAligned(n: nat, d: nat, q: nat, v: nat, g: nat)
    requires d > 0 && g > 0 && d * g > 0 && q == HalfEven(n, d * g) && v % g == 0
    ensures Distance(n, d, q * g) <= Distance(n, d, v)
    ensures v != q * g && Distance(n, d, v) == Distance(n, d, q * g) ==> q % 2 == 0
  {
    assert v == v / g * g;
    OnGrid(n, d, q, v / g, g);
  }

  lemma NearestOffGrid(f: Format, n: nat, d: nat, q: nat, k: nat, v: nat)
    requires d > 0 && d * Pow(2, k) > 0 && q == HalfEven(n, d * Pow(2, k)) && Ulp(f, v) < k
    requires n / d >= Pow(2, f.bits - 1) * Pow(2, k)
    ensures Distance(n, d, q * Pow(2, k)) < Distance(n, d, v)
  {
    FinerIsSmaller(f, v, k);
    OnGrid(n, d, q, Pow(2, f.bits - 1), Pow(2, k));
    FartherBelow(n, d, v, Pow(2, f.bits - 1) * Pow(2, k));
  }

  lemma FartherBelow(n: nat, d: nat, v: nat, w: nat)
    requires d > 0 && v < w <= n / d
    ensures Distance(n, d, w) < Distance(n, d, v)
  {
    QuotientBound(n, d, w);
    MulStrict(d, v, w);
  }

  lemma OnGrid(n: nat, d: nat, q: nat, j: nat, g: nat)
    requires d > 0 && g > 0 && d * g > 0 && q == HalfEven(n, d * g)
    ensures Distance(n, d, q * g) <= Distance(n, d, j * g)
    ensures Distance(n, d, q * g) == Distance(n, d, j * g) && j != q ==> q % 2 == 0
  {
    Assoc(q, g, d);
    Assoc(j, g, d);
    HalfEvenNearest(n, d * g, j);
  }

  lemma FinerIsSmaller(f: Format, v: nat, k: nat)
    requires Ulp(f, v) < k
    ensures v < Pow(2, f.bits - 1) * Pow(2, k)
  {
    PowAdd(2, f.bits - 1, k);
    if v > 0 {
      BitLenBounds(v);
      PowMono(2, BitLen(v), f.bits - 1 + k);
    }
  }

  /** The rounded value reaches 2^1024 exactly from the overflow threshold on. */
  lemma RoundOverflow(f: Format, n: nat, d: nat)
    requires d > 0
    ensures RoundUnits(f, n, d) < Pow(2, f.top) <==> !Overflows(f, n, d)
  {
    var q, k := RoundGrid(f, n, d);
    if k < f.top - f.bits {
      BelowLastBinade(f, n, d, q, k);
    } else if k == f.top - f.bits {
      LastBinade(f, n, d, q, Pow(2, f.top - f.bits - 1));
    } else {
      BeyondLastBinade(f, n, d, q, k);
    }
  }

  lemma {:induction false} BelowLastBinade(f: Format, n: nat, d: nat, q: nat, k: nat)
    requires d > 0 && k == Ulp(f, n / d) < f.top - f.bits && q <= Pow(2, f.bits)
    ensures q * Pow(2, k) < Pow(2, f.top) && !Overflows(f, n, d)
  {
    BelowTop(f, q, k);
    BitLenBelow(f, n / d, f.bits + k);
    PowMono(2, f.bits + k, f.top - 1);
    PowMono(2, f.top - f.bits - 1, f.top - 1);
    var t := Pow(2, f.top - 1);
    assert Pow(2, f.top) == 2 * t;
    BelowMultiple(n, d, Pow(2, f.top) - Pow(2, f.top - f.bits - 1));
  }

  lemma {:induction false} BelowTop(f: Format, q: nat, k: nat)
    requires k < f.top - f.bits && q <= Pow(2, f.bits)
    ensures q * Pow(2, k) < Pow(2, f.top)
  {
    PowAdd(2, f.bits, k);
    MulMono(Pow(2, k), q, Pow(2, f.bits));
    PowStrict(f.bits + k, f.top);
  }

  lemma BelowMultiple(n: nat, d: nat, t: int)
    requires d > 0 && n / d < t
    ensures n < t * d
  {
    MulMono(d, n / d + 1, t);
    Distrib(n / d, 1, d);
  }

  lemma BeyondLastBinade(f: Format, n: nat, d: nat, q: nat, k: nat)
    requires d > 0 && k > f.top - f.bits && Pow(2, f.bits - 1) <= q && n / d >= Pow(2, f.bits - 1) * Pow(2, k)
    ensures q * Pow(2, k) >= Pow(2, f.top) && Overflows(f, n, d)
  {
    PowAdd(2, f.bits - 1, k);
    PowMono(2, f.top, f.bits - 1 + k);
    MulMono(Pow(2, k), Pow(2, f.bits - 1), q);
    AtLeastOverflows(f, n, d);
  }

  lemma AtLeastOverflows(f: Format, n: nat, d: nat)
    requires d > 0 && n / d >= Pow(2, f.top)
    ensures Overflows(f, n, d)
  {
    PowMono(2, f.top - f.bits - 1, f.top);
    QuotientBound(n, d, Pow(2, f.top) - Pow(2, f.top - f.bits - 1));
  }

  lemma BitLenBelow(f: Format, n: nat, k: nat)
    requires Ulp(f, n) + f.bits <= k
    ensures n < Pow(2, k)
  {
    if n > 0 {
      BitLenBounds(n);
      PowMono(2, BitLen(n), k);
    }
  }

  lemma LastBinade(f: Format, n: nat, d: nat, q: nat, half: nat)
    requires d > 0 && half == Pow(2, f.top - f.bits - 1) && d * Pow(2, f.top - f.bits) > 0
    requires q == HalfEven(n, d * Pow(2, f.top - f.bits)) && q <= Pow(2, f.bits)
    ensures q * Pow(2, f.top - f.bits) < Pow(2, f.top) <==> !Overflows(f, n, d)
  {
    var g, w := Pow(2, f.top - f.bits), Pow(2, f.bits);
    PowAdd(2, f.bits, f.top - f.bits);
    if q < w { MulStrict(g, q, w); }
    Assoc(w, g, d);
    Distrib(w * g - half, half, d);
    Assoc(2, half, d);
    LastStep(n, d * g, q, w, half * d);
  }

  lemma LastStep(n: nat, m: nat, q: nat, w: nat, half: nat)
    requires m == 2 * half && m > 0 && q == HalfEven(n, m) && q <= w && w % 2 == 0 && w > 0
    ensures q < w <==> n < w * m - half
  {
    var t, r := n / m, n % m;
    assert n == t * m + r;
    Distrib(w - 1, 1, m);
    if t < w - 1 {
      MulMono(m, t + 1, w - 1);
      Distrib(t, 1, m);
    } else if t > w - 1 {
      MulMono(m, w, t);
    }
  }

  /** The rounding function meets the standard's definition. */
  lemma RoundCorrect(f: Format, neg: bool, n: nat, d: nat)
    requires d > 0
    ensures CorrectlyRounded(f, neg, n, d, Round(f, neg, n, d))
  {
    RoundOverflow(f, n, d);
    RoundUnitsFits(f, n, d);
    forall v: nat | IsValue(f, v)
      ensures Distance(n, d, RoundUnits(f, n, d)) <= Distance(n, d, v)
      ensures v != RoundUnits(f, n, d) && Distance(n, d, v) == Distance(n, d, RoundUnits(f, n, d))
          ==> EvenSignificand(f, RoundUnits(f, n, d))
    {
      RoundNearest(f, n, d, v);
    }
  }

  /** The standard's definition leaves no choice: two nearest-even doubles of one value are the same. */
  lemma NearestUnique(f: Format, n: nat, d: nat, u: nat, v: nat)
    requires d > 0 && Nearest(f, n, d, u) && Nearest(f, n, d, v)
    ensures u == v
  {
    if u <= v {
      NearestOrdered(f, n, d, u, v);
    } else {
      NearestOrdered(f, n, d, v, u);
    }
  }

  lemma NearestOrdered(f: Format, n: nat, d: nat, u: nat, v: nat)
    requires d > 0 && u <= v && Nearest(f, n, d, u) && Nearest(f, n, d, v)
    ensures u == v
  {
    if u < v {
      MulStrict(d, u, v);
      var w := Successor(f, u, v);
      MulStrict(d, u, w);
      if w < v {
        MulStrict(d, w, v);
      }
    }
  }

  /** The double after `u` has a significand of the other parity, and any larger double is at least it. */
  lemma Successor(f: Format, u: nat, v: nat) returns (w: nat)
    requires IsValue(f, u) && IsValue(f, v) && u < v
    ensures u < w <= v && IsValue(f, w) && EvenSignificand(f, w) != EvenSignificand(f, u)
  {
    var k := Ulp(f, u);
    var q := Significand(f, u);
    w := SuccessorOf(f, u, v, q, k);
    Parity(f, q, k, q % 2 == 0);
  }

  lemma SuccessorOf(f: Format, u: nat, v: nat, q: nat, k: nat) returns (w: nat)
    requires k == Ulp(f, u) && u == q * Pow(2, k) && q < Pow(2, f.bits) && (k == 0 || Pow(2, f.bits - 1) <= q)
    requires Fits(f, v) && u < v
    ensures u < w <= v && Fits(f, w) && EvenSignificand(f, w) == (q % 2 == 1)
  {
    var q1 := q + 1;
    w := q1 * Pow(2, k);
    Within(f, u, v, q, k);
    Parity(f, q1, k, q % 2 == 1);
  }

  lemma Within(f: Format, u: nat, v: nat, q: nat, k: nat)
    requires k == Ulp(f, u) && u == q * Pow(2, k) && Fits(f, v) && u < v
    ensures u < (q + 1) * Pow(2, k) <= v
  {
    UlpMono(f, u, v);
    CoarserMultiple(f, v, k);
    NextMultiple(q, v, Pow(2, k));
  }

  lemma Parity(f: Format, q: nat, k: nat, even: bool)
    requires q <= Pow(2, f.bits) && (k == 0 || Pow(2, f.bits - 1) <= q) && even == (q % 2 == 0)
    ensures Fits(f, q * Pow(2, k)) && EvenSignificand(f, q * Pow(2, k)) == even
  {
    UlpOf(f, q, k);
  }

  lemma NextMultiple(q: nat, v: nat, g: nat)
    requires g > 0 && v % g == 0 && q * g < v
    ensures q * g < (q + 1) * g <= v
  {
    Distrib(q, 1, g);
    QuotientBound(v, g, q + 1);
    if v / g <= q {
      MulMono(g, v / g, q);
    }
  }

  /** The standard's definition and the rounding function say the same. */
  lemma CorrectlyRoundedIffRound(f: Format, neg: bool, n: nat, d: nat, x: Double)
    requires d > 0
    ensures CorrectlyRounded(f, neg, n, d, x) <==> x == Round(f, neg, n, d)
  {
    RoundCorrect(f, neg, n, d);
    if CorrectlyRounded(f, neg, n, d, x) && !Overflows(f, n, d) {
      NearestUnique(f, n, d, x.units, Round(f, neg, n, d).units);
    }
  }

  // ----- laws of the rounding -----

  lemma RoundScale(f: Format, n: nat, d: nat, c: nat)
    requires d > 0 && c > 0
    ensures d * c > 0 && RoundUnits(f, n * c, d * c) == RoundUnits(f, n, d)
  {
    DivScale(n, d, c);
    var g := Pow(2, Ulp(f, n / d));
    MulStrict(g, 0, d);
    HalfEvenScale(n, d * g, c);
    Assoc(d, g, c);
    Assoc(d, c, g);
  }

  /** A representable value is not changed. */
  lemma RoundIdentity(f: Format, u: nat, d: nat)
    requires d > 0 && Fits(f, u)
    ensures RoundUnits(f, u * d, d) == u
  {
    Multiple(u, d);
    var q := Significand(f, u);
    var g := Pow(2, Ulp(f, u));
    MulStrict(g, 0, d);
    Assoc(q, g, d);
    HalfEvenExact(q, d * g);
  }

  /** A larger exact value never rounds to a smaller double. */
  lemma RoundMonotone(f: Format, m: nat, n: nat, d: nat)
    requires d > 0 && m <= n
    ensures RoundUnits(f, m, d) <= RoundUnits(f, n, d)
  {
    if RoundUnits(f, n, d) < RoundUnits(f, m, d) {
      SameRounding(f, m, n, d);
    }
  }

  lemma SameRounding(f: Format, m: nat, n: nat, d: nat)
    requires d > 0 && m <= n && RoundUnits(f, n, d) < RoundUnits(f, m, d)
    ensures m == n
  {
    var u, v := RoundUnits(f, m, d), RoundUnits(f, n, d);
    RoundUnitsFits(f, m, d);
    RoundUnitsFits(f, n, d);
    RoundNearest(f, m, d, v);
    RoundNearest(f, n, d, u);
    MulStrict(d, v, u);
  }
}
