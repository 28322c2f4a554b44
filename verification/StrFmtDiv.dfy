/** strfmt.js, `nd_div2k` in `%f` mode: the limb ring divided by a power of two, the remainder becoming new
    limbs below. */
module StrFmtDiv {
  import opened Exact
  import opened Positional
  import opened StrFmtRing

  /** What a division pass has done with the first `k` limbs: their quotient by `m` is in place, `rem` is carried. */
  ghost predicate Divided(ds0: seq<nat>, ds: seq<nat>, k: nat, m: nat, rem: nat) {
    && k <= |ds| == |ds0| && ds[k..] == ds0[k..] && rem < m
    && Numeral(LIMB, ds0[..k]) == m * Numeral(LIMB, ds[..k]) + rem
  }

  lemma {:induction false} DividedStep(ds0: seq<nat>, ds: seq<nat>, k: nat, m: nat, mul: nat, rem: nat, d: nat)
    requires Divided(ds0, ds, k, m, rem) && k < |ds| && m * mul == LIMB && d == ds0[k] / m + rem * mul
    ensures Divided(ds0, ds[k := d], k + 1, m, ds0[k] % m)
  {
    assert ds0[..k + 1] == ds0[..k] + [ds0[k]];
    assert ds[k := d][..k + 1] == ds[..k] + [d];
    assert ds[k := d][k + 1..] == ds[k..][1..] == ds0[k + 1..];
    NumeralAppend(LIMB, ds0[..k], ds0[k]);
    NumeralAppend(LIMB, ds[..k], d);
    LimbDivision(Numeral(LIMB, ds0[..k]), Numeral(LIMB, ds[..k]), m, mul, rem, ds0[k]);
  }

  lemma LimbDivision(n: nat, q: nat, m: nat, mul: nat, rem: nat, v: nat)
    requires m > 0 && n == m * q + rem && m * mul == LIMB
    ensures n * LIMB + v == m * (q * LIMB + (v / m + rem * mul)) + v % m
  {
    assert v == v / m * m + v % m;
    Assoc(m, q, LIMB);
    Distrib(m * q, rem, LIMB);
    Assoc(rem, m, mul);
    Assoc(m, mul, rem);
    assert m * (q * LIMB + (v / m + rem * mul)) == m * (q * LIMB) + m * (v / m) + m * (rem * mul);
    assert m * (rem * mul) == rem * LIMB;
  }

  lemma QuotientLimb(v: nat, m: nat, mul: nat, rem: nat)
    requires m > 0 && m * mul == LIMB && v < LIMB && rem < m
    ensures 0 <= v / m + rem * mul < LIMB && v / m < mul && v % m * mul >= 0
  {
    NonNegative(rem, mul);
    NonNegative(v % m, mul);
    QuotientBound(v, m, mul);
    MulMono(mul, rem, m - 1);
    Distrib(m, -1, mul);
  }

  /** The power of two and the limb's share of it: `2^j * (10^9 / 2^j)` is a whole limb, for up to nine bits. */
  lemma {:induction false} Share(j: nat)
    requires j <= 9
    ensures Pow(2, j) * (LIMB / Pow(2, j)) == LIMB
    ensures j == 9 ==> Pow(2, j) == 512
  {
    PowAdd(2, j, 9 - j);
    assert Pow(2, 1) == 2 && Pow(2, 2) == 4 && Pow(2, 3) == 8;
    PowAdd(2, 3, 3);
    PowAdd(2, 6, 3);
    Assoc(1953125, Pow(2, 9 - j), Pow(2, j));
    Multiple(1953125 * Pow(2, 9 - j), Pow(2, j));
  }

  predicate ZeroPrefix(ds: seq<nat>, k: nat) {
    k <= |ds| && forall t | 0 <= t < k :: ds[t] == 0
  }

  method DivLimb(nd: array<nat>, i: nat, m: nat, mul: nat, carryIn: nat, ghost hi: nat, ghost k: nat,
      ghost ds0: seq<nat>, ghost was: seq<nat>, ghost rem: nat)
      returns (carry: nat, ghost ds: seq<nat>)
    requires nd.Length == SLOTS && m * mul == LIMB && m > 0 && Window(nd[..], hi, was) && k < |was| == |ds0|
    requires i == Limb(hi, k) && Limbs(ds0)
    requires Divided(ds0, was, k, m, rem) && carryIn == rem * mul
    modifies nd
    ensures Window(nd[..], hi, ds) && Divided(ds0, ds, k + 1, m, ds0[k] % m)
    ensures carry == ds0[k] % m * mul && (forall t | 0 <= t < k :: ds[t] == was[t]) && ds[k] >= ds0[k] / m
  {
    Untouched(nd[..], hi, ds0, was, k);
    var val := nd[i];
    QuotientLimb(val, m, mul, rem);
    var d: nat := val / m + carryIn;
    DividedStep(ds0, was, k, m, mul, rem, d);
    WriteLimb(nd[..], hi, was, k, d);
    nd[i] := d;
    carry := val % m * mul;
    ds := was[k := d];
  }

  /** One pass of `nd_div2k` from the top limb in use down to the lowest. */
  method DivPass(nd: array<nat>, top: nat, ndlo: nat, m: nat, mul: nat, ghost hi: nat, ghost skip: nat,
      ghost ds0: seq<nat>)
      returns (carry: nat, ghost ds: seq<nat>)
    requires nd.Length == SLOTS && m * mul == LIMB && m > 0 && Window(nd[..], hi, ds0) && skip < |ds0|
    requires top == Limb(hi, skip) && ndlo == Limb(hi, |ds0| - 1) && ZeroPrefix(ds0, skip)
    modifies nd
    ensures Window(nd[..], hi, ds) && |ds| == |ds0| && ZeroPrefix(ds, skip)
    ensures Numeral(LIMB, ds0) == m * Numeral(LIMB, ds) + Last(ds0) % m
    ensures carry == Last(ds0) % m * mul && Last(ds) >= Last(ds0) / m
  {
    var i := top;
    carry, ds := 0, ds0;
    ghost var k := skip;
    ghost var rem: nat := 0;
    SkippedZeros(ds0, skip, m);
    while true
      invariant skip <= k < |ds0| && i == Limb(hi, k) && Window(nd[..], hi, ds) && Divided(ds0, ds, k, m, rem)
      invariant carry == rem * mul && ZeroPrefix(ds, skip)
      decreases |ds0| - k
    {
      carry, ds := DivLimb(nd, i, m, mul, carry, hi, k, ds0, ds, rem);
      rem, k := ds0[k] % m, k + 1;
      SameEnd(hi, k - 1, |ds0| - 1);
      if i == ndlo {
        assert k == |ds0| && ds[k - 1] >= ds0[k - 1] / m;
        AllDivided(ds0, ds, m, rem);
        return;
      }
      StepBelow(hi, k - 1);
      i := Below(i);
    }
  }

  lemma AllDivided(ds0: seq<nat>, ds: seq<nat>, m: nat, rem: nat)
    requires ds0 != [] && Divided(ds0, ds, |ds0|, m, rem) && rem == ds0[|ds0| - 1] % m
    requires ds[|ds| - 1] >= ds0[|ds0| - 1] / m
    ensures Numeral(LIMB, ds0) == m * Numeral(LIMB, ds) + Last(ds0) % m && Last(ds) >= Last(ds0) / m
  {
    assert ds0[..|ds0|] == ds0 && ds[..|ds|] == ds;
  }

  function Last(ds: seq<nat>): nat
    requires ds != []
  {
    ds[|ds| - 1]
  }

  lemma SameEnd(hi: nat, j: nat, k: nat)
    requires hi < SLOTS && j < SLOTS && k < SLOTS
    ensures Limb(hi, j) == Limb(hi, k) <==> j == k
  {}

  lemma Untouched(a: seq<nat>, hi: nat, ds0: seq<nat>, ds: seq<nat>, k: nat)
    requires Window(a, hi, ds) && k < |ds| == |ds0| && ds[k..] == ds0[k..]
    ensures a[Limb(hi, k)] == ds0[k]
  {
    assert ds[k..][0] == ds0[k..][0];
  }

  lemma {:induction false} SkippedZeros(ds: seq<nat>, skip: nat, m: nat)
    requires m > 0 && ZeroPrefix(ds, skip)
    ensures Divided(ds, ds, skip, m, 0)
  {
    ZeroNumeral(LIMB, ds[..skip]);
  }

  // ----- the whole division -----

  /** `ds * 2^s == ds0 * LIMB^(limbs appended)`: the window, with its fraction, is the number divided by `2^s`. */
  ghost predicate Quotient(ds0: seq<nat>, ds: seq<nat>, s: nat) {
    && 0 < |ds0| <= |ds|
    && Numeral(LIMB, ds) * Pow(2, s) == Numeral(LIMB, ds0) * Pow(LIMB, |ds| - |ds0|)
  }

  lemma {:induction false} QuotientStep(ds0: seq<nat>, was: seq<nat>, s: nat, ds: seq<nat>, j: nat)
    requires Quotient(ds0, was, s) && |was| <= |ds|
    requires Numeral(LIMB, ds) * Pow(2, j) == Numeral(LIMB, was) * Pow(LIMB, |ds| - |was|)
    ensures Quotient(ds0, ds, s + j)
  {
    var n, p := Numeral(LIMB, ds), Pow(LIMB, |ds| - |was|);
    PowAdd(2, j, s);
    Assoc(n, Pow(2, j), Pow(2, s));
    PowAdd(LIMB, |was| - |ds0|, |ds| - |was|);
    Assoc(Numeral(LIMB, ds0), Pow(LIMB, |was| - |ds0|), p);
    MulSwap(Numeral(LIMB, was), Pow(2, s), p, 1);
  }

  /** An odd number of half units is left below a limb: five to the ninth is odd. */
  lemma OddShare(rem: nat)
    requires 0 < rem < 512
    ensures rem * 1953125 % 512 != 0
  {}

  lemma {:induction false} WholeOrFraction(ds0: seq<nat>, ds: seq<nat>, j: nat, carry: nat)
    requires j <= 9 && ds0 != [] && |ds| == |ds0| && carry == Last(ds0) % Pow(2, j) * (LIMB / Pow(2, j))
    requires Numeral(LIMB, ds0) == Pow(2, j) * Numeral(LIMB, ds) + Last(ds0) % Pow(2, j)
    ensures carry < LIMB && (carry == 0 <==> Last(ds0) % Pow(2, j) == 0)
    ensures carry == 0 ==> Numeral(LIMB, ds) * Pow(2, j) == Numeral(LIMB, ds0)
    ensures Numeral(LIMB, ds + [carry]) * Pow(2, j) == Numeral(LIMB, ds0) * LIMB
    ensures j == 9 && carry > 0 ==> carry % 512 != 0
  {
    Share(j);
    var m, mul, rem := Pow(2, j), LIMB / Pow(2, j), Last(ds0) % Pow(2, j);
    MulMono(mul, rem, m - 1);
    Distrib(m, -1, mul);
    if rem == 0 { assert 0 * mul == 0; } else { Positive(rem, mul); }
    NumeralAppend(LIMB, ds, carry);
    FractionLimb(Numeral(LIMB, ds0), Numeral(LIMB, ds), m, mul, rem);
    if j == 9 && rem > 0 { OddShare(rem); }
  }

  lemma FractionLimb(n: nat, q: nat, m: nat, mul: nat, rem: nat)
    requires n == m * q + rem && m * mul == LIMB
    ensures (q * LIMB + rem * mul) * m == n * LIMB
  {
    Distrib(q * LIMB, rem * mul, m);
    Assoc(rem, mul, m);
    Distrib(m * q, rem, LIMB);
    assert q * LIMB * m == m * q * LIMB;
  }

  /** A division by `2^j` and the limb its remainder makes. */
  method DivStep(nd: array<nat>, top: nat, ndlo0: nat, j: nat, ghost hi: nat, ghost skip: nat, ghost ds0: seq<nat>)
      returns (ndlo: nat, ghost ds: seq<nat>)
    requires nd.Length == SLOTS && 0 < j <= 9 && Window(nd[..], hi, ds0) && skip < |ds0| < SLOTS
    requires top == Limb(hi, skip) && ndlo0 == Limb(hi, |ds0| - 1) && ZeroPrefix(ds0, skip)
    modifies nd
    ensures Window(nd[..], hi, ds) && |ds0| <= |ds| <= |ds0| + 1 && ndlo == Limb(hi, |ds| - 1) && ZeroPrefix(ds, skip)
    ensures Numeral(LIMB, ds) * Pow(2, j) == Numeral(LIMB, ds0) * Pow(LIMB, |ds| - |ds0|)
    ensures Last(ds0) % Pow(2, j) != 0 ==> |ds| > |ds0|
    ensures |ds| > |ds0| ==> Last(ds) > 0 && (j == 9 ==> Last(ds) % 512 != 0)
    ensures |ds| == |ds0| ==> Last(ds) >= Last(ds0) / Pow(2, j)
  {
    var carry;
    Share(j);
    var m := Pow(2, j);
    carry, ds := DivPass(nd, top, ndlo0, m, LIMB / m, hi, skip, ds0);
    ndlo := ndlo0;
    StepDone(ds0, ds, j, carry);
    if carry > 0 {
      ndlo, ds := PushBelow(nd, ndlo0, carry, hi, ds);
    }
  }

  /** The division and the limb of its remainder, if there is one. */
  lemma {:induction false} StepDone(ds0: seq<nat>, mid: seq<nat>, j: nat, carry: nat)
    requires 0 < j <= 9 && ds0 != [] && |mid| == |ds0| && carry == Last(ds0) % Pow(2, j) * (LIMB / Pow(2, j))
    requires Numeral(LIMB, ds0) == Pow(2, j) * Numeral(LIMB, mid) + Last(ds0) % Pow(2, j)
    ensures carry < LIMB && (Last(ds0) % Pow(2, j) != 0 ==> carry > 0) && (j == 9 && carry > 0 ==> carry % 512 != 0)
    ensures var ds := if carry > 0 then mid + [carry] else mid;
            Numeral(LIMB, ds) * Pow(2, j) == Numeral(LIMB, ds0) * Pow(LIMB, |ds| - |ds0|)
  {
    WholeOrFraction(ds0, mid, j, carry);
    assert Pow(LIMB, 0) == 1 && Pow(LIMB, 1) == LIMB;
  }

  method PushBelow(nd: array<nat>, ndlo0: nat, carry: nat, ghost hi: nat, ghost was: seq<nat>)
      returns (ndlo: nat, ghost ds: seq<nat>)
    requires nd.Length == SLOTS && Window(nd[..], hi, was) && 0 < |was| < SLOTS && carry < LIMB
    requires ndlo0 == Limb(hi, |was| - 1)
    modifies nd
    ensures ds == was + [carry] && Window(nd[..], hi, ds) && ndlo == Limb(hi, |was|)
  {
    StepBelow(hi, |was| - 1);
    WriteBelow(nd[..], hi, was, carry);
    ndlo := Below(ndlo0);
    nd[ndlo] := carry;
    ds := was + [carry];
  }

  /** Trailing zero bits. */
  function Ctz(x: nat): nat
    requires x > 0
  {
    if x % 2 == 1 then 0 else 1 + Ctz(x / 2)
  }

  lemma HalvedProduct(x: nat, q: nat, p: nat)
    requires x % 2 == 0 && q * p == x / 2
    ensures q * (2 * p) == x
  {
    Assoc(q, 2, p);
    Assoc(2, q, p);
  }

  lemma {:induction false} CtzDivides(x: nat, s: nat)
    requires x > 0 && s <= Ctz(x)
    ensures x / Pow(2, s) * Pow(2, s) == x && x / Pow(2, s) > 0
  {
    if s > 0 {
      CtzDivides(x / 2, s - 1);
      DivDiv(x, 2, Pow(2, s - 1));
      HalvedProduct(x, x / Pow(2, s), Pow(2, s - 1));
    }
  }

  /** The window as `nd_div2k` holds it: `ndhi` past the zeros on top, `ndlo` at the lowest limb. */
  ghost predicate Live(a: seq<nat>, ndhi: nat, ndlo: nat, hi: nat, skip: nat, ds: seq<nat>) {
    && Window(a, hi, ds) && skip < |ds| && ndhi == Limb(hi, skip) && ndlo == Limb(hi, |ds| - 1) && ZeroPrefix(ds, skip)
  }

  lemma {:induction false} NotAllZero(ds: seq<nat>, skip: nat)
    requires ZeroPrefix(ds, skip) && Numeral(LIMB, ds) > 0
    ensures skip < |ds|
  {
    ZeroNumeral(LIMB, ds);
  }

  lemma {:induction false} StaysPositive(ds0: seq<nat>, ds: seq<nat>, s: nat)
    requires Quotient(ds0, ds, s) && Numeral(LIMB, ds0) > 0
    ensures Numeral(LIMB, ds) > 0
  {
    Positive(Numeral(LIMB, ds0), Pow(LIMB, |ds| - |ds0|));
    assert 0 * Pow(2, s) == 0;
  }

  /** A zero on top is left behind. */
  method DropTop(nd: array<nat>, top: nat, ndlo: nat, ghost hi: nat, ghost skip0: nat, ghost ds: seq<nat>)
      returns (ndhi: nat, ghost skip: nat)
    requires nd.Length == SLOTS && Live(nd[..], top, ndlo, hi, skip0, ds) && Numeral(LIMB, ds) > 0
    ensures Live(nd[..], ndhi, ndlo, hi, skip, ds)
  {
    ndhi, skip := top, skip0;
    if nd[ndhi] == 0 {
      NotAllZero(ds, skip + 1);
      StepBelow(hi, skip);
      ndhi, skip := Below(ndhi), skip + 1;
    }
  }

  /** The loop: nine bits at a time. */
  method DivNines(nd: array<nat>, ndhi0: nat, ndlo0: nat, k0: nat, ghost hi: nat, ghost ds0: seq<nat>)
      returns (ndhi: nat, ndlo: nat, k: nat, ghost n: nat, ghost skip: nat, ghost ds: seq<nat>)
    requires nd.Length == SLOTS && Live(nd[..], ndhi0, ndlo0, hi, 0, ds0) && Numeral(LIMB, ds0) > 0
    requires 9 * |ds0| + k0 <= 9 * SLOTS + 8
    modifies nd
    ensures Live(nd[..], ndhi, ndlo, hi, skip, ds) && k < 9 && k0 == 9 * n + k && |ds| <= |ds0| + n
    ensures Quotient(ds0, ds, 9 * n)
    ensures |ds| > |ds0| ==> Last(ds) % 512 != 0
  {
    ndhi, ndlo, k, n, skip, ds := ndhi0, ndlo0, k0, 0, 0, ds0;
    assert Pow(2, 0) == 1 && Pow(LIMB, 0) == 1;
    while k >= 9
      invariant Live(nd[..], ndhi, ndlo, hi, skip, ds) && k0 == 9 * n + k && |ds| <= |ds0| + n
      invariant Quotient(ds0, ds, 9 * n) && (|ds| > |ds0| ==> Last(ds) % 512 != 0)
    {
      ghost var was := ds;
      Share(9);
      ndlo, ds := DivStep(nd, ndhi, ndlo, 9, hi, skip, was);
      QuotientStep(ds0, was, 9 * n, ds, 9);
      StaysPositive(ds0, ds, 9 * n + 9);
      ndhi, skip := DropTop(nd, ndhi, ndlo, hi, skip, ds);
      k, n := k - 9, n + 1;
    }
  }

  /** The last bits leave the lowest limb above zero. */
  lemma {:induction false} LowestStays(was: seq<nat>, ds: seq<nat>, j: nat)
    requires was != [] && |was| <= |ds| && 0 < j < 9 && Last(was) % 512 != 0
    requires Last(was) % Pow(2, j) != 0 ==> |ds| > |was|
    requires |ds| > |was| ==> Last(ds) > 0
    requires |ds| == |was| ==> Last(ds) >= Last(was) / Pow(2, j)
    ensures Last(ds) > 0
  {
    if |ds| == |was| {
      var m := Pow(2, j);
      assert Last(was) == Last(was) / m * m + Last(was) % m;
      assert 0 * m == 0;
    }
  }

  /** The passes of `nd_div2k`: the whole nines of bits, then the rest. */
  method DivPasses(nd: array<nat>, ndhi0: nat, k0: nat, ghost ds0: seq<nat>) returns (ndlo: nat, ghost ds: seq<nat>)
    requires nd.Length == SLOTS && Window(nd[..], ndhi0, ds0) && |ds0| == ndhi0 + 1 && Numeral(LIMB, ds0) > 0
    requires |ds0| + (k0 + 8) / 9 <= SLOTS
    modifies nd
    ensures Window(nd[..], ndhi0, ds) && Quotient(ds0, ds, k0) && ndlo == Limb(ndhi0, |ds| - 1)
    ensures |ds| <= |ds0| + (k0 + 8) / 9 && (|ds| > |ds0| ==> Last(ds) > 0)
  {
    var ndhi, k;
    ghost var n, skip;
    ndhi, ndlo, k, n, skip, ds := DivNines(nd, ndhi0, 0, k0, ndhi0, ds0);
    if k > 0 {
      ghost var was := ds;
      ndlo, ds := DivStep(nd, ndhi, ndlo, k, ndhi0, skip, was);
      QuotientStep(ds0, was, 9 * n, ds, k);
      if |was| > |ds0| { LowestStays(was, ds, k); }
    }
  }

  /** A single limb first loses its trailing zero bits, up to `k` of them. */
  method StripZeros(nd: array<nat>, k0: nat, ghost ds0: seq<nat>) returns (k: nat, ghost ds: seq<nat>)
    requires nd.Length == SLOTS && Window(nd[..], 0, ds0) && |ds0| == 1 && nd[0] > 0
    modifies nd
    ensures Window(nd[..], 0, ds) && |ds| == 1 && k <= k0 && Quotient(ds0, ds, k0 - k) && Numeral(LIMB, ds) > 0
  {
    var s := Ctz(nd[0]);
    var t := if s >= k0 then k0 else s;
    assert Limb(0, 0) == 0;
    CtzDivides(nd[0], t);
    Shrinks(nd[0], Pow(2, t));
    SingleLimb(ds0);
    nd[0] := nd[0] / Pow(2, t);
    ds := [nd[0]];
    SingleLimb(ds);
    assert Pow(LIMB, 0) == 1;
    k := k0 - t;
  }

  lemma Shrinks(x: nat, m: nat)
    requires m > 0
    ensures x / m <= x
  {
    QuotientBound(x, m, x / m);
    MulMono(x / m, 1, m);
  }

  lemma SingleLimb(ds: seq<nat>)
    requires |ds| == 1
    ensures Numeral(LIMB, ds) == ds[0]
  {
    assert ds == [] + [ds[0]];
    NumeralAppend(LIMB, [], ds[0]);
  }

  /** `nd_div2k` in `%f` mode: the window of a number of one or more integer limbs, extended by the fraction limbs of
      its quotient by `2^k`; the lowest of them is not zero. */
  method NdDiv2k(nd: array<nat>, ndhi0: nat, k0: nat, ghost ds0: seq<nat>) returns (ndlo: nat, ghost ds: seq<nat>)
    requires nd.Length == SLOTS && Window(nd[..], ndhi0, ds0) && |ds0| == ndhi0 + 1 && (ndhi0 > 0 ==> ds0[0] > 0)
    requires Numeral(LIMB, ds0) > 0 ==> |ds0| + (k0 + 8) / 9 <= SLOTS
    modifies nd
    ensures Numeral(LIMB, ds0) == 0 ==> |ds| == |ds0|
    ensures Window(nd[..], ndhi0, ds) && Quotient(ds0, ds, k0) && ndlo == Limb(ndhi0, |ds| - 1)
    ensures |ds| <= |ds0| + (k0 + 8) / 9 && (|ds| > |ds0| ==> Last(ds) > 0)
  {
    assert Limb(0, 0) == 0;
    if ndhi0 == 0 {
      SingleLimb(ds0);
      if nd[0] == 0 {
        assert 0 * Pow(2, k0) == 0;
        return 0, ds0;
      }
      var k;
      ghost var mid;
      k, mid := StripZeros(nd, k0, ds0);
      if k == 0 { return 0, mid; }
      ndlo, ds := DivPasses(nd, ndhi0, k, mid);
      QuotientStep(ds0, mid, k0 - k, ds, k);
    } else {
      ZeroNumeral(LIMB, ds0);
      ndlo, ds := DivPasses(nd, ndhi0, k0, ds0);
    }
  }
}
