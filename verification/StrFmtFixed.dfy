/** strfmt.js, the `%f` path of `lj_strfmt_wfnum`: a finite double in positional notation, correctly rounded
    and padded. */
module StrFmtFixed {
  import opened Exact
  import opened Positional
  import opened DecimalText
  import opened StrFmtInt
  import opened StrFmtRing
  import opened StrFmtDiv
  import opened StrFmtRound

  // ----- the digits of a window -----

  /** The integer limbs: the top one short, the others nine digits each. */
  method PutInteger(h: array<nat>, p: nat, nd: array<nat>, ndhi: nat, ghost ds: seq<nat>) returns (q: nat)
    requires nd != h && nd.Length == SLOTS && Window(nd[..], ndhi, ds) && ndhi < |ds| && (ndhi > 0 ==> ds[0] > 0)
    requires p + 11 + 9 * ndhi <= h.Length
    modifies h
    ensures p < q == p + Len(ds[0]) + 9 * ndhi <= p + 11 + 9 * ndhi
    ensures h[..q] == old(h[..p]) + Numerals(Numeral(LIMB, ds[..ndhi + 1]))
  {
    assert Limb(ndhi, 0) == ndhi;
    q := Wint(h, p, nd[ndhi]);
    var i := ndhi;
    ghost var c := 1;
    assert ds[..1] == [ds[0]];
    SingleLimb([ds[0]]);
    WintLength(ds[0]);
    assert |h[..q]| == p + Len(ds[0]);
    while i > 0
      invariant i + c == ndhi + 1 && q == p + Len(ds[0]) + 9 * (c - 1)
      invariant h[..q] == old(h[..p]) + Numerals(Numeral(LIMB, ds[..c])) && (ndhi > 0 ==> Numeral(LIMB, ds[..c]) > 0)
    {
      i := i - 1;
      assert Limb(ndhi, c) == i;
      q := PutNext(h, q, nd[i], old(h[..p]), Numeral(LIMB, ds[..c]));
      assert ds[..c + 1] == ds[..c] + [ds[c]];
      NumeralAppend(LIMB, ds[..c], ds[c]);
      c := c + 1;
    }
  }

  /** Nine more digits of an integer. */
  method PutNext(h: array<nat>, p: nat, x: nat, ghost before: seq<nat>, ghost n: nat) returns (q: nat)
    requires p + 9 <= h.Length && x < LIMB && n > 0 && h[..p] == before + Numerals(n)
    modifies h
    ensures q == p + 9 && h[..q] == before + Numerals(n * LIMB + x) && n * LIMB + x > 0
  {
    q := Wuint9(h, p, x);
    AppendLimb(n, x);
  }

  lemma {:induction false} WintLength(x: nat)
    requires x < LIMB
    ensures Len(x) <= 9
  {
    LimbPower(1);
    assert Pow(LIMB, 0) == 1 && Pow(LIMB, 1) == LIMB;
    LenBounds(x);
    if Len(x) > 9 { PowMono(10, 9, Len(x) - 1); }
  }

  lemma {:induction false} AppendLimb(a: nat, x: nat)
    requires a > 0 && x < LIMB
    ensures Numerals(a * LIMB + x) == Numerals(a) + Digits(x, 9)
  {
    LimbPower(1);
    assert Pow(LIMB, 0) == 1 && Pow(LIMB, 1) == LIMB;
    NumeralsConcat(a, x, 9);
  }

  lemma {:induction false} AppendDigits(a: nat, x: nat, w: nat)
    requires x < LIMB
    ensures Digits(a * LIMB + x, w + 9) == Digits(a, w) + Digits(x, 9)
  {
    LimbPower(1);
    assert Pow(LIMB, 0) == 1 && Pow(LIMB, 1) == LIMB;
    DigitsConcat(a, x, w, 9);
  }

  /** The first `c` limbs after the integer ones, as a number. */
  function Fraction(ndhi: nat, ds: seq<nat>, c: nat): nat
    requires ndhi + 1 + c <= |ds|
  {
    Numeral(LIMB, ds[ndhi + 1..ndhi + 1 + c])
  }

  method PutLimb(h: array<nat>, p: nat, x: nat, ghost ndhi: nat, ghost ds: seq<nat>, ghost c: nat) returns (q: nat)
    requires Limbs(ds) && ndhi + 2 + c <= |ds| && x == ds[ndhi + 1 + c] && p + 9 <= h.Length
    modifies h
    ensures q == p + 9
    ensures forall before | old(h[..p]) == before + Digits(Fraction(ndhi, ds, c), 9 * c) ::
        h[..q] == before + Digits(Fraction(ndhi, ds, c + 1), 9 * (c + 1))
  {
    q := Wuint9(h, p, x);
    assert ds[ndhi + 1..ndhi + 2 + c] == ds[ndhi + 1..ndhi + 1 + c] + [x];
    NumeralAppend(LIMB, ds[ndhi + 1..ndhi + 1 + c], x);
    AppendDigits(Fraction(ndhi, ds, c), x, 9 * c);
  }

  /** The fraction limbs from slot 63 down, until the precision is met or they end. */
  method PutLimbs(h: array<nat>, p: nat, nd: array<nat>, ndhi: nat, ndlo: nat, prec0: nat, ghost ds: seq<nat>)
      returns (q: nat, prec: int, ghost c: nat)
    requires nd != h && nd.Length == SLOTS && Window(nd[..], ndhi, ds) && ndhi < |ds| && ndlo == Limb(ndhi, |ds| - 1)
    requires p + prec0 + 9 <= h.Length
    modifies h
    ensures q == p + 9 * c <= p + prec0 + 9 && prec == prec0 - 9 * c && prec > -9 && ndhi + 1 + c <= |ds|
    ensures prec <= 0 || ndhi + 1 + c == |ds|
    ensures h[..q] == old(h[..p]) + Digits(Fraction(ndhi, ds, c), 9 * c)
  {
    q, prec, c := p, prec0, 0;
    var i := 0;
    assert Limb(ndhi, ndhi) == 0;
    SameEnd(ndhi, ndhi, |ds| - 1);
    while prec > 0 && i != ndlo
      invariant ndhi + 1 + c <= |ds| && i == Limb(ndhi, ndhi + c) && (i == ndlo <==> ndhi + 1 + c == |ds|)
      invariant q == p + 9 * c && prec == prec0 - 9 * c && prec > -9
      invariant h[..q] == old(h[..p]) + Digits(Fraction(ndhi, ds, c), 9 * c)
    {
      StepBelow(ndhi, ndhi + c);
      i := Below(i);
      q := PutLimb(h, q, nd[i], ndhi, ds, c);
      c, prec := c + 1, prec - 9;
      SameEnd(ndhi, ndhi + c, |ds| - 1);
    }
  }

  method PutZeros(h: array<nat>, p: nat, n: nat) returns (q: nat)
    requires p + n <= h.Length
    modifies h
    ensures q == p + n && h[..q] == old(h[..p]) + Zeros(n)
  {
    q := p;
    var k: nat := n;
    while k > 0
      invariant k <= n && q == p + (n - k) && h[..q] == old(h[..p]) + Zeros(n - k)
    {
      q := Put(h, q, 48);
      k := k - 1;
    }
  }

  /** The decimals: whole limbs, then zeros or a step back over what is too much. */
  method PutFraction(h: array<nat>, p: nat, nd: array<nat>, ndhi: nat, ndlo: nat, prec0: nat, ghost ds: seq<nat>)
      returns (q: nat)
    requires nd != h && nd.Length == SLOTS && Window(nd[..], ndhi, ds) && ndhi < |ds| && ndlo == Limb(ndhi, |ds| - 1)
    requires p + prec0 + 9 <= h.Length
    modifies h
    ensures q == p + prec0 && h[..q] == old(h[..p]) + Digits(Truncated(ndhi, ds, prec0), prec0)
  {
    var prec;
    ghost var c;
    q, prec, c := PutLimbs(h, p, nd, ndhi, ndlo, prec0, ds);
    LimbDigits(ndhi, ds, prec0, c);
    ghost var before, t := old(h[..p]), Digits(Fraction(ndhi, ds, c), 9 * c);
    if prec > 0 {
      q := PutZeros(h, q, prec);
      assert before + t + Zeros(prec) == before + (t + Zeros(prec));
    } else {
      q := q + prec;
      assert (before + t)[..q] == before + t[..prec0];
    }
  }

  /** The window's number counted in units of `10^-prec`, what is below cut off. */
  function Truncated(ndhi: nat, ds: seq<nat>, prec: nat): nat
    requires ndhi < |ds|
  {
    var w := 9 * (|ds| - 1 - ndhi);
    NonNegative(Numeral(LIMB, ds), Pow(10, Max(0, prec - w)));
    if prec < w then Numeral(LIMB, ds) / Pow(10, w - prec) else Numeral(LIMB, ds) * Pow(10, prec - w)
  }

  /** The digits of the limbs written are those of the truncated number. */
  lemma {:induction false} LimbDigits(ndhi: nat, ds: seq<nat>, prec: nat, c: nat)
    requires Limbs(ds) && ndhi + 1 + c <= |ds| && (prec <= 9 * c || ndhi + 1 + c == |ds|)
    ensures var t := Digits(Fraction(ndhi, ds, c), 9 * c);
            Digits(Truncated(ndhi, ds, prec), prec) == if prec <= 9 * c then t[..prec] else t + Zeros(prec - 9 * c)
  {
    HeadDigits(ndhi, ds, c);
    SplitTail(ds, ndhi + 1 + c);
    LimbPower(|ds| - (ndhi + 1 + c));
    var y, z := Numeral(LIMB, ds[..ndhi + 1 + c]), Numeral(LIMB, ds[ndhi + 1 + c..]);
    if prec <= 9 * c {
      CutDigits(Numeral(LIMB, ds), y, z, |ds| - (ndhi + 1 + c), c, prec);
    } else {
      assert ds[..|ds|] == ds;
      DigitsConcat(Numeral(LIMB, ds), 0, 9 * c, prec - 9 * c);
      ZeroDigits(prec - 9 * c);
    }
  }

  lemma {:induction false} CutDigits(n: nat, y: nat, z: nat, r: nat, c: nat, prec: nat)
    requires prec <= 9 * c && n == y * Pow(10, 9 * r) + z && z < Pow(10, 9 * r)
    ensures Digits(n / Pow(10, 9 * r + 9 * c - prec), prec) == Digits(y, 9 * c)[..prec]
    ensures 9 * r + 9 * c - prec == 0 ==> n * Pow(10, 0) == n / Pow(10, 0)
  {
    DivUnique(n, Pow(10, 9 * r), y, z);
    PowAdd(10, 9 * r, 9 * c - prec);
    DivDiv(n, Pow(10, 9 * r), Pow(10, 9 * c - prec));
    DigitsPrefix(y, prec, 9 * c - prec);
    assert Pow(10, 0) == 1;
  }

  lemma {:induction false} SplitTail(ds: seq<nat>, k: nat)
    requires Limbs(ds) && k <= |ds|
    ensures Numeral(LIMB, ds[k..]) < Pow(LIMB, |ds| - k)
    ensures Numeral(LIMB, ds) == Numeral(LIMB, ds[..k]) * Pow(LIMB, |ds| - k) + Numeral(LIMB, ds[k..])
  {
    assert ds == ds[..k] + ds[k..];
    NumeralSplit(LIMB, ds[..k], ds[k..]);
    NumeralBound(LIMB, ds[k..]);
  }

  /** The last digits of the limbs down to the written ones are the written ones. */
  lemma {:induction false} HeadDigits(ndhi: nat, ds: seq<nat>, c: nat)
    requires Limbs(ds) && ndhi + 1 + c <= |ds|
    ensures Digits(Numeral(LIMB, ds[..ndhi + 1 + c]), 9 * c) == Digits(Fraction(ndhi, ds, c), 9 * c)
  {
    var a, b := ds[..ndhi + 1], ds[ndhi + 1..ndhi + 1 + c];
    assert ds[..ndhi + 1 + c] == a + b;
    NumeralSplit(LIMB, a, b);
    NumeralBound(LIMB, b);
    LimbPower(c);
    LowDigits(Numeral(LIMB, ds[..ndhi + 1 + c]), Numeral(LIMB, a), Numeral(LIMB, b), 9 * c);
  }

  lemma {:induction false} LowDigits(n: nat, a: nat, b: nat, w: nat)
    requires b < Pow(10, w) && n == a * Pow(10, w) + b
    ensures Digits(n, w) == Digits(b, w)
  {
    DigitsConcat(a, b, 0, w);
    assert Digits(a, 0) == [] && 0 + w == w;
  }

  // ----- the double taken apart -----

  /** The fields of a double, high and low word. */
  function Biased(hi: nat): nat { hi / 0x10_0000 % 0x800 }

  function Negative(hi: nat): bool { hi >= SIGN32 }

  /** The 21 leading bits of the significand, the hidden one included. */
  function TopBits(hi: nat): nat {
    hi % 0x10_0000 + if Biased(hi) == 0 then 0 else 0x10_0000
  }

  /** The magnitude is `Significand * 2^Exponent`. */
  function Significand(hi: nat, lo: nat): nat { TopBits(hi) * WORD32 + lo }

  function Exponent(hi: nat): int { Max(Biased(hi), 1) - 1075 }

  /** `x * 2^e * 10^prec` rounded half to even. */
  function Nearest(x: nat, e: int, prec: nat): nat {
    NonNegative(x, Pow(2, Max(0, e)));
    NonNegative(x * Pow(2, Max(0, e)), Pow(10, prec));
    HalfEven(x * Pow(2, Max(0, e)) * Pow(10, prec), Pow(2, Max(0, 0 - e)))
  }

  lemma {:induction false} EqualFractions(n: nat, d: nat, m: nat, c: nat)
    requires d > 0 && c > 0 && n * c == m * d
    ensures HalfEven(n, d) == HalfEven(m, c)
  {
    HalfEvenScale(n, d, c);
    HalfEvenScale(m, c, d);
    assert d * c == c * d;
  }

  /** Moving `k` bits from the exponent to the significand changes nothing. */
  lemma {:induction false} NearestShift(x: nat, e: int, k: nat, prec: nat)
    ensures x * Pow(2, k) >= 0 && Nearest(x * Pow(2, k), e - k, prec) == Nearest(x, e, prec)
  {
    NonNegative(x, Pow(2, k));
    var t := Pow(10, prec);
    var a, b, c, d := Max(0, e - k), Max(0, 0 - (e - k)), Max(0, e), Max(0, 0 - e);
    PowAdd(2, k, a);
    PowAdd(2, k + a, d);
    PowAdd(2, c, b);
    assert k + a + d == c + b;
    CrossShift(x, t, Pow(2, k), Pow(2, a), Pow(2, b), Pow(2, c), Pow(2, d));
    EqualFractions(x * Pow(2, k) * Pow(2, a) * t, Pow(2, b), x * Pow(2, c) * t, Pow(2, d));
  }

  lemma CrossShift(x: nat, t: nat, k: nat, a: nat, b: nat, c: nat, d: nat)
    requires k * a * d == c * b
    ensures x * k * a * t * d == x * c * t * b
  {
    assert x * k * a * t * d == x * t * (k * a * d);
    assert x * c * t * b == x * t * (c * b);
  }

  /** A significand whose low word is zero. */
  lemma {:induction false} HighWord(x: nat, e: int)
    ensures forall prec: nat :: Nearest(x * WORD32, e - 32, prec) == Nearest(x, e, prec)
  {
    forall prec: nat ensures Nearest(x * WORD32, e - 32, prec) == Nearest(x, e, prec) {
      TwoToThe32();
      NearestShift(x, e, 32, prec);
    }
  }

  /** The significand in the ring: one limb when the low word is zero, two words otherwise. */
  method LoadSignificand(nd: array<nat>, hi: nat, lo: nat) returns (ndhi: nat, e: int, ghost ds: seq<nat>)
    requires nd.Length == SLOTS && hi < WORD32 && lo < WORD32 && Biased(hi) < 0x7ff
    modifies nd
    ensures e < 1024 && ndhi <= 1 && |ds| == ndhi + 1 && Window(nd[..], ndhi, ds) && (ndhi > 0 ==> ds[0] > 0)
    ensures e >= Exponent(hi) && (Numeral(LIMB, ds) == 0 <==> Significand(hi, lo) == 0)
    ensures forall prec: nat :: Nearest(Numeral(LIMB, ds), e, prec) == Nearest(Significand(hi, lo), Exponent(hi), prec)
  {
    ndhi := 0;
    e := hi / 0x10_0000 % 0x800;
    nd[0] := hi % 0x10_0000;
    if e == 0 {
      e := e + 1;
    } else {
      nd[0] := nd[0] + 0x10_0000;
    }
    e := e - 1043;
    assert Limb(0, 0) == 0;
    if lo != 0 {
      e := e - 32;
      nd[0] := nd[0] * 8 + lo / 0x2000_0000;
      ds := [nd[0]];
      SingleLimb(ds);
      PowerOf29();
      ndhi, ds := NdMul2k(nd, 0, 29, lo % 0x2000_0000, ds);
      Words(TopBits(hi), lo);
    } else {
      ds := [nd[0]];
      SingleLimb(ds);
      HighWord(nd[0], e);
    }
  }

  lemma {:induction false} TwoToThe32()
    ensures Pow(2, 32) == WORD32
  {
    Powers32();
  }

  lemma {:induction false} Words(top: nat, lo: nat)
    requires lo < WORD32
    ensures Shifted(top * 8 + lo / 0x2000_0000, 29, lo % 0x2000_0000) == top * WORD32 + lo
  {
    PowerOf29();
    assert Pow(2, 0) == 1;
  }

  // ----- rounding at the precision -----

  /** The window denotes the number: `ds`, with `w` decimals in its fraction limbs, is `x * 2^e`. */
  ghost predicate Denotes(ndhi: nat, ds: seq<nat>, x: nat, e: int) {
    && ndhi < |ds|
    && Numeral(LIMB, ds) * Pow(2, Max(0, 0 - e)) == x * Pow(2, Max(0, e)) * Pow(10, 9 * (|ds| - 1 - ndhi))
  }

  /** Truncating the window after rounding is rounding the number. */
  lemma {:induction false} RoundedWindow(ndhi: nat, ds: seq<nat>, x: nat, e: int, prec: nat)
    requires Denotes(ndhi, ds, x, e)
    ensures var w := 9 * (|ds| - 1 - ndhi);
            && (prec < w ==> HalfEven(Numeral(LIMB, ds), Pow(10, w - prec)) == Nearest(x, e, prec))
            && (prec >= w ==> Numeral(LIMB, ds) * Pow(10, prec - w) == Nearest(x, e, prec))
  {
    var w := 9 * (|ds| - 1 - ndhi);
    var n, d, v := Numeral(LIMB, ds), Pow(2, Max(0, 0 - e)), x * Pow(2, Max(0, e));
    NonNegative(x, Pow(2, Max(0, e)));
    if prec < w {
      PowAdd(10, prec, w - prec);
      Assoc(v, Pow(10, prec), Pow(10, w - prec));
      EqualFractions(n, Pow(10, w - prec), v * Pow(10, prec), d);
    } else {
      PowAdd(10, w, prec - w);
      Assoc(v, Pow(10, w), Pow(10, prec - w));
      MulSwap(n, d, Pow(10, prec - w), 1);
      HalfEvenExact(n * Pow(10, prec - w), d);
    }
  }

  /** The integer part of the number printed. */
  lemma {:induction false} IntegerPart(ndhi: nat, ds: seq<nat>, prec: nat)
    requires Limbs(ds) && ndhi < |ds|
    ensures Numeral(LIMB, ds[..ndhi + 1]) == Truncated(ndhi, ds, prec) / Pow(10, prec)
  {
    var f := |ds| - 1 - ndhi;
    SplitTail(ds, ndhi + 1);
    LimbPower(f);
    var n := Numeral(LIMB, ds);
    DivUnique(n, Pow(10, 9 * f), Numeral(LIMB, ds[..ndhi + 1]), Numeral(LIMB, ds[ndhi + 1..]));
    if prec < 9 * f {
      PowAdd(10, 9 * f - prec, prec);
      DivDiv(n, Pow(10, 9 * f - prec), Pow(10, prec));
    } else {
      PowAdd(10, 9 * f, prec - 9 * f);
      DivScale(n, Pow(10, 9 * f), Pow(10, prec - 9 * f));
    }
  }

  lemma {:induction false} ShiftedWhole(v: nat, k: nat)
    ensures Shifted(v, k, 0) == v * Pow(2, k)
  {
    if k >= 29 { TwoShifts(v, 29, k - 29); }
  }

  /** The ring as the printing code takes it: `ndhi` at a top limb that is not zero, unless it is the only
      integer limb. */
  ghost predicate Ready(a: seq<nat>, ndhi: nat, ndlo: nat, ds: seq<nat>) {
    Window(a, ndhi, ds) && ndhi < |ds| && ndlo == Limb(ndhi, |ds| - 1) && (ndhi > 0 ==> ds[0] > 0)
  }

  /** The exact expansion of `x * 2^e`. */
  method Scale(nd: array<nat>, ndhi0: nat, e: int, ghost ds0: seq<nat>)
      returns (ndhi: nat, ndlo: nat, ghost ds: seq<nat>)
    requires nd.Length == SLOTS && ndhi0 <= 1 && |ds0| == ndhi0 + 1 && Window(nd[..], ndhi0, ds0)
    requires ndhi0 > 0 ==> ds0[0] > 0
    requires e < 1024 && (Numeral(LIMB, ds0) > 0 ==> e >= -540)
    modifies nd
    ensures Ready(nd[..], ndhi, ndlo, ds) && Denotes(ndhi, ds, Numeral(LIMB, ds0), e) && ndhi < 62
    ensures ndlo != 0 ==> |ds| < SLOTS && Last(ds) > 0
  {
    ghost var x := Numeral(LIMB, ds0);
    assert Pow(2, 0) == 1 && Pow(10, 0) == 1;
    if e >= 0 {
      ndhi, ds := NdMul2k(nd, ndhi0, e, 0, ds0);
      ShiftedWhole(x, e);
      ndlo := 0;
    } else {
      ndlo, ds := NdDiv2k(nd, ndhi0, 0 - e, ds0);
      if x > 0 { FractionShort(ds0, ds, e); }
      QuotientDenotes(ndhi0, ds0, ds, e);
      ndhi, ds := DropZeroTop(nd, ndhi0, ndlo, x, e, ds);
    }
  }

  lemma {:induction false} QuotientDenotes(ndhi: nat, ds0: seq<nat>, ds: seq<nat>, e: int)
    requires e < 0 && |ds0| == ndhi + 1 && Quotient(ds0, ds, 0 - e)
    ensures Denotes(ndhi, ds, Numeral(LIMB, ds0), e)
  {
    LimbPower(|ds| - |ds0|);
    assert Pow(2, 0) == 1;
  }

  /** An integer limb that the division made zero is passed over. */
  method DropZeroTop(nd: array<nat>, ndhi0: nat, ndlo: nat, ghost x: nat, ghost e: int, ghost ds0: seq<nat>)
      returns (ndhi: nat, ghost ds: seq<nat>)
    requires nd.Length == SLOTS && ndhi0 <= 1 && Window(nd[..], ndhi0, ds0) && ndhi0 < |ds0|
    requires ndlo == Limb(ndhi0, |ds0| - 1)
    requires Denotes(ndhi0, ds0, x, e)
    ensures Ready(nd[..], ndhi, ndlo, ds) && Denotes(ndhi, ds, x, e) && ndhi <= ndhi0
    ensures |ds| - 1 - ndhi == |ds0| - 1 - ndhi0 && Last(ds) == Last(ds0)
  {
    ndhi, ds := ndhi0, ds0;
    assert Limb(ndhi, 0) == ndhi;
    if ndhi != 0 && nd[ndhi] == 0 {
      ndhi, ds := 0, ds0[1..];
      assert ds0 == [0] + ds;
      NumeralPrepend(LIMB, 0, ds);
      forall k | 0 <= k < |ds|
        ensures nd[Limb(0, k)] == ds[k]
      {
        assert Limb(0, k) == Limb(1, k + 1);
      }
    }
  }

  lemma FractionShort(ds0: seq<nat>, ds: seq<nat>, e: int)
    requires 0 < |ds0| <= 2 && |ds0| <= |ds| <= |ds0| + (8 - e) / 9 && -540 <= e < 0
    ensures |ds| < SLOTS
  {}

  // ----- the number, rounded -----

  /** With a lowest limb that is not zero no exact tie hides above it. */
  lemma {:induction false} NoTiePushed(ndhi: nat, e: int, ds: seq<nat>)
    requires Limbs(ds) && Inside(ndhi, e, ds) && Last(ds) > 0 && Weight(ndhi, e, ds) > 0
    ensures !TiePushed(ndhi, e, ds)
  {
    DivUnique(Numeral(LIMB, ds), LIMB, Numeral(LIMB, ds[..|ds| - 1]), Last(ds));
    if LimbOf(ndhi, e) < |ds| - 1 {
      var n: int, w: int := Numeral(LIMB, ds), Weight(ndhi, e, ds);
      var v := WholeLimbs(Pow(10, e % 9), |ds| - 1 - LimbOf(ndhi, e));
      if n % (10 * w) == 5 * w { TieMultiple(n, n / (10 * w), v, w); }
    }
  }

  lemma {:induction false} WholeLimbs(u: nat, k: nat) returns (v: nat)
    requires k > 0
    ensures u * Pow(LIMB, k) == v * LIMB
  {
    NonNegative(u, Pow(LIMB, k - 1));
    v := u * Pow(LIMB, k - 1);
    Assoc(u, Pow(LIMB, k - 1), LIMB);
  }

  lemma {:induction false} TieMultiple(n: int, q: int, v: int, w: int)
    requires w == v * LIMB && n == q * (10 * w) + 5 * w
    ensures n % LIMB == 0
  {
    Assoc(q, 10 * v, LIMB);
    assert n == (q * (10 * v) + 5 * v) * LIMB;
  }

  lemma PlaceInFraction(ndhi: nat, ds: seq<nat>, prec: nat)
    requires ndhi < |ds| && prec < 9 * (|ds| - 1 - ndhi)
    ensures Inside(ndhi, 0 - prec - 1, ds) && LimbOf(ndhi, 0 - prec - 1) > 0
  {}

  /** Ten times the weight of the digit after the precision. */
  lemma {:induction false} TenWeights(ndhi: nat, ds: seq<nat>, prec: nat)
    requires ndhi < |ds| && prec < 9 * (|ds| - 1 - ndhi) && Inside(ndhi, 0 - prec - 1, ds)
    ensures 10 * Weight(ndhi, 0 - prec - 1, ds) == Pow(10, 9 * (|ds| - 1 - ndhi) - prec)
  {
    WeightIs(ndhi, 0 - prec - 1, ds);
  }

  /** Rounding at the precision, when the fraction is longer. */
  method RoundAt(nd: array<nat>, ndhi0: nat, ndlo: nat, prec: nat, ghost x: nat, ghost e: int, ghost ds0: seq<nat>)
      returns (ndhi: nat, ghost ds: seq<nat>)
    requires nd.Length == SLOTS && Ready(nd[..], ndhi0, ndlo, ds0) && Denotes(ndhi0, ds0, x, e) && ndhi0 < 62
    requires ndlo != 0 ==> |ds0| < SLOTS && Last(ds0) > 0
    modifies nd
    ensures Ready(nd[..], ndhi, ndlo, ds) && ndhi < 63 && Truncated(ndhi, ds, prec) == Nearest(x, e, prec)
  {
    ndhi, ds := ndhi0, ds0;
    LowestSlot(ndhi0, ndlo, ds0);
    RoundedWindow(ndhi0, ds0, x, e, prec);
    if prec < (SLOTS - ndlo) % SLOTS * 9 {
      ndhi, ds := RoundFraction(nd, ndhi0, ndlo, prec, ds0);
    }
  }

  method RoundFraction(nd: array<nat>, ndhi0: nat, ndlo: nat, prec: nat, ghost ds0: seq<nat>)
      returns (ndhi: nat, ghost ds: seq<nat>)
    requires nd.Length == SLOTS && Ready(nd[..], ndhi0, ndlo, ds0) && ndhi0 < 62 && |ds0| < SLOTS && Last(ds0) > 0
    requires prec < 9 * (|ds0| - 1 - ndhi0)
    modifies nd
    ensures Ready(nd[..], ndhi, ndlo, ds) && ndhi < 63
    ensures Truncated(ndhi, ds, prec) == HalfEven(Numeral(LIMB, ds0), Pow(10, 9 * (|ds0| - 1 - ndhi0) - prec))
  {
    ghost var e := 0 - prec - 1;
    PlaceInFraction(ndhi0, ds0, prec);
    TenWeights(ndhi0, ds0, prec);
    NoTiePushed(ndhi0, e, ds0);
    ndhi, ds := NdRound(nd, ndlo, ndhi0, 0 - prec - 1, ds0);
    SameLowest(ndhi0, ndhi, |ds0|, |ds|);
  }

  lemma SameLowest(hi: nat, hj: nat, n: nat, m: nat)
    requires 0 < n <= m <= SLOTS && hi <= hj < SLOTS && hj - hi == m - n
    ensures Limb(hi, n - 1) == Limb(hj, m - 1)
  {}

  lemma LowestSlot(ndhi: nat, ndlo: nat, ds: seq<nat>)
    requires ndhi < |ds| <= SLOTS && ndhi < SLOTS && ndlo == Limb(ndhi, |ds| - 1) && (ndlo != 0 ==> |ds| < SLOTS)
    ensures (SLOTS - ndlo) % SLOTS == |ds| - 1 - ndhi
  {}

  /** The ring expanded and rounded: `m * 2^e` to `prec` decimals. */
  method Expand(nd: array<nat>, hi: nat, lo: nat, prec: nat) returns (ndhi: nat, ndlo: nat, ghost ds: seq<nat>)
    requires nd.Length == SLOTS && hi < WORD32 && lo < WORD32 && Biased(hi) < 0x7ff
    requires Significand(hi, lo) > 0 ==> Exponent(hi) >= -540
    modifies nd
    ensures Ready(nd[..], ndhi, ndlo, ds) && ndhi < 63
    ensures Truncated(ndhi, ds, prec) == Nearest(Significand(hi, lo), Exponent(hi), prec)
  {
    var e;
    ndhi, e, ds := LoadSignificand(nd, hi, lo);
    ghost var x := Numeral(LIMB, ds);
    ndhi, ndlo, ds := Scale(nd, ndhi, e, ds);
    ndhi, ds := RoundAt(nd, ndhi, ndlo, prec, x, e, ds);
  }

  // ----- wfnum -----

  /** The conversion specifier: width, precision (-1 when absent) and the flags. */
  datatype Spec = Spec(width: nat, prec: int, left: bool, plus: bool, zero: bool, space: bool, alt: bool)

  function Precision(sf: Spec): nat
    requires sf.prec >= -1
  {
    if sf.prec == -1 then 6 else sf.prec
  }

  function Prefix(sf: Spec, neg: bool): seq<nat> {
    if neg then [MINUS] else if sf.plus then [43] else if sf.space then [32] else []
  }

  /** The digits, with the point when there are decimals or the alternative form asks for it. */
  function Body(sf: Spec, r: nat): seq<nat>
    requires sf.prec >= -1
  {
    Fixed(r, Precision(sf)) + if Precision(sf) == 0 && sf.alt then [POINT] else []
  }

  function Repeat(c: nat, n: int): (s: seq<nat>)
    ensures |s| == Max(0, n)
  {
    if n <= 0 then [] else Repeat(c, n - 1) + [c]
  }

  /** What C's printf makes of the sign and the digits. */
  function Padded(sf: Spec, prefix: seq<nat>, body: seq<nat>): seq<nat> {
    var gap := sf.width - |prefix| - |body|;
    if sf.left then prefix + body + Repeat(32, gap)
    else if sf.zero then prefix + Repeat(48, gap) + body
    else Repeat(32, gap) + prefix + body
  }

  /** The text is exactly as wide as asked for, or as long as it must be. */
  lemma PaddedLength(sf: Spec, prefix: seq<nat>, body: seq<nat>)
    ensures |Padded(sf, prefix, body)| == Max(sf.width, |prefix| + |body|)
  {}

  /** `while (width-- > len)`: a byte for each place missing, when asked for. */
  method Pad(h: array<nat>, p: nat, asked: bool, c: nat, width0: int, len: nat) returns (q: nat, width: int)
    requires p <= h.Length && (asked ==> p + Max(0, width0 - len) <= h.Length)
    modifies h
    ensures p <= q == p + (if asked then Max(0, width0 - len) else 0) && h[..q] == old(h[..p])
        + if asked then Repeat(c, width0 - len) else []
    ensures !asked ==> width == width0
  {
    q, width := p, width0;
    if asked {
      while width > len
        invariant width <= width0 && (width >= len || width == width0) && q == p + (width0 - width)
        invariant h[..q] == old(h[..p]) + Repeat(c, width0 - width)
        decreases width - len
      {
        width := width - 1;
        q := Put(h, q, c);
      }
      width := width - 1;
    }
  }

  /** The digits and the point. */
  method PutBody(h: array<nat>, p: nat, nd: array<nat>, ndhi: nat, ndlo: nat, sf: Spec, prec: nat, ghost ds: seq<nat>)
      returns (q: nat)
    requires nd != h && nd.Length == SLOTS && Ready(nd[..], ndhi, ndlo, ds) && sf.prec >= -1 && prec == Precision(sf)
    requires p + 21 + 9 * ndhi + prec <= h.Length
    modifies h
    ensures p <= q == p + Len(ds[0]) + 9 * ndhi + prec + (if prec > 0 || sf.alt then 1 else 0) <= h.Length
    ensures h[..q] == old(h[..p]) + Body(sf, Truncated(ndhi, ds, prec))
  {
    IntegerPart(ndhi, ds, prec);
    q := PutInteger(h, p, nd, ndhi, ds);
    if prec > 0 || sf.alt {
      q := Put(h, q, POINT);
      q := PutFraction(h, q, nd, ndhi, ndlo, prec, ds);
    }
  }

  method PutPrefix(h: array<nat>, p: nat, sf: Spec, neg: bool) returns (q: nat)
    requires p < h.Length
    modifies h
    ensures p <= q == p + |Prefix(sf, neg)| <= h.Length && h[..q] == old(h[..p]) + Prefix(sf, neg)
  {
    var prefix := if neg then MINUS else if sf.plus then 43 else if sf.space then 32 else 0;
    q := p;
    if prefix != 0 { q := Put(h, p, prefix); }
  }

  /** The length the code computes before the first byte is written. */
  method Length(nd: array<nat>, ndhi: nat, ndlo: nat, sf: Spec, prec: nat, neg: bool, ghost ds: seq<nat>)
      returns (len: nat)
    requires nd.Length == SLOTS && Ready(nd[..], ndhi, ndlo, ds) && ndhi < 63 && sf.prec >= -1 && prec == Precision(sf)
    ensures len == |Prefix(sf, neg)| + Len(ds[0]) + 9 * ndhi + prec + if prec > 0 || sf.alt then 1 else 0
    ensures len <= 580 + prec
  {
    assert nd[ndhi] == ds[0] by { assert Limb(ndhi, 0) == ndhi; }
    WintLength(ds[0]);
    var prefix := if neg then MINUS else if sf.plus then 43 else if sf.space then 32 else 0;
    len := ndhi * 9 + NdigitsDec(nd[ndhi]) + prec + (if prefix != 0 then 1 else 0)
        + (if prec > 0 || sf.alt then 1 else 0);
  }

  lemma InOrder(before: seq<nat>, sf: Spec, prefix: seq<nat>, body: seq<nat>, out: seq<nat>)
    requires var gap := sf.width - |prefix| - |body|;
             out == before + (if !sf.left && !sf.zero then Repeat(32, gap) else []) + prefix
                 + (if !sf.left && sf.zero then Repeat(48, gap) else []) + body
                 + (if sf.left then Repeat(32, gap) else [])
    ensures out == before + Padded(sf, prefix, body)
  {}

  /** What goes before the digits: blanks, the sign, zeros. */
  method EmitFront(h: array<nat>, p0: nat, sf: Spec, neg: bool, len: nat) returns (p: nat, width: int)
    requires p0 + sf.width + 1 <= h.Length
    modifies h
    ensures p0 <= p <= h.Length && (sf.left ==> width == sf.width)
    ensures p == p0 + |Prefix(sf, neg)| + if sf.left then 0 else Max(0, sf.width - len)
    ensures h[..p] == old(h[..p0]) + (if !sf.left && !sf.zero then Repeat(32, sf.width - len) else [])
        + Prefix(sf, neg) + (if !sf.left && sf.zero then Repeat(48, sf.width - len) else [])
  {
    width := sf.width;
    p, width := Pad(h, p0, !sf.left && !sf.zero, 32, width, len);
    p := PutPrefix(h, p, sf, neg);
    p, width := Pad(h, p, !sf.left && sf.zero, 48, width, len);
  }

  /** The padding, the sign and the digits in order. */
  method Emit(h: array<nat>, p0: nat, nd: array<nat>, ndhi: nat, ndlo: nat, sf: Spec, prec: nat, neg: bool,
      ghost ds: seq<nat>) returns (p: nat)
    requires nd != h && nd.Length == SLOTS && Ready(nd[..], ndhi, ndlo, ds) && ndhi < 63 && sf.prec >= -1
    requires prec == Precision(sf)
    requires p0 + sf.width + prec + 600 <= h.Length
    modifies h
    ensures p <= h.Length && h[..p] == old(h[..p0]) + Padded(sf, Prefix(sf, neg), Body(sf, Truncated(ndhi, ds, prec)))
  {
    var len := Length(nd, ndhi, ndlo, sf, prec, neg, ds);
    ghost var body := Body(sf, Truncated(ndhi, ds, prec));
    var width: int;
    p, width := EmitFront(h, p0, sf, neg, len);
    ghost var start, q := h[..p], p;
    p := PutBody(h, p, nd, ndhi, ndlo, sf, prec, ds);
    BodyLength(start, body, h[..p], q, p);
    p, width := Pad(h, p, sf.left, 32, width, len);
    InOrder(old(h[..p0]), sf, Prefix(sf, neg), body, h[..p]);
  }

  lemma BodyLength(start: seq<nat>, body: seq<nat>, out: seq<nat>, q: nat, p: nat)
    requires |start| == q && |out| == p && out == start + body
    ensures |body| == p - q
  {}

  /** `lj_strfmt_wfnum` in its `%f` path, for the finite double with words `hi` and `lo`: the sign and the nearest
      number of `prec` decimals, padded to the width. */
  method WfnumFixed(h: array<nat>, p0: nat, sf: Spec, hi: nat, lo: nat) returns (p: nat)
    requires sf.prec >= -1 && hi < WORD32 && lo < WORD32 && Biased(hi) < 0x7ff
    requires Significand(hi, lo) > 0 ==> Exponent(hi) >= -540
    requires p0 + sf.width + Precision(sf) + 600 <= h.Length
    modifies h
    ensures p <= h.Length
    ensures h[..p] == old(h[..p0])
        + Padded(sf, Prefix(sf, Negative(hi)), Body(sf, Nearest(Significand(hi, lo), Exponent(hi), Precision(sf))))
  {
    var prec := if sf.prec < 0 then sf.prec + 7 else sf.prec;
    var nd := new nat[SLOTS];
    var ndhi, ndlo;
    ghost var ds;
    ndhi, ndlo, ds := Expand(nd, hi, lo, prec);
    p := Emit(h, p0, nd, ndhi, ndlo, sf, prec, hi >= SIGN32, ds);
  }

  /** A whole number prints exactly, with zeros for its decimals. */
  lemma {:induction false} WholePrints(x: nat, e: nat, prec: nat)
    ensures x * Pow(2, e) >= 0
    ensures Fixed(Nearest(x, e, prec), prec) == Numerals(x * Pow(2, e)) + if prec > 0 then [POINT] + Zeros(prec) else []
  {
    NonNegative(x, Pow(2, e));
    var n, t := x * Pow(2, e), Pow(10, prec);
    assert Pow(2, 0) == 1;
    HalfEvenExact(n * t, 1);
    Multiple(n, t);
    DigitsConcat(n, 0, 0, prec);
    ZeroDigits(prec);
  }
}
