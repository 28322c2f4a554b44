/** strfmt.js: what `%f` writes for a double, said without the code's own notions: which bytes stand where, and the
    number their digits denote. */
module StrFmtDouble {
  import opened Exact
  import opened Positional
  import opened Ieee
  import opened Fpu
  import opened DecimalText
  import opened StrFmtInt
  import opened StrFmtFixed

  // ----- the words of a double -----

  /** Sign, exponent and fraction fields as section 3.4 of IEEE 754-2019 lays them out: with a biased exponent of zero
      the fraction counts smallest subnormals, otherwise a leading one stands before it. */
  lemma {:induction false} StandardFields(f: Format, w: nat, neg: bool, ex: nat, frac: nat, units: nat)
    requires frac < Pow(2, f.bits - 1)
    requires units == if ex == 0 then frac else (Pow(2, f.bits - 1) + frac) * Pow(2, ex - 1)
    ensures Bits(f, w, neg, units)
         == (if neg then 1 else 0) * Pow(2, w) * Pow(2, f.bits - 1) + ex * Pow(2, f.bits - 1) + frac
  {
    var p := Pow(2, f.bits - 1);
    assert Pow(2, f.bits) == 2 * p;
    if ex == 0 {
      assert 0 * p == 0;
    } else {
      UlpOf(f, p + frac, ex - 1);
      MulMono(p + frac, 1, Pow(2, ex - 1));
      Multiple(p + frac, Pow(2, ex - 1));
      DivUnique(p + frac, p, 1, frac);
    }
  }

  lemma {:induction false} FieldPowers(s: nat, w: nat)
    requires s == 52 && w == 11
    ensures Pow(2, s) == 0x10_0000_0000_0000 && Pow(2, w) == 0x800
  {
    assert Pow(2, 1) == 2 && Pow(2, 2) == 4 && Pow(2, 3) == 8;
    PowAdd(2, 3, 3);
    PowAdd(2, 6, 6);
    PowAdd(2, 6, 3);
    PowAdd(2, 9, 2);
    PowAdd(2, 12, 12);
    PowAdd(2, 24, 24);
    PowAdd(2, 48, 3);
    PowAdd(2, 51, 1);
  }

  /** What the code reads off the two words of a pattern are the fields of the pattern. */
  lemma {:induction false} WordFields(hi: nat, lo: nat, b: nat)
    requires hi < WORD32 && lo < WORD32 && b == hi * WORD32 + lo
    ensures b / 0x10_0000_0000_0000 == hi / 0x10_0000
    ensures b % 0x10_0000_0000_0000 == hi % 0x10_0000 * WORD32 + lo
    ensures hi / 0x10_0000 / 0x800 != 0 <==> Negative(hi)
  {
    var q, r := hi / 0x10_0000, hi % 0x10_0000;
    DivUnique(b, 0x10_0000_0000_0000, q, r * WORD32 + lo);
  }

  /** The exponent field of a finite value leaves out the one of infinities and NaNs. */
  lemma {:induction false} FieldBelow(f: Format, w: nat, neg: bool, u: nat)
    requires IsValue(f, u) && f.top - f.bits + 1 < Pow(2, w)
    ensures Bits(f, w, neg, u) / Pow(2, f.bits - 1) % Pow(2, w) <= f.top - f.bits + 1
  {
    var p, k := Pow(2, f.bits - 1), Ulp(f, u);
    var s := if neg then 1 else 0;
    UlpBelowTop(f, u);
    if u < p {
      SplitBits(s, Pow(2, w), p, 0, u);
    } else {
      SplitBits(s, Pow(2, w), p, k + 1, u / Pow(2, k) % p);
    }
  }

  /** So the words are taken apart as the pattern is. */
  lemma {:induction false} SameParts(f: Format, hi: nat, lo: nat, b: nat)
    requires f == BINARY64 && hi < WORD32 && lo < WORD32 && b == hi * WORD32 + lo
    ensures Pow(2, f.bits - 1) > 0 && Pow(2, f.field) > 0
    ensures Decompose(f, f.field, f.low, b) == (Negative(hi), StrFmtFixed.Significand(hi, lo), Exponent(hi))
    ensures Biased(hi) == b / Pow(2, f.bits - 1) % Pow(2, f.field)
  {
    FieldPowers(f.bits - 1, f.field);
    WordFields(hi, lo, b);
  }

  /** The two words of a finite double: its sign, and a significand and an exponent that are its magnitude. */
  lemma {:induction false} WordsOfDouble(f: Format, neg: bool, units: nat, hi: nat, lo: nat)
    requires f == BINARY64 && IsValue(f, units)
    requires hi < WORD32 && lo < WORD32 && hi * WORD32 + lo == Bits(f, f.field, neg, units)
    ensures Biased(hi) < 0x7ff && Negative(hi) == neg && Exponent(hi) + f.low >= 0
    ensures StrFmtFixed.Significand(hi, lo) * Pow(2, Exponent(hi) + f.low) == units
  {
    var b := hi * WORD32 + lo;
    SameParts(f, hi, lo, b);
    FieldPowers(f.bits - 1, f.field);
    DecomposeExact(f, f.field, f.low, neg, units);
    FieldBelow(f, f.field, neg, units);
  }

  // ----- the text -----

  /** A run of decimal digits, and the number they denote. */
  ghost predicate Denote(s: seq<nat>, n: nat) {
    (forall k | 0 <= k < |s| :: 48 <= s[k] <= 57) && Numeral(10, Figures(s)) == n
  }

  function Figures(s: seq<nat>): (ds: seq<nat>)
    requires forall k | 0 <= k < |s| :: 48 <= s[k] <= 57
    ensures |ds| == |s|
  {
    seq(|s|, k requires 0 <= k < |s| => s[k] - 48)
  }

  predicate All(s: seq<nat>, c: nat) { forall k | 0 <= k < |s| :: s[k] == c }

  /** The pieces of a printed number. */
  datatype Pieces = Pieces(blanks: seq<nat>, sign: seq<nat>, zeros: seq<nat>, whole: seq<nat>, point: seq<nat>,
      decimals: seq<nat>, rest: seq<nat>)

  /** `out` is `r` without its last `prec` digits, a point, and those digits, the way C's printf lays out `%f`: a '-'
      for a negative number, else '+' or a blank when asked for; no leading zero but the one before the point; blanks
      before it, zeros behind the sign or blanks behind it up to the width, and never more than that. */
  ghost predicate LaidOut(out: seq<nat>, l: Pieces, sf: Spec, neg: bool, r: nat, prec: nat) {
    && out == l.blanks + l.sign + l.zeros + l.whole + l.point + l.decimals + l.rest
    && All(l.blanks, 32) && All(l.zeros, 48) && All(l.rest, 32)
    && l.sign == (if neg then [45] else if sf.plus then [43] else if sf.space then [32] else [])
    && l.point == (if prec > 0 || sf.alt then [46] else [])
    && |l.decimals| == prec && l.whole != [] && (l.whole[0] == 48 ==> |l.whole| == 1)
    && Denote(l.whole + l.decimals, r)
    && (sf.left ==> l.blanks == [] && l.zeros == []) && (!sf.left ==> l.rest == [])
    && (sf.zero ==> l.blanks == []) && (!sf.zero ==> l.zeros == [])
    && |out| == Max(sf.width, |l.sign + l.whole + l.point + l.decimals|)
  }

  lemma {:induction false} DigitsDenote(n: nat, w: nat)
    requires n < Pow(10, w)
    ensures Denote(Digits(n, w), n)
  {
    DigitsBytes(n, w);
    if w == 0 {
      assert Figures([]) == [];
    } else {
      QuotientBound(n, 10, Pow(10, w - 1));
      DigitsDenote(n / 10, w - 1);
      var s, t := Digits(n, w), Digits(n / 10, w - 1);
      assert s == t + [48 + n % 10] && Figures(s) == Figures(t) + [n % 10];
      NumeralAppend(10, Figures(t), n % 10);
    }
  }

  lemma {:induction false} LastDigits(n: nat, w: nat, c: nat)
    ensures Digits(n, w + c) == Digits(n / Pow(10, c), w) + Digits(n, c)
  {
    if c == 0 {
      assert n / Pow(10, 0) == n;
    } else {
      DivDiv(n, 10, Pow(10, c - 1));
      LastDigits(n / 10, w, c - 1);
    }
  }

  lemma {:induction false} FirstDigit(n: nat)
    ensures Numerals(n)[0] == 48 ==> |Numerals(n)| == 1
  {
    if n >= 10 {
      FirstDigit(n / 10);
      assert Numerals(n) == Numerals(n / 10) + [48 + n % 10];
    }
  }

  /** The digits of a number, cut before the last `prec` of them. */
  lemma {:induction false} FixedDenotes(r: nat, prec: nat)
    ensures var whole := Numerals(r / Pow(10, prec));
            Denote(whole + Digits(r, prec), r) && whole != [] && (whole[0] == 48 ==> |whole| == 1)
  {
    var a := r / Pow(10, prec);
    FirstDigit(a);
    LenBounds(a);
    LastDigits(r, Len(a), prec);
    PowAdd(10, Len(a), prec);
    QuotientBound(r, Pow(10, prec), Pow(10, Len(a)));
    DigitsDenote(r, Len(a) + prec);
  }

  lemma {:induction false} RepeatIsAll(c: nat, n: int)
    ensures All(Repeat(c, n), c)
  {
    if n > 0 { RepeatIsAll(c, n - 1); }
  }

  /** Where the padding goes. */
  lemma {:induction false} PaddedOrder(sf: Spec, sign: seq<nat>, body: seq<nat>, l: Pieces)
    requires var gap := sf.width - |sign| - |body|;
             && l.blanks == (if !sf.left && !sf.zero then Repeat(32, gap) else [])
             && l.zeros == (if !sf.left && sf.zero then Repeat(48, gap) else [])
             && l.rest == (if sf.left then Repeat(32, gap) else [])
    ensures Padded(sf, sign, body) == l.blanks + sign + l.zeros + body + l.rest
    ensures All(l.blanks, 32) && All(l.zeros, 48) && All(l.rest, 32)
  {
    var gap := sf.width - |sign| - |body|;
    RepeatIsAll(32, gap);
    RepeatIsAll(48, gap);
  }

  /** The printed text in pieces. */
  lemma {:induction false} PaddedLaidOut(sf: Spec, neg: bool, r: nat) returns (l: Pieces)
    requires sf.prec >= -1
    ensures LaidOut(Padded(sf, Prefix(sf, neg), Body(sf, r)), l, sf, neg, r, Precision(sf))
  {
    var prec, sign := Precision(sf), Prefix(sf, neg);
    var whole, decimals := Numerals(r / Pow(10, prec)), Digits(r, prec);
    var point := if prec > 0 || sf.alt then [46] else [];
    var gap := sf.width - |sign| - |whole + point + decimals|;
    l := Pieces(if !sf.left && !sf.zero then Repeat(32, gap) else [], sign,
      if !sf.left && sf.zero then Repeat(48, gap) else [], whole, point, decimals,
      if sf.left then Repeat(32, gap) else []);
    BodyPieces(sf, r, whole, point, decimals);
    PaddedOrder(sf, sign, whole + point + decimals, l);
    PaddedLength(sf, sign, whole + point + decimals);
    InPieces(l, whole + point + decimals);
    FixedDenotes(r, prec);
  }

  lemma {:induction false} BodyPieces(sf: Spec, r: nat, whole: seq<nat>, point: seq<nat>, decimals: seq<nat>)
    requires sf.prec >= -1
    requires whole == Numerals(r / Pow(10, Precision(sf))) && decimals == Digits(r, Precision(sf))
    requires point == if Precision(sf) > 0 || sf.alt then [46] else []
    ensures Body(sf, r) == whole + point + decimals
  {}

  lemma InPieces(l: Pieces, body: seq<nat>)
    requires body == l.whole + l.point + l.decimals
    ensures l.blanks + l.sign + l.zeros + body + l.rest
         == l.blanks + l.sign + l.zeros + l.whole + l.point + l.decimals + l.rest
    ensures |l.sign + l.whole + l.point + l.decimals| == |l.sign| + |body|
  {}

  /** The number printed is the magnitude with `prec` decimals, rounded half to even. */
  lemma {:induction false} NearestUnits(x: nat, e: int, low: nat, units: nat, prec: nat)
    requires e + low >= 0 && x * Pow(2, e + low) == units
    ensures units * Pow(10, prec) >= 0
    ensures StrFmtFixed.Nearest(x, e, prec) == HalfEven(units * Pow(10, prec), Pow(2, low))
  {
    NonNegative(units, Pow(10, prec));
    var c, d := Max(0, e), Max(0, 0 - e);
    PowAdd(2, c, low);
    PowAdd(2, e + low, d);
    assert c + low == e + low + d;
    CrossUnits(x, Pow(10, prec), Pow(2, c), Pow(2, low), Pow(2, e + low), Pow(2, d));
    EqualFractions(x * Pow(2, c) * Pow(10, prec), Pow(2, d), units * Pow(10, prec), Pow(2, low));
  }

  lemma CrossUnits(x: nat, t: nat, c: nat, l: nat, g: nat, d: nat)
    requires c * l == g * d
    ensures x * c * t * l == x * g * t * d
  {
    assert x * c * t * l == x * t * (c * l);
    assert x * g * t * d == x * t * (g * d);
  }

  /** The two words of `neg` and `units`, within the range of `%f`. */
  ghost predicate WordsOf(f: Format, neg: bool, units: nat, hi: nat, lo: nat) {
    && f == BINARY64 && IsValue(f, units) && (units == 0 || units >= Pow(2, f.bits + 533))
    && hi < WORD32 && lo < WORD32 && hi * WORD32 + lo == Bits(f, f.field, neg, units)
  }

  /** `%f` of a finite double of sign `neg` and `units` smallest subnormals, zero or at least 2^-488 in magnitude. */
  method WfnumDouble(f: Format, h: array<nat>, p0: nat, sf: Spec, hi: nat, lo: nat, ghost neg: bool, ghost units: nat)
      returns (p: nat, ghost l: Pieces)
    requires WordsOf(f, neg, units, hi, lo)
    requires sf.prec >= -1 && p0 + sf.width + Precision(sf) + 600 <= h.Length
    modifies h
    ensures p0 <= p <= h.Length && h[..p0] == old(h[..p0])
    ensures var prec := if sf.prec == -1 then 6 else sf.prec;
            units * Pow(10, prec) >= 0
            && LaidOut(h[p0..p], l, sf, neg, HalfEven(units * Pow(10, prec), Pow(2, f.low)), prec)
  {
    ghost var text;
    text, l := DoubleText(f, neg, units, hi, lo, sf);
    p := WfnumFixed(h, p0, sf, hi, lo);
    ghost var all := h[..p];
    Behind(all, old(h[..p0]), text);
    assert h[p0..p] == all[p0..] == text && h[..p0] == all[..p0];
  }

  lemma Behind(all: seq<nat>, before: seq<nat>, text: seq<nat>)
    requires all == before + text
    ensures |before| <= |all| && all[..|before|] == before && all[|before|..] == text
  {}

  lemma {:induction false} DoubleText(f: Format, neg: bool, units: nat, hi: nat, lo: nat, sf: Spec)
      returns (text: seq<nat>, l: Pieces)
    requires WordsOf(f, neg, units, hi, lo) && sf.prec >= -1
    ensures Biased(hi) < 0x7ff && (StrFmtFixed.Significand(hi, lo) > 0 ==> Exponent(hi) >= -540)
    ensures text == Padded(sf, Prefix(sf, Negative(hi)),
      Body(sf, StrFmtFixed.Nearest(StrFmtFixed.Significand(hi, lo), Exponent(hi), Precision(sf))))
    ensures units * Pow(10, Precision(sf)) >= 0
    ensures LaidOut(text, l, sf, neg, HalfEven(units * Pow(10, Precision(sf)), Pow(2, f.low)), Precision(sf))
  {
    WordsOfDouble(f, neg, units, hi, lo);
    LargeEnough(f, units, hi, lo);
    var x, e := StrFmtFixed.Significand(hi, lo), Exponent(hi);
    NearestUnits(x, e, f.low, units, Precision(sf));
    var r := StrFmtFixed.Nearest(x, e, Precision(sf));
    l := PaddedLaidOut(sf, neg, r);
    text := Padded(sf, Prefix(sf, neg), Body(sf, r));
  }

  lemma {:induction false} LargeEnough(f: Format, units: nat, hi: nat, lo: nat)
    requires f == BINARY64 && (units == 0 || units >= Pow(2, f.bits + 533)) && Exponent(hi) + f.low >= 0
    requires hi < WORD32 && lo < WORD32 && StrFmtFixed.Significand(hi, lo) * Pow(2, Exponent(hi) + f.low) == units
    ensures StrFmtFixed.Significand(hi, lo) > 0 ==> Exponent(hi) >= -540
  {
    var x, k := StrFmtFixed.Significand(hi, lo), Exponent(hi) + f.low;
    if x > 0 && Exponent(hi) < -540 {
      FieldPowers(52, 11);
      assert x < 2 * 0x10_0000_0000_0000;
      MulStrict(Pow(2, k), x, 2 * Pow(2, f.bits - 1));
      PowAdd(2, f.bits, k);
      PowMono(2, f.bits + k, f.bits + 533);
    }
  }
}
