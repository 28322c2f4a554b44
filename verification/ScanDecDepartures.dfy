/** strscan.js, `strscan_dec`: the two families of texts it does not read as the nearest double. */
module ScanDecDepartures {
  import opened Exact
  import opened Ieee
  import opened Midpoints
  import opened Fpu
  import opened ScanDouble
  import opened ScanText
  import opened DecRing
  import opened DecDigits
  import opened DecimalText
  import opened ScanDec

  // ----- 800 digits on an odd power of ten -----

  /** With 800 digits on an odd power of ten the byte after the digits is taken for one more of them. */
  lemma {:induction false} EightHundredOdd(h: seq<nat>, p: nat, ex10: int)
    requires ex10 % 2 == 1
    ensures Taken(h, p, ex10, MAXDIG) == 10 * Decimal(h, p, MAXDIG) + if DigitByte(h, p, MAXDIG) != ZERO then 1 else 0
  {
    assert Pow(10, 0) == 1 && Pow(10, 1) == 10;
    if DigitByte(h, p, MAXDIG) != ZERO { assert Excess(h, p, MAXDIG, 1); }
  }

  /** `n * 10^e` in units, over `TenDen(e)`. */
  function TenNum(f: Format, n: nat, e: int): nat {
    n * Pow(10, Max(0, e)) * Pow(2, f.low)
  }

  function TenDen(e: int): (d: nat)
    ensures d > 0
  {
    Pow(10, Max(0, 0 - e))
  }

  /** A point halfway between two neighbouring doubles lies between the number the digits denote and the one taken. */
  ghost predicate MidpointBetween(f: Format, h: seq<nat>, p: nat, ex10: int, dig: nat) {
    var e := PairPower(ex10, dig);
    Parted(f, TenNum(f, Taken(h, p, ex10, dig), e), TenDen(e), TenNum(f, Decimal(h, p, dig), ex10), TenDen(ex10))
  }

  /** Whatever the number of digits, a text that does not fill the ring is read as its nearest double if and only if no
      such point comes between. */
  method ReadsDigits(f: Format, xi: array<Octet>, h: seq<nat>, p: nat, ex10: int, neg: bool, dig: nat)
      returns (r: Double, full: bool)
    requires xi.Length == RING && Decimals(f) && DigitRun(h, p, dig) && dig > 0
    modifies xi
    ensures !full ==> (r == RoundDecimal(f, neg, Decimal(h, p, dig), ex10) <==> !MidpointBetween(f, h, p, ex10, dig))
  {
    r, full := StrscanDec(f, xi, h, p, ex10, neg, dig);
    TakenApart(f, h, p, ex10, dig, neg);
  }

  lemma {:induction false} TakenApart(f: Format, h: seq<nat>, p: nat, ex10: int, dig: nat, neg: bool)
    ensures
      RoundDecimal(f, neg, Taken(h, p, ex10, dig), PairPower(ex10, dig))
          == RoundDecimal(f, neg, Decimal(h, p, dig), ex10)
      <==> !MidpointBetween(f, h, p, ex10, dig)
  {
    var e, n, m := PairPower(ex10, dig), Taken(h, p, ex10, dig), Decimal(h, p, dig);
    SameUnlessParted(f, neg, TenNum(f, n, e), TenDen(e), TenNum(f, m, ex10), TenDen(ex10));
  }

  lemma {:induction false} TieExact(f: Format, q: nat)
    requires q == Pow(2, f.bits - 1)
    ensures BitLen(4 * q + 2) == f.bits + 2 && Pow(2, f.bits + 2) == 8 * q && q >= 2
    ensures RoundUnits(f, (4 * q + 2) * Pow(2, f.low), 1) == q * Pow(2, 2 + f.low)
  {
    var n := 4 * q + 2;
    assert Pow(2, f.bits) == 2 * q && Pow(2, f.bits + 1) == 4 * q && Pow(2, f.bits + 2) == 8 * q;
    EvenPower(f.bits - 1);
    BitLenUnique(n, f.bits + 2);
    DivUnique(n, 4, q, 2);
    assert Pow(2, 0) == 1 && Pow(2, 1) == 2 && Pow(2, 2) == 4;
    ShiftRoundsBy(f, n, 0, 2);
  }

  /** One more bit that far down breaks a tie: `2^(bits+1) + 2` is halfway between two doubles. */
  lemma {:induction false} TieBroken(f: Format, w: nat)
    requires w > 0
    ensures var n := 4 * Pow(2, f.bits - 1) + 2;
        RoundUnits(f, n * Pow(2, f.low), 1) < RoundUnits(f, (n * w + 1) * Pow(2, f.low), w)
  {
    var q := Pow(2, f.bits - 1);
    TieExact(f, q);
    FractionTie(4 * q + 2, w, q);
    TieGrid(f, 4 * q + 2, w, q);
    MulStrict(Pow(2, 2 + f.low), q, q + 1);
  }

  lemma FractionTie(n: nat, w: nat, q: nat)
    requires w > 0 && n == 4 * q + 2
    ensures w * 4 > 0 && HalfEven(n * w + 1, w * 4) == q + 1
  {
    Assoc(q, w, 4);
    assert n * w + 1 == q * (w * 4) + (2 * w + 1);
    if w == 1 {
      assert n * w + 1 == (q * 4) + 3;
      DivUnique(n * w + 1, w * 4, q, 3);
    } else {
      DivUnique(n * w + 1, w * 4, q, 2 * w + 1);
    }
  }

  lemma {:induction false} TieGrid(f: Format, n: nat, w: nat, q: nat)
    requires w > 0 && n == 4 * q + 2 && q >= 2 && BitLen(n) == f.bits + 2 && w * 4 > 0
    requires HalfEven(n * w + 1, w * 4) == q + 1
    requires Pow(2, f.bits + 2) == 8 * q
    ensures RoundUnits(f, (n * w + 1) * Pow(2, f.low), w) == (q + 1) * Pow(2, 2 + f.low)
  {
    assert Pow(2, 0) == 1 && Pow(2, 1) == 2 && Pow(2, 2) == 4;
    QuotientBound(n * w + 1, w, n);
    QuotientBound(n * w + 1, w, n + 2);
    Distrib(n, 2, w);
    BitLenUnique((n * w + 1) / w, f.bits + 2);
    assert w * 1 == w;
    FractionRounds(f, n * w + 1, w, 0, 2);
  }

  lemma {:induction false} ScaledBack(f: Format, neg: bool, n: nat, k: nat)
    ensures n * Pow(10, k) >= 0
    ensures RoundDecimal(f, neg, n * Pow(10, k), 0 - k) == Round(f, neg, n * Pow(2, f.low), 1)
  {
    NonNegative(n, Pow(10, k));
    assert Pow(10, 0) == 1;
    MulSwapRight(n, Pow(10, k), Pow(2, f.low));
    RoundScale(f, n * Pow(2, f.low), 1, Pow(10, k));
  }

  lemma {:induction false} JustAbove(f: Format, neg: bool, x: nat, k: nat)
    ensures RoundDecimal(f, neg, x, 0 - k) == Round(f, neg, x * Pow(2, f.low), Pow(10, k))
  {
    assert Pow(10, 0) == 1;
  }

  /** Halfway between two doubles, a bit below the digits makes the upper one the nearest. */
  lemma {:induction false} HalfwayRounds(f: Format, neg: bool, n: nat, k: nat)
    requires Roomy(f) && n == 4 * Pow(2, f.bits - 1) + 2
    ensures n * Pow(10, k + 1) >= 0 && n * Pow(10, k) >= 0
    ensures RoundDecimal(f, neg, n * Pow(10, k + 1) + 1, 0 - (k + 1)) != RoundDecimal(f, neg, n * Pow(10, k), 0 - k)
  {
    NonNegative(n, Pow(10, k + 1));
    ScaledBack(f, neg, n, k);
    JustAbove(f, neg, n * Pow(10, k + 1) + 1, k + 1);
    TieBroken(f, Pow(10, k + 1));
    TieFinite(f, Pow(2, f.bits - 1));
  }

  /** 800 digits of 2^(bits+1) + 2 and zeros, times an odd power of ten that drops the zeros again, followed by any byte
      but '0': the text is halfway between two doubles, and the byte decides. For binary64 there are 783 zeros. */
  lemma {:induction false} HalfwayMisread(f: Format, h: seq<nat>, p: nat, k: nat, neg: bool)
    requires Roomy(f) && k % 2 == 1 && DigitByte(h, p, MAXDIG) != ZERO
    requires Decimal(h, p, MAXDIG) == (4 * Pow(2, f.bits - 1) + 2) * Pow(10, k)
    ensures RoundDecimal(f, neg, Taken(h, p, 0 - k, MAXDIG), PairPower(0 - k, MAXDIG))
         != RoundDecimal(f, neg, Decimal(h, p, MAXDIG), 0 - k)
  {
    var e: int := 0 - k;
    var n := 4 * Pow(2, f.bits - 1) + 2;
    EightHundredOdd(h, p, e);
    TenMore(n, k);
    HalfwayRounds(f, neg, n, k);
    assert PairPower(e, MAXDIG) == 0 - (k + 1);
  }

  lemma TenMore(n: nat, k: nat)
    ensures 10 * (n * Pow(10, k)) == n * Pow(10, k + 1)
  {
    Assoc(n, 10, Pow(10, k));
    Assoc(10, n, Pow(10, k));
  }

  lemma {:induction false} TieFinite(f: Format, q: nat)
    requires Roomy(f) && q == Pow(2, f.bits - 1)
    ensures RoundUnits(f, (4 * q + 2) * Pow(2, f.low), 1) < Pow(2, f.top)
  {
    TieExact(f, q);
    PowAdd(2, f.bits - 1, 2 + f.low);
    PowStrict(f.bits + 1 + f.low, f.top);
  }

  // ----- the emptied ring -----

  /** The format reaches far beyond one: 2^984 is not its largest magnitude. */
  predicate Wide(f: Format) { f.low + 984 < f.top }

  lemma {:induction false} PowerOfTwoKept(f: Format, neg: bool, m: nat)
    requires m < f.top
    ensures Round(f, neg, Pow(2, m), 1) == Finite(neg, Pow(2, m)) && RoundUnits(f, Pow(2, m), 1) == Pow(2, m)
  {
    BitLenUnique(Pow(2, m), m + 1);
    FitsPower(f, m);
    RoundIdentity(f, Pow(2, m), 1);
    PowStrict(m, f.top);
  }

  lemma {:induction false} FitsPower(f: Format, m: nat)
    requires BitLen(Pow(2, m)) == m + 1
    ensures Fits(f, Pow(2, m))
  {
    var k := Ulp(f, Pow(2, m));
    PowAdd(2, m - k, k);
    Multiple(Pow(2, m - k), Pow(2, k));
  }

  /** A number that is far above `2^e` does not round to `2^e`. */
  lemma {:induction false} NotRoundedDown(f: Format, neg: bool, x: nat, e: nat)
    requires e + f.low + 1 < f.top && x >= Pow(2, e + 1) * Pow(2, f.low)
    ensures RoundExact(f, neg, 1, e) != Round(f, neg, x, 1)
  {
    var m := e + f.low;
    PowAdd(2, e + 1, f.low);
    PowerOfTwoKept(f, neg, m);
    PowerOfTwoKept(f, neg, m + 1);
    RoundMonotone(f, Pow(2, m + 1), x, 1);
    assert 1 * Pow(2, m) == Pow(2, m) && Pow(2, 0) == 1;
  }

  /** A number the divisions empty is `c * 64^k` with `k` at most 162. */
  lemma {:induction false} DriedBounds(n: nat, t: int, k: nat, h: nat)
    requires Empties(n) && k == SixtyFours(n) && 9 <= t && h == 155 - t && n < Pow(100, h)
    ensures Pow(64, k) <= n && k <= 162
  {
    var c: nat, j: nat :| SmallTimesPower(n, c, j);
    CountsSixtyFours(n, c, j);
    MulMono(Pow(64, j), 1, c);
    TenForNine(k, h);
  }

  /** Nine pairs of zeros are more than sixty bits. */
  lemma {:induction false} DriedAbove(n: nat, t: nat, k: nat, e: nat)
    requires Pow(64, k) <= n && t >= 9 && e == 6 * k + 12
    ensures n * Pow(100, t) >= Pow(2, e)
  {
    NineDigits(9);
    PowMono(100, 9, t);
    SixBits(k);
    PowAdd(2, 6 * k, 12);
    assert Pow(2, 1) == 2 && Pow(2, 2) == 4 && Pow(2, 3) == 8;
    PowAdd(2, 3, 3);
    PowAdd(2, 6, 6);
    PowAdd(100, 8, 1);
    assert Pow(2, 12) == 4096 <= Pow(100, t);
    MulMono(Pow(2, 12), Pow(64, k), n);
    MulMono(n, Pow(2, 12), Pow(100, t));
  }

  /** What is stored for an emptied ring is never the nearest double. */
  lemma {:induction false} DriedIsWrong(f: Format, neg: bool, n: nat, t: nat)
    requires Wide(f) && Empties(n) && 9 <= t <= 155 && n < Pow(100, 155 - t)
    ensures DriedDouble(f, neg, n, t) != Round(f, neg, DecNum(f, n, t), DecDen(t))
  {
    var k := SixtyFours(n);
    var e := 6 * k + if t > 9 then 11 else 5;
    DriedBounds(n, t, k, 155 - t);
    DriedFar(n, t, k, e, Pow(2, f.low));
    NotRoundedDown(f, neg, n * Pow(100, t) * Pow(2, f.low), e);
    WholeDen(t);
  }

  lemma {:induction false} DriedFar(n: nat, t: nat, k: nat, e: nat, u: nat)
    requires Pow(64, k) <= n && t >= 9 && e + 1 <= 6 * k + 12
    ensures n * Pow(100, t) * u >= Pow(2, e + 1) * u
  {
    DriedAbove(n, t, k, 6 * k + 12);
    PowMono(2, e + 1, 6 * k + 12);
    MulMono(u, Pow(2, e + 1), n * Pow(100, t));
  }

  lemma {:induction false} WholeDen(t: nat)
    ensures DecDen(t) == 1
  {
    assert Pow(100, 0) == 1;
  }

  /** Up to 320 digits on a blank ring, the text is misread exactly when the ring runs dry. */
  lemma {:induction false} MisreadWhenDry(f: Format, h: seq<nat>, p: nat, ex10: int, dig: nat, neg: bool)
    requires Wide(f) && 0 < dig <= 320 && RunsDry(h, p, ex10, dig)
    ensures DryDouble(f, neg, h, p, ex10, dig) != RoundDecimal(f, neg, Decimal(h, p, dig), ex10)
  {
    var n, ex := PackedNumber(h, p, ex10, dig), FinalPower(ex10, dig);
    DriedIsWrong(f, neg, n, ex / 2);
    PackedValue(f, neg, h, p, ex10, dig);
    TakenExactly(f, h, p, ex10, dig, neg);
  }

  /** So `strscan_dec` on a blank ring reads up to 320 digits as the nearest double if and only if they do not
      empty it. */
  method ReadsNearest(f: Format, h: seq<nat>, p: nat, ex10: int, neg: bool, dig: nat) returns (r: Double)
    requires Decimals(f) && Wide(f) && DigitRun(h, p, dig) && 0 < dig <= 320
    ensures r == RoundDecimal(f, neg, Decimal(h, p, dig), ex10) <==> !RunsDry(h, p, ex10, dig)
  {
    var xi := new Octet[RING](_ => 0);
    var full;
    r, full := StrscanDec(f, xi, h, p, ex10, neg, dig);
    if RunsDry(h, p, ex10, dig) {
      MisreadWhenDry(f, h, p, ex10, dig, neg);
    } else {
      TakenExactly(f, h, p, ex10, dig, neg);
    }
  }

  // ----- 73786976294838206464e100 -----

  function Five(a: nat, b: nat, c: nat, d: nat, e: nat): seq<nat> { [48 + a, 48 + b, 48 + c, 48 + d, 48 + e] }

  /** The digits of 2^66. */
  function Digits66(): seq<nat> {
    Five(7, 3, 7, 8, 6) + Five(9, 7, 6, 2, 9) + Five(4, 8, 3, 8, 2) + Five(0, 6, 4, 6, 4)
  }

  lemma {:induction false} PlainDigit(h: seq<nat>, k: nat)
    requires k < |h| && forall i | 0 <= i <= k :: h[i] != DOT
    ensures After(h, 0, k) == k && DigitByte(h, 0, k) == h[k]
  {
    if k > 0 { PlainDigit(h, k - 1); }
  }

  /** Only digits, and the number they denote. */
  ghost predicate Spells(h: seq<nat>, x: nat) {
    (forall i | 0 <= i < |h| :: IsDecByte(h[i])) && Decimal(h, 0, |h|) == x
  }

  lemma {:induction false} OneDigit(h: seq<nat>, x: nat, a: nat)
    requires Spells(h, x) && a < 10
    ensures Spells(h + [48 + a], 10 * x + a)
  {
    var g := h + [48 + a];
    SameValues(h, g, |h|);
    PlainDigit(g, |h|);
    DecimalStep(g, 0, |h|);
  }

  lemma {:induction false} SameValues(h: seq<nat>, g: seq<nat>, n: nat)
    requires n <= |h| && h <= g && forall i | 0 <= i < |h| :: IsDecByte(h[i])
    ensures Values(h, 0, n) == Values(g, 0, n)
  {
    if n > 0 {
      SameValues(h, g, n - 1);
      PlainDigit(h, n - 1);
      PlainDigit(g, n - 1);
    }
  }

  lemma {:induction false} FiveDigits(h: seq<nat>, x: nat, a: nat, b: nat, c: nat, d: nat, e: nat)
    requires Spells(h, x) && a < 10 && b < 10 && c < 10 && d < 10 && e < 10
    ensures Spells(h + Five(a, b, c, d, e), x * 100000 + (10000 * a + 1000 * b + 100 * c + 10 * d + e))
  {
    var h1 := h + [48 + a];
    OneDigit(h, x, a);
    var h2 := h1 + [48 + b];
    OneDigit(h1, 10 * x + a, b);
    var h3 := h2 + [48 + c];
    OneDigit(h2, 10 * (10 * x + a) + b, c);
    var h4 := h3 + [48 + d];
    OneDigit(h3, 10 * (10 * (10 * x + a) + b) + c, d);
    OneDigit(h4, 10 * (10 * (10 * (10 * x + a) + b) + c) + d, e);
    assert h + Five(a, b, c, d, e) == h4 + [48 + e];
  }

  lemma {:induction false} NoDigits(h: seq<nat>)
    requires h == []
    ensures Spells(h, 0)
  {
    assert Values(h, 0, 0) == [];
  }

  lemma {:induction false} DigitsDenote(h: seq<nat>)
    requires h == Digits66()
    ensures Spells(h, 73786976294838206464) && |h| == 20
  {
    var h0: seq<nat> := [];
    NoDigits(h0);
    var h1 := Five(7, 3, 7, 8, 6);
    FiveDigits(h0, 0, 7, 3, 7, 8, 6);
    assert h0 + h1 == h1;
    FiveDigits(h1, 73786, 9, 7, 6, 2, 9);
    var h2 := h1 + Five(9, 7, 6, 2, 9);
    FiveDigits(h2, 7378697629, 4, 8, 3, 8, 2);
    var h3 := h2 + Five(4, 8, 3, 8, 2);
    FiveDigits(h3, 737869762948382, 0, 6, 4, 6, 4);
    assert h == h3 + Five(0, 6, 4, 6, 4);
  }

  lemma {:induction false} SpelledRun(h: seq<nat>, x: nat, dig: nat)
    requires Spells(h, x) && dig == |h| > 0 && h[0] != ZERO
    ensures DigitRun(h, 0, dig)
  {
    forall k | 0 <= k < dig ensures DigitByte(h, 0, k) == h[k] { PlainDigit(h, k); }
  }

  lemma {:induction false} PowersOf64() returns (k: nat)
    ensures k == 11 && Pow(64, k) == 73786976294838206464
  {
    k := 11;
    assert Pow(64, 1) == 64 && Pow(64, 2) == 4096 && Pow(64, 3) == 262144;
    PowAdd(64, 3, 3);
    PowAdd(64, 6, 3);
    PowAdd(64, 9, 2);
  }

  lemma {:induction false} ManyHundreds(k: nat)
    requires k >= 11
    ensures 73786976294838206464 < Pow(100, k)
  {
    PowMono(100, 11, k);
    assert Pow(100, 1) == 100 && Pow(100, 2) == 10000 && Pow(100, 3) == 1000000;
    PowAdd(100, 3, 3);
    PowAdd(100, 6, 3);
    PowAdd(100, 9, 2);
  }

  /** Twenty digits on an even power of ten are packed as they are. */
  lemma {:induction false} PackedAsIs(h: seq<nat>, p: nat, e: int, dig: nat)
    requires dig == 20 && e % 2 == 0
    ensures FinalPower(e, dig) == e && PackedNumber(h, p, e, dig) == Decimal(h, p, dig)
  {
    assert Pow(10, 0) == 1;
  }

  /** The text 73786976294838206464e100 uses ten of the 512 slots, takes the arm of a full ring, and is read as 2^77. */
  lemma {:induction false} DryExample(f: Format, neg: bool) returns (h: seq<nat>, e: int, dig: nat)
    requires Wide(f)
    ensures h == Digits66() && e == 100 && dig == 20
    ensures DigitRun(h, 0, dig) && RunsDry(h, 0, e, dig)
    ensures DryDouble(f, neg, h, 0, e, dig) == RoundExact(f, neg, 1, 77)
    ensures DryDouble(f, neg, h, 0, e, dig) != RoundDecimal(f, neg, Decimal(h, 0, dig), e)
  {
    h, e, dig := Digits66(), 100, 20;
    DigitsDenote(h);
    SpelledRun(h, 73786976294838206464, dig);
    PackedAsIs(h, 0, e, dig);
    PowerDries(f, neg, h, e, dig, PackedNumber(h, 0, e, dig));
    MisreadWhenDry(f, h, 0, e, dig, neg);
  }

  lemma {:induction false} PowerDries(f: Format, neg: bool, h: seq<nat>, e: int, dig: nat, n: nat)
    requires n == PackedNumber(h, 0, e, dig) == 73786976294838206464 && e == FinalPower(e, dig) == 100
    ensures RunsDry(h, 0, e, dig) && DryDouble(f, neg, h, 0, e, dig) == RoundExact(f, neg, 1, 77)
  {
    var k := PowersOf64();
    ManyHundreds(155 - e / 2);
    assert SmallTimesPower(n, 1, k);
    CountsSixtyFours(n, 1, k);
  }

  // ----- 18014398509481986, 783 zeros, e-783 -----

  lemma {:induction false} OneZero(h: seq<nat>, x: nat, g: seq<nat>, y: nat)
    requires Spells(h, x) && g == h + [48] && y == 10 * x
    ensures Spells(g, y)
  {
    OneDigit(h, x, 0);
  }

  lemma {:induction false} ZerosFollow(h: seq<nat>, x: nat, k: nat)
    requires Spells(h, x)
    ensures x * Pow(10, k) >= 0 && Spells(h + Zeros(k), x * Pow(10, k))
  {
    NonNegative(x, Pow(10, k));
    if k == 0 {
      assert h + Zeros(0) == h && Pow(10, 0) == 1;
    } else {
      ZerosFollow(h, x, k - 1);
      TenMore(x, k - 1);
      OneZero(h + Zeros(k - 1), x * Pow(10, k - 1), h + Zeros(k), x * Pow(10, k));
    }
  }

  /** The digits of 2^54 + 2. */
  function Digits54(): seq<nat> {
    Five(1, 8, 0, 1, 4) + Five(3, 9, 8, 5, 0) + Five(9, 4, 8, 1, 9) + [56, 54]
  }

  lemma {:induction false} FifteenDigits(h: seq<nat>)
    requires h == Five(1, 8, 0, 1, 4) + Five(3, 9, 8, 5, 0) + Five(9, 4, 8, 1, 9)
    ensures Spells(h, 180143985094819) && |h| == 15
  {
    var h0: seq<nat> := [];
    NoDigits(h0);
    var h1 := Five(1, 8, 0, 1, 4);
    FiveDigits(h0, 0, 1, 8, 0, 1, 4);
    assert h0 + h1 == h1;
    FiveDigits(h1, 18014, 3, 9, 8, 5, 0);
    FiveDigits(h1 + Five(3, 9, 8, 5, 0), 1801439850, 9, 4, 8, 1, 9);
  }

  lemma {:induction false} SeventeenDigits(h: seq<nat>)
    requires h == Digits54()
    ensures Spells(h, 18014398509481986) && |h| == 17
  {
    var g := Five(1, 8, 0, 1, 4) + Five(3, 9, 8, 5, 0) + Five(9, 4, 8, 1, 9);
    FifteenDigits(g);
    OneDigit(g, 180143985094819, 8);
    OneDigit(g + [56], 1801439850948198, 6);
    assert h == g + [56] + [54];
  }

  lemma {:induction false} PowerOf52() returns (b: nat)
    ensures b == 52 && 4 * Pow(2, b) + 2 == 18014398509481986
  {
    b := 52;
    assert Pow(2, 1) == 2 && Pow(2, 2) == 4 && Pow(2, 3) == 8;
    PowAdd(2, 3, 3);
    PowAdd(2, 6, 6);
    PowAdd(2, 12, 1);
    PowAdd(2, 13, 13);
    PowAdd(2, 26, 26);
  }

  /** The text 18014398509481986000...0e-783, of 800 digits, is 2^54 + 2, halfway between 2^54 and 2^54 + 4; the 'e'
      behind the digits makes it the larger of the two, where the tie goes to the other. */
  lemma {:induction false} HalfwayExample(f: Format, neg: bool) returns (h: seq<nat>, k: nat)
    requires f == BINARY64
    ensures k == 783 && h == Digits54() + Zeros(k) + [101]
    ensures DigitRun(h, 0, MAXDIG) && DigitByte(h, 0, MAXDIG) == 101
    ensures RoundDecimal(f, neg, Taken(h, 0, 0 - k, MAXDIG), PairPower(0 - k, MAXDIG))
         != RoundDecimal(f, neg, Decimal(h, 0, MAXDIG), 0 - k)
  {
    k := 783;
    var g := Digits54();
    SeventeenDigits(g);
    ZerosFollow(g, 18014398509481986, k);
    var t := g + Zeros(k);
    h := t + [101];
    HalfwayText(f, h, t, k, neg);
  }

  lemma {:induction false} HalfwayText(f: Format, h: seq<nat>, t: seq<nat>, k: nat, neg: bool)
    requires f == BINARY64 && k % 2 == 1 && |t| == MAXDIG && t[0] != ZERO && h == t + [101]
    requires 18014398509481986 * Pow(10, k) >= 0 && Spells(t, 18014398509481986 * Pow(10, k))
    ensures DigitRun(h, 0, MAXDIG) && DigitByte(h, 0, MAXDIG) == 101
    ensures RoundDecimal(f, neg, Taken(h, 0, 0 - k, MAXDIG), PairPower(0 - k, MAXDIG))
         != RoundDecimal(f, neg, Decimal(h, 0, MAXDIG), 0 - k)
  {
    Binary64Decimals(f);
    var b := PowerOf52();
    SameValues(t, h, MAXDIG);
    forall i | 0 <= i <= MAXDIG ensures DigitByte(h, 0, i) == h[i] { PlainDigit(h, i); }
    HalfwayMisread(f, h, 0, k, neg);
  }
}
