/** strscan.js, `strscan_dec`: decimal digits and a power of ten to the nearest double. */
module ScanDec {
  import opened Exact
  import opened Positional
  import opened Bits
  import opened Ieee
  import opened Fpu
  import opened ScanDouble
  import opened ScanText
  import opened DecRing
  import opened DecDigits

  /** `n * 100^t` as a fraction in units. */
  function DecNum(f: Format, n: nat, t: int): nat { n * Pow(100, Max(0, t)) * Pow(2, f.low) }

  function DecDen(t: int): (d: nat)
    ensures d > 0
  {
    Pow(100, Max(0, 0 - t))
  }

  // ----- gathering the integer -----

  lemma SplitAt(ds: seq<nat>, c: nat)
    requires Base100(ds) && c <= |ds|
    ensures Numeral(100, ds) / Pow(100, |ds| - c) == Numeral(100, ds[..c])
    ensures Numeral(100, ds) % Pow(100, |ds| - c) == Numeral(100, ds[c..])
  {
    assert ds == ds[..c] + ds[c..];
    NumeralSplit(100, ds[..c], ds[c..]);
    NumeralBound(100, ds[c..]);
    DivUnique(Numeral(100, ds), Pow(100, |ds| - c), Numeral(100, ds[..c]), Numeral(100, ds[c..]));
  }

  /** How many of `n` digits are gathered when `idig` are integer digits: one at least. */
  function Taking(n: nat, idig: int): nat { Min(n, Max(1, idig)) }

  /** The window the gathering reads. */
  ghost predicate Reads(a: seq<nat>, hi: nat, lo: nat, ds: seq<nat>) {
    Holds(a, hi, ds) && ds != [] && lo == Slot(hi, |ds|)
  }

  /** The first `idig` digits as an integer, and how many were taken. */
  method TakeDigits(xi: array<Octet>, hi: nat, lo: nat, idig0: int, ghost ds: seq<nat>)
      returns (x: nat, i: nat, idig: int, ghost c: nat)
    requires xi.Length == RING && Reads(xi[..], hi, lo, ds)
    ensures c == Taking(|ds|, idig0) && x == Numeral(100, ds[..c]) && i == Slot(hi, c) && idig == idig0 - c
  {
    x := xi[hi];
    FirstSlot(hi, 0);
    NextSlot(hi, 0);
    i, idig, c := Next(hi), idig0, 1;
    assert ds[..1] == [ds[0]] && Numeral(100, [ds[0]]) == ds[0];
    while true
      invariant 1 <= c <= |ds| && x == Numeral(100, ds[..c]) && i == Slot(hi, c) && idig == idig0 - c + 1
      invariant c <= Max(1, idig0)
      decreases |ds| - c
    {
      idig := idig - 1;
      EndSlot(hi, c, |ds|);
      if !(idig > 0 && i != lo) { break; }
      assert ds[..c + 1] == ds[..c] + [ds[c]];
      NumeralAppend(100, ds[..c], ds[c]);
      x := x * 100 + xi[i];
      NextSlot(hi, c);
      i, c := Next(i), c + 1;
    }
  }

  /** Whether any digit from slot `i` on is not zero. */
  method AnyLeft(xi: array<Octet>, hi: nat, lo: nat, i0: nat, ghost ds: seq<nat>, ghost c0: nat) returns (any: bool)
    requires xi.Length == RING && Reads(xi[..], hi, lo, ds) && 1 <= c0 < |ds| && i0 == Slot(hi, c0)
    ensures any <==> Numeral(100, ds[c0..]) != 0
  {
    var i := i0;
    ghost var c := c0;
    any := false;
    while true
      invariant c0 <= c < |ds| && i == Slot(hi, c) && !any && (forall k | c0 <= k < c :: ds[k] == 0)
      decreases |ds| - c
    {
      if xi[i] != 0 {
        any := true;
        assert ds[c0..][c - c0] != 0;
        break;
      }
      NextSlot(hi, c);
      i, c := Next(i), c + 1;
      EndSlot(hi, c, |ds|);
      if i == lo { break; }
    }
    ZeroNumeral(100, ds[c0..]);
  }

  /** The gathered integer: the window's first digits, padded to `idig` of them, or twice them and a bit for
      the others. */
  ghost predicate Collected(ds: seq<nat>, idig: int, x: nat, sticky: bool) {
    var c := Taking(|ds|, idig);
    && (sticky <==> c < |ds|)
    && if !sticky then x == Numeral(100, ds) * Pow(100, Max(0, idig - |ds|))
       else x / 2 == Numeral(100, ds[..c]) && (x % 2 == 0 <==> Numeral(100, ds[c..]) == 0)
  }

  method Gather(xi: array<Octet>, hi: nat, lo: nat, idig0: int, ghost ds: seq<nat>) returns (x: nat, sticky: bool)
    requires xi.Length == RING && Reads(xi[..], hi, lo, ds)
    ensures Collected(ds, idig0, x, sticky)
  {
    var i, idig;
    ghost var c;
    x, i, idig, c := TakeDigits(xi, hi, lo, idig0, ds);
    EndSlot(hi, c, |ds|);
    sticky := i != lo;
    if i == lo {
      assert ds[..c] == ds && Pow(100, 0) == 1;
      idig := idig - 1;
      while idig >= 0
        invariant -1 <= idig < idig0 - |ds| || idig == idig0 - |ds| - 1
        invariant x == Numeral(100, ds) * Pow(100, idig0 - |ds| - idig - 1)
      {
        Assoc(Numeral(100, ds), Pow(100, idig0 - |ds| - idig - 1), 100);
        x := x * 100;
        idig := idig - 1;
      }
    } else {
      var any := AnyLeft(xi, hi, lo, i, ds, c);
      x := 2 * x;
      if any { x := Or(x, 1); OrTwoBits(2 * Numeral(100, ds[..c]), 1); }
    }
  }

  /** The gathered integer stands for the ring: exactly, or with its lowest bit sticky below nine digits. */
  ghost predicate Gathered(ds: seq<nat>, idig: int, x: nat, sticky: bool) {
    if !sticky then |ds| <= idig && x == Numeral(100, ds) * Pow(100, idig - |ds|)
    else idig == 9 < |ds| && x / 2 == Numeral(100, ds) / Pow(100, |ds| - 9)
         && (x % 2 == 0 <==> Numeral(100, ds) % Pow(100, |ds| - 9) == 0)
  }

  lemma {:induction false} CollectedNumber(ds: seq<nat>, idig: int, x: nat, sticky: bool)
    requires Collected(ds, idig, x, sticky) && Base100(ds) && 1 <= idig <= 9 && (idig == 9 || |ds| <= idig)
    ensures Gathered(ds, idig, x, sticky)
  {
    if sticky { SplitAt(ds, 9); }
  }

  // ----- the sticky bit over a decimal remainder -----

  /** `y` is twice the whole part of `n / w`, with its lowest bit set exactly if something is left. Halving the scale,
      it rounds as the fraction does. */
  lemma FoldFraction(f: Format, n: nat, w: nat, y: nat, e: int)
    requires w > 0 && y / 2 == n / w && (y % 2 == 0 <==> n % w == 0) && BitLen(y) > f.bits + 1
    ensures w * Den(f, e) > 0
    ensures RoundUnits(f, Num(f, y, e - 1), Den(f, e - 1)) == RoundUnits(f, Num(f, n, e), w * Den(f, e))
  {
    Positive(w, Den(f, e));
    BitLenShift(y, 1);
    assert Pow(2, 1) == 2;
    var l := BitLen(n / w);
    var s := Max(l - f.bits, 0 - f.low - e);
    HalfEvenFold(n, w, y, s);
    ShiftRoundsBy(f, y, e - 1, s + 1);
    FractionRounds(f, n, w, e, s);
  }

  lemma HalfEvenFold(n: nat, w: nat, y: nat, s: nat)
    requires w > 0 && y / 2 == n / w && (y % 2 == 0 <==> n % w == 0) && s > 0
    ensures w * Pow(2, s) > 0 && HalfEven(y, Pow(2, s + 1)) == HalfEven(n, w * Pow(2, s))
  {
    HalfEvenBlocks(y, 2, Pow(2, s - 1));
    HalfEvenBlocks(n, w, Pow(2, s - 1));
  }

  /** The rounding of a fraction, from the length of its whole part. */
  lemma FractionRounds(f: Format, n: nat, w: nat, e: int, s: int)
    requires w > 0 && w * Den(f, e) > 0 && s == Max(BitLen(n / w) - f.bits, 0 - f.low - e) && s > 0
    requires BitLen(n / w) > f.bits
    ensures e + s + f.low >= 0 && w * Pow(2, s) > 0
    ensures RoundUnits(f, Num(f, n, e), w * Den(f, e)) == HalfEven(n, w * Pow(2, s)) * Pow(2, e + s + f.low)
  {
    Positive(w, Pow(2, s));
    if e + f.low >= 0 { FractionAbove(f, n, w, e, s); } else { FractionBelow(f, n, w, e, s); }
  }

  lemma FractionAbove(f: Format, n: nat, w: nat, e: int, s: nat)
    requires e + f.low >= 0 && w > 0 && w * Pow(2, s) > 0 && s == BitLen(n / w) - f.bits
    ensures Den(f, e) == 1 && RoundUnits(f, Num(f, n, e), w * 1) == HalfEven(n, w * Pow(2, s)) * Pow(2, e + s + f.low)
  {
    FractionUp(f, n, w, e + f.low, s);
  }

  lemma FractionBelow(f: Format, n: nat, w: nat, e: int, s: nat)
    requires e + f.low < 0 && w > 0 && w * Den(f, e) > 0 && w * Pow(2, s) > 0
    requires s == Max(BitLen(n / w) - f.bits, 0 - f.low - e) && BitLen(n / w) > f.bits
    ensures RoundUnits(f, Num(f, n, e), w * Den(f, e)) == HalfEven(n, w * Pow(2, s)) * Pow(2, e + s + f.low)
  {
    var b: nat := 0 - e - f.low;
    NumBelow(f, n, e, b);
    assert e + s + f.low == s - b;
    FractionDown(f, n, w, b, s);
  }

  lemma NumBelow(f: Format, n: nat, e: int, b: nat)
    requires e + f.low == 0 - b
    ensures Den(f, e) == Pow(2, b) && Num(f, n, e) == n
  {
    assert Pow(2, 0) == 1;
  }

  lemma {:induction false} FractionUp(f: Format, n: nat, w: nat, a: nat, s: nat)
    requires w > 0 && w * Pow(2, s) > 0 && s == BitLen(n / w) - f.bits
    ensures RoundUnits(f, n * Pow(2, a), w * 1) == HalfEven(n, w * Pow(2, s)) * Pow(2, a + s)
  {
    UlpAbove(f, n, w, a, s);
    FinerGrid(w, s, a);
    HalfEvenScale(n, w * Pow(2, s), Pow(2, a));
    RoundedOn(f, n * Pow(2, a), w, a + s);
    TimesOnce(w);
  }

  lemma {:induction false} UlpAbove(f: Format, n: nat, w: nat, a: nat, s: nat)
    requires w > 0 && s == BitLen(n / w) - f.bits
    ensures n * Pow(2, a) >= 0 && Ulp(f, n * Pow(2, a) / w) == a + s
  {
    NonNegative(n, Pow(2, a));
    WholeLength(n, w, a);
  }

  lemma TimesOnce(w: nat)
    ensures w * 1 == w
  {}

  lemma FinerGrid(w: nat, s: nat, a: nat)
    ensures w * Pow(2, s) * Pow(2, a) == w * Pow(2, s + a)
  {
    PowAdd(2, s, a);
    Assoc(w, Pow(2, s), Pow(2, a));
  }

  /** The rounding on the grid of the quotient's binade. */
  lemma {:induction false} RoundedOn(f: Format, n: nat, d: nat, k: nat)
    requires d > 0 && k == Ulp(f, n / d)
    ensures d * Pow(2, k) > 0 && RoundUnits(f, n, d) == HalfEven(n, d * Pow(2, k)) * Pow(2, k)
  {
    MulStrict(Pow(2, k), 0, d);
  }

  /** Scaling a fraction up by a power of two adds as many bits to its whole part. */
  lemma WholeLength(n: nat, w: nat, a: nat)
    requires w > 0 && n / w > 0
    ensures BitLen(n * Pow(2, a) / w) == BitLen(n / w) + a
  {
    var x, p := n / w, Pow(2, a);
    BitLenBounds(x);
    var l := BitLen(x);
    QuotientBound(n, w, Pow(2, l - 1));
    QuotientBound(n, w, Pow(2, l));
    PowAdd(2, l - 1, a);
    PowAdd(2, l, a);
    ScaledBound(Pow(2, l - 1), n, w, p);
    ScaledBound(Pow(2, l), n, w, p);
    QuotientBound(n * p, w, Pow(2, l - 1 + a));
    QuotientBound(n * p, w, Pow(2, l + a));
    BitLenUnique(n * p / w, l + a);
  }

  lemma ScaledBound(b: nat, n: nat, w: nat, p: nat)
    requires p > 0
    ensures b * w <= n <==> (b * p) * w <= n * p
  {
    Assoc(b, p, w);
    Assoc(b, w, p);
    if b * w <= n { MulMono(p, b * w, n); } else { MulStrict(p, n, b * w); }
  }

  lemma {:induction false} FractionDown(f: Format, n: nat, w: nat, b: nat, s: nat)
    requires w > 0 && w * Pow(2, b) > 0 && w * Pow(2, s) > 0 && s == Max(BitLen(n / w) - f.bits, b)
    ensures RoundUnits(f, n, w * Pow(2, b)) == HalfEven(n, w * Pow(2, s)) * Pow(2, s - b)
  {
    UlpBelow(f, n, w, b, s);
    FinerGrid(w, b, s - b);
    RoundedOn(f, n, w * Pow(2, b), s - b);
  }

  lemma {:induction false} UlpBelow(f: Format, n: nat, w: nat, b: nat, s: nat)
    requires w > 0 && w * Pow(2, b) > 0 && s == Max(BitLen(n / w) - f.bits, b)
    ensures Ulp(f, n / (w * Pow(2, b))) == s - b
  {
    DivDiv(n, w, Pow(2, b));
    BitLenShift(n / w, b);
  }

  /** Equal fractions round alike. */
  lemma SameValue(f: Format, n: nat, d: nat, m: nat, e: nat)
    requires d > 0 && e > 0 && n * e == m * d
    ensures RoundUnits(f, n, d) == RoundUnits(f, m, e)
  {
    RoundScale(f, n, d, e);
    RoundScale(f, m, e, d);
    assert d * e == e * d;
  }

  // ----- the rescaled ring still denotes the number -----

  /** `ds * 100^s * 2^e == n * 100^t`, with the negative powers moved to the other side. */
  ghost predicate Stands(ds: seq<nat>, s: int, e: int, n: nat, t: int) {
    Numeral(100, ds) * Pow(100, Max(0, s) + Max(0, 0 - t)) * Pow(2, Max(0, e))
        == n * Pow(100, Max(0, t) + Max(0, 0 - s)) * Pow(2, Max(0, 0 - e))
  }

  lemma SixBits(m: nat)
    ensures Pow(64, m) == Pow(2, 6 * m)
  {
    assert Pow(2, 1) == 2 && Pow(2, 2) == 4 && Pow(2, 3) == 8;
    PowAdd(2, 3, 3);
    PowPow(2, 6, m);
  }

  /** `x * b^g == y * z` still holds after multiplying both sides by `b^k`. */
  lemma RaiseBoth(x: nat, y: nat, b: nat, g: nat, k: nat)
    requires x * Pow(b, g) == y
    ensures x * Pow(b, g + k) == y * Pow(b, k)
  {
    PowAdd(b, g, k);
    Assoc(x, Pow(b, g), Pow(b, k));
  }

  lemma MulSwapRight(a: nat, b: nat, c: nat)
    ensures a * b * c == a * c * b
  {
    Assoc(a, b, c);
    Assoc(a, c, b);
  }

  lemma MultipliedStands(ds0: seq<nat>, t: int, m: nat, ds: seq<nat>, grow: nat)
    requires Scaled(ds0, m, ds, grow)
    ensures Stands(ds, t + grow, 0 - 6 * m, Numeral(100, ds0), t)
  {
    var k := Max(0, t) + Max(0, 0 - (t + grow));
    SixBits(m);
    RaiseBoth(Numeral(100, ds), Numeral(100, ds0) * Pow(64, m), 100, grow, k);
    MulSwapRight(Numeral(100, ds0), Pow(64, m), Pow(100, k));
    assert grow + k == Max(0, t + grow) + Max(0, 0 - t);
    assert Pow(2, 0) == 1;
  }

  lemma DividedStands(ds0: seq<nat>, t: int, m: nat, ds: seq<nat>, g: nat)
    requires Halved(ds0, m, ds, g)
    ensures Stands(ds, t - g, 6 * m, Numeral(100, ds0), t)
  {
    var k := Max(0, t - g) + Max(0, 0 - t);
    SixBits(m);
    RaiseBoth(Numeral(100, ds0), Numeral(100, ds) * Pow(64, m), 100, g, k);
    MulSwapRight(Numeral(100, ds), Pow(64, m), Pow(100, k));
    assert g + k == Max(0, t) + Max(0, 0 - (t - g));
    assert Pow(2, 0) == 1;
  }

  // ----- the value read -----

  /** The double nearest to `n * 10^e`. */
  function RoundDecimal(f: Format, neg: bool, n: nat, e: int): Double {
    Round(f, neg, n * Pow(10, Max(0, e)) * Pow(2, f.low), Pow(10, Max(0, 0 - e)))
  }

  lemma CancelPower(x: nat, y: nat, k: nat)
    requires x * Pow(2, k) == y * Pow(2, k)
    ensures x == y
  {
    if x < y { MulStrict(Pow(2, k), x, y); } else if y < x { MulStrict(Pow(2, k), y, x); }
  }

  /** The binary powers of `Stands`, counted in units instead. */
  lemma InUnits(x: nat, y: nat, e: int, low: nat)
    requires x * Pow(2, Max(0, e)) == y * Pow(2, Max(0, 0 - e))
    ensures x * Pow(2, Max(0, e + low)) == y * Pow(2, low) * Pow(2, Max(0, 0 - (e + low)))
  {
    var p, q := Max(0, e + low), Max(0, 0 - (e + low));
    var k := Max(0, 0 - e);
    Assoc(y, Pow(2, low), Pow(2, q));
    PowAdd(2, low, q);
    RaiseBoth(x, y * Pow(2, k), 2, Max(0, e), low + q);
    MulSwapRight(y, Pow(2, k), Pow(2, low + q));
    assert Max(0, e) + low + q == p + k;
    PowAdd(2, p, k);
    Assoc(x, Pow(2, p), Pow(2, k));
    CancelPower(x * Pow(2, p), y * Pow(2, low + q), k);
  }

  /** The ring's digits, scaled, round to the double of the number they stand for. */
  lemma StandsRounds(f: Format, ds: seq<nat>, s: int, e: int, n: nat, t: int)
    requires Stands(ds, s, e, n, t)
    ensures Pow(100, Max(0, 0 - s)) * Den(f, e) > 0
    ensures RoundUnits(f, Num(f, Numeral(100, ds) * Pow(100, Max(0, s)), e), Pow(100, Max(0, 0 - s)) * Den(f, e))
        == RoundUnits(f, DecNum(f, n, t), DecDen(t))
  {
    var x := Numeral(100, ds);
    var a, b, c, d := Max(0, s), Max(0, 0 - s), Max(0, t), Max(0, 0 - t);
    Positive(Pow(100, b), Den(f, e));
    InUnits(x * Pow(100, a + d), n * Pow(100, c + b), e, f.low);
    CrossTerms(x, n, a, b, c, d, Pow(2, Max(0, e + f.low)), Pow(2, f.low), Den(f, e));
    SameValue(f, Num(f, x * Pow(100, a), e), Pow(100, b) * Den(f, e), DecNum(f, n, t), DecDen(t));
  }

  lemma CrossTerms(x: nat, n: nat, a: nat, b: nat, c: nat, d: nat, p: nat, l: nat, q: nat)
    requires x * Pow(100, a + d) * p == n * Pow(100, c + b) * l * q
    ensures x * Pow(100, a) * p * Pow(100, d) == n * Pow(100, c) * l * (Pow(100, b) * q)
  {
    PowAdd(100, a, d);
    PowAdd(100, c, b);
    Assoc(x, Pow(100, a), Pow(100, d));
    Assoc(n, Pow(100, c), Pow(100, b));
    MulSwapRight(x * Pow(100, a), Pow(100, d), p);
    MulSwapRight(n * Pow(100, c), Pow(100, b), l);
    Assoc(n * Pow(100, c) * l, Pow(100, b), q);
  }

  /** What `strscan_dec` takes for granted about the format: one more decimal digit than this overflows, one fewer
      rounds to zero, and eight base-100 digits with a bit below them are wider than the significand. */
  ghost predicate Decimals(f: Format) {
    Roomy(f) && f.bits <= 53 && Ranges(f.low, f.top, 155, 164)
  }

  ghost predicate Ranges(low: nat, top: nat, hi: nat, lo: nat) {
    Pow(2, top) <= Pow(100, hi) * Pow(2, low) && 2 * Pow(2, low) <= Pow(100, lo)
  }

  lemma NineDigits(k: nat)
    requires k <= 9
    ensures Pow(100, k) <= 1_000_000_000_000_000_000 && Pow(100, 8) == 10_000_000_000_000_000
  {
    PowMono(100, k, 9);
    assert Pow(100, 1) == 100 && Pow(100, 2) == 10000;
    PowAdd(100, 2, 2);
    PowAdd(100, 4, 4);
  }

  lemma GatheredBounds(ds: seq<nat>, idig: nat, x: nat, sticky: bool)
    requires Base100(ds) && ds != [] && ds[0] > 0 && idig <= 9 && Gathered(ds, idig, x, sticky)
    ensures 2 * x < SIGN && (sticky ==> x >= 20_000_000_000_000_000)
  {
    NumberBounds(ds);
    NineDigits(idig);
    var n := |ds|;
    if sticky {
      QuotientBound(Numeral(100, ds), Pow(100, n - 9), Pow(100, 8));
      QuotientBound(Numeral(100, ds), Pow(100, n - 9), Pow(100, 9));
      PowAdd(100, 8, n - 9);
      PowAdd(100, 9, n - 9);
    } else {
      PowAdd(100, n, idig - n);
      MulStrict(Pow(100, idig - n), Numeral(100, ds), Pow(100, n));
    }
  }

  lemma WideEnough(x: nat, b: nat)
    requires x >= 20_000_000_000_000_000 && b <= 53
    ensures BitLen(x) > b + 1
  {
    var w := WordBitsExactly();
    assert Pow(2, 1) == 2 && Pow(2, 2) == 4 && Pow(2, 3) == 8;
    PowAdd(2, w - 9, 3);
    PowAdd(2, w - 6, 3);
    PowAdd(2, w - 3, 3);
    BitLenUnique(0x40_0000_0000_0000, 55);
    BitLenMono(0x40_0000_0000_0000, x);
  }

  lemma GatheredRounds(f: Format, ds: seq<nat>, idig: nat, x: nat, sticky: bool, e: int)
    requires Base100(ds) && ds != [] && ds[0] > 0 && idig <= 9 && Gathered(ds, idig, x, sticky) && f.bits <= 53
    ensures var s := idig - |ds|; var ex := if sticky then e - 1 else e;
            && Pow(100, Max(0, 0 - s)) * Den(f, e) > 0
            && RoundUnits(f, Num(f, x, ex), Den(f, ex))
                == RoundUnits(f, Num(f, Numeral(100, ds) * Pow(100, Max(0, s)), e), Pow(100, Max(0, 0 - s)) * Den(f, e))
  {
    assert Pow(100, 0) == 1;
    if sticky {
      GatheredBounds(ds, idig, x, sticky);
      WideEnough(x, f.bits);
      FoldFraction(f, Numeral(100, ds), Pow(100, |ds| - 9), x, e);
    }
  }

  /** Octets taken as base-100 digits stay close to their place values. */
  lemma {:induction false} OctetNumeral(ds: seq<nat>)
    requires ds != [] && forall k | 0 <= k < |ds| :: ds[k] < 256
    ensures Numeral(100, ds) + 3 <= 258 * Pow(100, |ds| - 1)
    decreases |ds|
  {
    if |ds| == 1 {
      assert ds[..0] == [];
      assert Pow(100, 0) == 1;
    } else {
      OctetNumeral(ds[..|ds| - 1]);
    }
  }

  lemma {:induction false} CollectedBound(ds: seq<nat>, idig: int, x: nat, sticky: bool)
    requires Collected(ds, idig, x, sticky) && ds != [] && idig <= 9 && forall k | 0 <= k < |ds| :: ds[k] < 256
    ensures x < SIGN
  {
    var c := Taking(|ds|, idig);
    OctetNumeral(ds[..c]);
    NineDigits(8);
    if sticky {
      PowMono(100, c - 1, 8);
    } else {
      assert ds[..c] == ds;
      PaddedBound(Numeral(100, ds), |ds|, Max(0, idig - |ds|));
    }
  }

  lemma {:induction false} PaddedBound(x: nat, n: nat, e: nat)
    requires n > 0 && n + e <= 9
    requires x + 3 <= 258 * Pow(100, n - 1)
    ensures x * Pow(100, e) < SIGN
  {
    NineDigits(8);
    PowAdd(100, n - 1, e);
    PowMono(100, n - 1 + e, 8);
    MulMono(Pow(100, e), x, 258 * Pow(100, n - 1));
    Assoc(258, Pow(100, n - 1), Pow(100, e));
  }

  lemma OctetWindow(xi: seq<Octet>, hi: nat, ds: seq<nat>)
    requires Holds(xi, hi, ds)
    ensures forall k | 0 <= k < |ds| :: ds[k] < 256
  {
    forall k | 0 <= k < |ds| ensures ds[k] < 256 {
      assert ds[k] == xi[Slot(hi, k)];
    }
  }

  /** The digits gathered into an integer, the rest into its lowest bit, and handed to `strscan_double`. */
  method Store(f: Format, xi: array<Octet>, hi: nat, lo: nat, idig: int, ex2: int, neg: bool, ghost ds: seq<nat>)
      returns (r: Double, ghost x: nat, ghost sticky: bool)
    requires xi.Length == RING && Reads(xi[..], hi, lo, ds) && idig <= 9 && Roomy(f)
    ensures Collected(ds, idig, x, sticky)
    ensures var ex := if sticky then ex2 - 1 else ex2;
            2 * x < SIGN ==> r == RoundExact(f, neg, x, ex)
  {
    var y, below := Gather(xi, hi, lo, idig, ds);
    x, sticky := y, below;
    OctetWindow(xi[..], hi, ds);
    CollectedBound(ds, idig, x, sticky);
    var ex := if below then ex2 - 1 else ex2;
    if 2 * x < SIGN { SmallNeverWraps(f, x, ex); }
    r := StrscanDouble(f, y, ex, neg);
  }

  /** One rounding of the number in the ring. */
  method StoreRing(f: Format, xi: array<Octet>, hi: nat, lo: nat, idig: int, ex2: int, neg: bool,
      ghost ds: seq<nat>, ghost n: nat, ghost t: int)
      returns (r: Double)
    requires xi.Length == RING && Number(xi[..], hi, lo, ds) && 1 <= idig <= 9 && (idig == 9 || |ds| <= idig)
    requires Roomy(f) && f.bits <= 53 && Stands(ds, idig - |ds|, ex2, n, t)
    ensures r == Round(f, neg, DecNum(f, n, t), DecDen(t))
  {
    ghost var x, sticky;
    r, x, sticky := Store(f, xi, hi, lo, idig, ex2, neg, ds);
    CollectedNumber(ds, idig, x, sticky);
    GatheredBounds(ds, idig, x, sticky);
    GatheredRounds(f, ds, idig, x, sticky, ex2);
    StandsRounds(f, ds, idig - |ds|, ex2, n, t);
  }

  /** What is stored for `n * 100^t` when the divisions emptied the ring: a power of two that has little to do
      with it. */
  function DriedDouble(f: Format, neg: bool, n: nat, t: int): Double {
    RoundExact(f, neg, 1, 6 * SixtyFours(n) + if t > 9 then 11 else 5)
  }

  /** The mark alone gathers to a sticky bit. */
  lemma {:induction false} MarkCollected(a: seq<nat>, hi: nat, ds: seq<nat>, idig: int, x: nat, sticky: bool)
    requires OnlyMark(a, hi) && Reads(a, hi, hi, ds) && idig <= 9 && Collected(ds, idig, x, sticky)
    ensures sticky && x == 1
  {
    MarkedNumber(a, hi, ds);
    var c := Taking(|ds|, idig);
    ZeroNumeral(100, ds[..RING - 1]);
    ZeroNumeral(100, ds[..c]);
    ZeroNumeral(100, ds[c..]);
    assert forall k | 0 <= k < c :: ds[k] == ds[..RING - 1][k];
    assert ds[c..][RING - 1 - c] == 1;
  }

  /** The rest of the way once a number was given up. */
  method StoreLost(f: Format, xi: array<Octet>, hi0: nat, lo0: nat, idig0: int, ex0: int, neg: bool,
      ghost ds0: seq<nat>)
      returns (r: Double)
    requires xi.Length == RING && Reads(xi[..], hi0, lo0, ds0) && Roomy(f)
    modifies xi
    ensures OnlyMark(old(xi[..]), hi0) && hi0 == lo0 && idig0 <= RING + 9 ==>
              r == RoundExact(f, neg, 1, ex0 + if idig0 > 9 then 5 else -1)
  {
    var hi, lo, idig, ex2;
    ghost var ds, x, sticky;
    hi, lo, idig, ex2, ds := DivRest(xi, hi0, lo0, idig0, ex0, ds0);
    r, x, sticky := Store(f, xi, hi, lo, idig, ex2, neg, ds);
    if OnlyMark(old(xi[..]), hi0) && hi0 == lo0 && idig0 <= RING + 9 {
      MarkCollected(xi[..], hi, ds, idig, x, sticky);
    }
  }

  // ----- the early exits -----

  lemma HugeDigits(x: nat, l: nat, a: nat, b: nat, h: nat, u: nat)
    requires x >= Pow(100, l) && l + a >= h + b
    ensures x * Pow(100, a) * u >= Pow(100, h) * u * Pow(100, b)
  {
    PowerProducts(100, l, a, h, b);
    Chain(x, Pow(100, l), Pow(100, a), Pow(100, h), Pow(100, b), u);
  }

  lemma {:induction false} PowerProducts(c: nat, l: nat, a: nat, h: nat, b: nat)
    requires c > 0 && l + a >= h + b
    ensures Pow(c, l) * Pow(c, a) >= Pow(c, h) * Pow(c, b)
  {
    assert Pow(c, l) * Pow(c, a) == Pow(c, l + a) by { PowAdd(c, l, a); }
    assert Pow(c, h) * Pow(c, b) == Pow(c, h + b) by { PowAdd(c, h, b); }
    assert Pow(c, h + b) <= Pow(c, l + a) by { PowMono(c, h + b, l + a); }
  }

  lemma Chain(x: nat, l: nat, a: nat, h: nat, b: nat, u: nat)
    requires x >= l && l * a >= h * b
    ensures x * a * u >= h * u * b
  {
    MulMono(a, l, x);
    MulMono(u, h * b, x * a);
    MulSwapRight(h, b, u);
  }

  lemma {:induction false} HugeOverflows(f: Format, neg: bool, ds: seq<nat>, t: int)
    requires Decimals(f) && Base100(ds) && ds != [] && ds[0] > 0 && |ds| + t > 155
    ensures Round(f, neg, DecNum(f, Numeral(100, ds), t), DecDen(t)) == Infinity(neg)
  {
    NumberBounds(ds);
    var n, d := DecNum(f, Numeral(100, ds), t), DecDen(t);
    HugeDigits(Numeral(100, ds), |ds| - 1, Max(0, t), Max(0, 0 - t), 155, Pow(2, f.low));
    QuotientBound(n, d, Pow(100, 155) * Pow(2, f.low));
    AtLeastOverflows(f, n, d);
    RoundOverflow(f, n, d);
  }

  lemma TinyDigits(x: nat, l: nat, h: nat, b: nat, u: nat)
    requires x < Pow(100, l) && l + h <= b && 2 * u <= Pow(100, h)
    ensures 2 * (x * u) <= Pow(100, b)
  {
    MulMono(u, x, Pow(100, l));
    MulMono(Pow(100, l), 2 * u, Pow(100, h));
    PowAdd(100, l, h);
    PowMono(100, l + h, b);
    Assoc(2, u, Pow(100, l));
  }

  lemma {:induction false} TinyIsZero(f: Format, neg: bool, ds: seq<nat>, t: int)
    requires Decimals(f) && Base100(ds) && ds != [] && ds[0] > 0 && |ds| + t < -163
    ensures Round(f, neg, DecNum(f, Numeral(100, ds), t), DecDen(t)) == Finite(neg, 0)
  {
    NumberBounds(ds);
    var n, d := DecNum(f, Numeral(100, ds), t), DecDen(t);
    TinyNumber(f, Numeral(100, ds), |ds|, t, 164);
    HalfIsZero(f, n, d);
  }

  lemma {:induction false} TinyNumber(f: Format, x: nat, l: nat, t: int, h: nat)
    requires x < Pow(100, l) && t < 0 && l + h <= 0 - t && 2 * Pow(2, f.low) <= Pow(100, h)
    ensures 2 * DecNum(f, x, t) <= DecDen(t)
  {
    TinyDigits(x, l, h, 0 - t, Pow(2, f.low));
    TimesOne(x);
  }

  lemma TimesOne(n: nat)
    ensures n * Pow(100, 0) == n
  {}

  // ----- strscan_dec -----

  /** The first of the two rescaling loops to run decides which way; the other finds nothing to do. Where `full` the
      divisions gave up a number, or the multiplications met the end of a ring that is really full: there the model
      stops. */
  method Rescale(f: Format, xi: array<Octet>, len: nat, idig: int, neg: bool, ghost ds0: seq<nat>, ghost t: int)
      returns (r: Double, full: bool)
    requires xi.Length == RING && len == |ds0| < RING && Number(xi[..], 0, len, ds0) && idig == |ds0| + t
    requires Roomy(f) && f.bits <= 53
    modifies xi
    ensures !full ==> r == Round(f, neg, DecNum(f, Numeral(100, ds0), t), DecDen(t))
    ensures 9 - t < RING && DivisionRoom(|ds0|, idig) ==> (full <==> idig > 9 && t >= 9 && Empties(Numeral(100, ds0)))
    ensures full && idig > 9 && t <= RING && DivisionRoom(|ds0|, idig) && Lone(old(xi[..]), 0, |ds0|) ==>
              r == DriedDouble(f, neg, Numeral(100, ds0), t)
  {
    var hi, lo, i, ex2;
    ghost var ds, m, grow, g, k;
    hi, lo, i, ex2, full, ds, m, grow := MulLoop(xi, 0, len, idig, ds0);
    if full { return Finite(neg, 0), true; }
    if idig <= 9 {
      MultipliedStands(ds0, t, m, ds, grow);
    }
    hi, lo, i, ex2, full, ds, k, g := DivLoop(xi, hi, lo, i, ex2, ds);
    if full {
      r := StoreLost(f, xi, hi, lo, i, ex2, neg, ds);
      return;
    }
    if idig > 9 {
      DividedStands(ds0, t, k, ds, g);
    }
    r := StoreRing(f, xi, hi, lo, i, ex2, neg, ds, Numeral(100, ds0), t);
  }

  lemma {:induction false} SquareBase(k: nat)
    ensures Pow(100, k) == Pow(10, 2 * k)
  {
    assert Pow(10, 1) == 10 && Pow(10, 2) == 10 * Pow(10, 1);
    PowPow(10, 2, k);
  }

  /** Zeros appended to the digits, and pairs of decimal places, leave the value alone. */
  lemma PackedValue(f: Format, neg: bool, h: seq<nat>, p: nat, ex10: int, dig: nat)
    ensures var ex := FinalPower(ex10, dig);
            Round(f, neg, DecNum(f, PackedNumber(h, p, ex10, dig), ex / 2), DecDen(ex / 2))
                == RoundDecimal(f, neg, Taken(h, p, ex10, dig), PairPower(ex10, dig))
  {
    PaddedValue(f, neg, Taken(h, p, ex10, dig), PairPower(ex10, dig), FinalPower(ex10, dig));
  }

  lemma {:induction false} PaddedValue(f: Format, neg: bool, n: nat, e: int, ex: int)
    requires ex % 2 == 0 && ex <= e && (ex != e ==> ex >= 0)
    ensures n * Pow(10, e - ex) >= 0
    ensures Round(f, neg, DecNum(f, n * Pow(10, e - ex), ex / 2), DecDen(ex / 2)) == RoundDecimal(f, neg, n, e)
  {
    NonNegative(n, Pow(10, e - ex));
    SquareBase(Max(0, ex / 2));
    SquareBase(Max(0, 0 - ex / 2));
    if ex != e {
      PowAdd(10, e - ex, ex);
      Assoc(n, Pow(10, e - ex), Pow(10, ex));
    }
  }

  /** An odd power of ten is a tenfold number on the even power below it. */
  lemma {:induction false} TakenValue(f: Format, neg: bool, d: nat, e: int)
    ensures RoundDecimal(f, neg, d * Pow(10, e % 2), e - e % 2) == RoundDecimal(f, neg, d, e)
  {
    PowersOfTen();
    if e % 2 == 1 {
      if e >= 0 {
        PowAdd(10, 1, e - 1);
        Assoc(d, 10, Pow(10, e - 1));
      } else {
        OddBelowZero(f, neg, d, 0 - e);
      }
    }
  }

  lemma PowersOfTen()
    ensures Pow(10, 0) == 1 && Pow(10, 1) == 10
  {}

  lemma {:induction false} OddBelowZero(f: Format, neg: bool, d: nat, k: nat)
    requires k > 0
    ensures RoundDecimal(f, neg, d * 10, 0 - k - 1) == RoundDecimal(f, neg, d, 0 - k)
  {
    MulSwapRight(d, 10, Pow(2, f.low));
    Tenfold(f, d * Pow(2, f.low), Pow(10, k));
  }

  lemma Tenfold(f: Format, n: nat, d: nat)
    requires d > 0
    ensures RoundUnits(f, n * 10, 10 * d) == RoundUnits(f, n, d)
  {
    RoundScale(f, n, d, 10);
  }

  /** The digits are all taken, and nothing else: there are fewer than 800, or 800 on an even power of ten, or 800 with
      a '0' behind them. */
  predicate AllDigits(h: seq<nat>, p: nat, ex10: int, dig: nat) {
    dig < MAXDIG || (dig == MAXDIG && (ex10 % 2 == 0 || DigitByte(h, p, MAXDIG) == ZERO))
  }

  /** Then the number taken is the one the digits from `p` and the exponent denote. */
  lemma TakenExactly(f: Format, h: seq<nat>, p: nat, ex10: int, dig: nat, neg: bool)
    requires AllDigits(h, p, ex10, dig)
    ensures RoundDecimal(f, neg, Taken(h, p, ex10, dig), PairPower(ex10, dig))
        == RoundDecimal(f, neg, Decimal(h, p, dig), ex10)
  {
    TakenValue(f, neg, Decimal(h, p, dig), ex10);
  }

  /** When the divisions by 64 empty the ring: `n * 10^ex` is `c * 64^k` with nine more pairs of zeros to come. The code
      takes the emptied ring for a full one. */
  ghost predicate Dries(n: nat, ex: int) {
    18 <= ex < 312 && n < Pow(100, 155 - ex / 2) && Empties(n)
  }

  ghost predicate RunsDry(h: seq<nat>, p: nat, ex10: int, dig: nat) {
    Dries(PackedNumber(h, p, ex10, dig), FinalPower(ex10, dig))
  }

  /** The base-100 digits as one 64-bit integer. */
  method SumDigits(xi: array<Octet>, len: nat, ghost ds: seq<nat>) returns (x: nat)
    requires xi.Length == RING && 0 < len == |ds| <= RING && xi[..len] == ds
    ensures x == Numeral(100, ds) % WORD
  {
    x := xi[0] % WORD;
    var i := 1;
    assert ds[..1] == [] + [ds[0]];
    NumeralAppend(100, [], ds[0]);
    while i < len
      invariant 1 <= i <= len && x == Numeral(100, ds[..i]) % WORD
    {
      assert ds[..i + 1] == ds[..i] + [ds[i]];
      NumeralAppend(100, ds[..i], ds[i]);
      WordStep(Numeral(100, ds[..i]), ds[i]);
      x := (x * 100 % WORD + xi[i]) % WORD;
      i := i + 1;
    }
    assert ds[..len] == ds;
  }

  /** Short integers are converted as they are. */
  method FastPath(f: Format, xi: array<Octet>, len: nat, dig: nat, neg: bool, ghost ds: seq<nat>)
      returns (r: Double, done: bool)
    requires xi.Length == RING && 0 < len == |ds| <= RING && xi[..len] == ds && Base100(ds)
    requires dig <= 20 ==> Numeral(100, ds) < Pow(10, dig)
    ensures done ==> r == Round(f, neg, Numeral(100, ds) * Pow(2, f.low), 1)
    ensures done <==> dig <= 19 && Numeral(100, ds) < SIGN
  {
    done, r := false, NaN;
    if dig <= 20 {
      var x := SumDigits(xi, len, ds);
      if dig <= 19 { NineteenDigits(Numeral(100, ds), dig); }
      if !(dig == 20 && (xi[0] > 18 || AsInt64(x) >= 0)) && !(AsInt64(x) < 0) {
        NonNegative(x, Pow(2, f.low));
        r := Round(f, false, x * Pow(2, f.low), 1);
        r := if neg then Negate(r) else r;
        done := true;
      }
    }
  }

  lemma WordStep(n: nat, d: nat)
    ensures ((n % WORD) * 100 % WORD + d) % WORD == (n * 100 + d) % WORD
  {
    var q := n / WORD;
    assert n == q * WORD + n % WORD;
    assert n * 100 + d == (q * 100) * WORD + ((n % WORD) * 100 + d);
    var m := (n % WORD) * 100;
    assert m + d == m / WORD * WORD + (m % WORD + d);
  }

  lemma NineteenDigits(n: nat, dig: nat)
    requires dig <= 19 && n < Pow(10, dig)
    ensures n < WORD
  {
    PowMono(10, dig, 19);
    SmallTens();
    PowAdd(10, 3, 3);
    PowAdd(10, 6, 3);
    PowAdd(10, 9, 9);
    PowAdd(10, 18, 1);
  }

  /** The slow path after the digits are packed: out of range either way, or rescaled. */
  method ScanPacked(f: Format, xi: array<Octet>, len: nat, ex: int, neg: bool, ghost ds: seq<nat>)
      returns (r: Double, full: bool)
    requires xi.Length == RING && len == |ds| < RING && Number(xi[..], 0, len, ds) && ex % 2 == 0 && Decimals(f)
    modifies xi
    ensures !full ==> r == Round(f, neg, DecNum(f, Numeral(100, ds), ex / 2), DecDen(ex / 2))
    ensures |ds| <= 161 ==> (full <==> 18 <= ex && |ds| + ex / 2 <= 155 && Empties(Numeral(100, ds)))
    ensures |ds| <= 161 && full && Lone(old(xi[..]), 0, |ds|) ==> r == DriedDouble(f, neg, Numeral(100, ds), ex / 2)
  {
    var idig := len + ex / 2;
    full := false;
    if idig > 155 {
      HugeOverflows(f, neg, ds, ex / 2);
      return Infinity(neg), false;
    } else if idig < -163 {
      TinyIsZero(f, neg, ds, ex / 2);
      return Finite(neg, 0), false;
    }
    r, full := Rescale(f, xi, len, idig, neg, ds, ex / 2);
  }

  lemma LengthBelow(ds: seq<nat>, k: int)
    requires Base100(ds) && ds != [] && ds[0] > 0
    ensures |ds| <= k <==> k >= 0 && Numeral(100, ds) < Pow(100, k)
  {
    NumberBounds(ds);
    if |ds| <= k {
      PowMono(100, |ds|, k);
    } else if k >= 0 {
      PowMono(100, k, |ds| - 1);
    }
  }

  /** The packed digits as they stand in the ring. */
  ghost predicate Loaded(xi: seq<nat>, ds: seq<nat>, n: nat) {
    |xi| == RING && 0 < |ds| < RING && xi[..|ds|] == ds && Base100(ds) && Numeral(100, ds) == n && (n > 0 ==> ds[0] > 0)
  }

  /** Packing the digits; without any, a single zero. */
  method Load(h: seq<nat>, p: nat, ex10: int, dig: nat, xi: array<Octet>)
      returns (len: nat, ex: int, d: nat, ghost ds: seq<nat>, ghost n: nat)
    requires xi.Length == RING && DigitRun(h, p, dig)
    modifies xi
    ensures len == |ds| && 2 * len <= Max(Kept(dig), 20) + 2 && Loaded(xi[..], ds, n) && ex % 2 == 0
    ensures (d <= 20 ==> n < Pow(10, d)) && (Clear(old(xi[..]), 0) ==> Clear(xi[..], len))
    ensures if dig == 0 then n == 0 && d == 0 && ex == 0
        else n > 0 && ex == FinalPower(ex10, dig) && n == PackedNumber(h, p, ex10, dig)
  {
    if dig == 0 {
      xi[0] := 0;
      len, ex, d, ds, n := 1, 0, 0, [0], 0;
      assert Pow(10, 0) == 1 && [0][..0] == [];
    } else {
      len, ex, d, ds, n := Fill(h, p, ex10, dig, xi);
      LengthBelow(ds, 0);
    }
  }

  lemma {:induction false} InRange(ds: seq<nat>, ex: int)
    requires Base100(ds) && ds != [] && ds[0] > 0
    ensures |ds| + ex / 2 <= 155 <==> ex < 312 && Numeral(100, ds) < Pow(100, 155 - ex / 2)
  {
    LengthBelow(ds, 155 - ex / 2);
  }

  lemma InHalves(f: Format, n: nat)
    ensures DecNum(f, n, 0) == n * Pow(2, f.low) && DecDen(0) == 1
  {}

  lemma ZeroIsShort(n: nat, dig: nat, done: bool)
    requires (done <==> dig <= 19 && n < SIGN) && (n == 0 ==> dig == 0) && !done
    ensures n > 0
  {}

  lemma LoadedNumber(a: seq<nat>, ds: seq<nat>, n: nat)
    requires Loaded(a, ds, n) && n > 0
    ensures Number(a, 0, |ds|, ds)
  {
    forall k | 0 <= k < |ds|
      ensures a[Slot(0, k)] == ds[k]
    {
      assert a[..|ds|][k] == a[k];
    }
  }

  lemma ClearAround(a: seq<nat>, n: nat)
    requires |a| == RING && Clear(a, n)
    ensures Lone(a, 0, n)
  {}

  method ScanLoaded(f: Format, xi: array<Octet>, len: nat, ex: int, dig: nat, neg: bool, ghost ds: seq<nat>,
      ghost n: nat) returns (r: Double, full: bool)
    requires Decimals(f) && len == |ds| && Loaded(xi[..], ds, n) && ex % 2 == 0 && (dig <= 20 ==> n < Pow(10, dig))
    requires n == 0 ==> dig == 0 && ex == 0
    modifies xi
    ensures !full ==> r == Round(f, neg, DecNum(f, n, ex / 2), DecDen(ex / 2))
    ensures |ds| <= 161 ==> (full <==> n > 0 && Dries(n, ex))
    ensures |ds| <= 161 && full && Clear(old(xi[..]), len) ==> r == DriedDouble(f, neg, n, ex / 2)
  {
    if dig <= 20 && ex == 0 {
      var done;
      r, done := FastPath(f, xi, len, dig, neg, ds);
      if done {
        InHalves(f, n);
        return r, false;
      }
      ZeroIsShort(n, dig, done);
    }
    LoadedNumber(xi[..], ds, n);
    if Clear(xi[..], len) { ClearAround(xi[..], len); }
    InRange(ds, ex);
    r, full := ScanPacked(f, xi, len, ex, neg, ds);
  }

  lemma ZeroText(f: Format, neg: bool)
    ensures Round(f, neg, DecNum(f, 0, 0), DecDen(0)) == Finite(neg, 0)
  {
    RoundIdentity(f, 0, 1);
    assert 0 * Pow(100, 0) == 0 && 0 * Pow(2, f.low) == 0;
  }

  /** `strscan_dec`, on the ring it is given: the double nearest to the digits from `p` times `10^ex10`, unless `full`.
      For up to 320 digits `full` is exactly the emptied ring, and what is then stored is known if the ring came
      blank. */
  method StrscanDec(f: Format, xi: array<Octet>, h: seq<nat>, p: nat, ex10: int, neg: bool, dig: nat)
      returns (r: Double, full: bool)
    requires xi.Length == RING && Decimals(f) && DigitRun(h, p, dig)
    modifies xi
    ensures !full ==>
              r == if dig == 0 then Finite(neg, 0)
                  else RoundDecimal(f, neg, Taken(h, p, ex10, dig), PairPower(ex10, dig))
    ensures dig <= 320 ==> (full <==> dig > 0 && RunsDry(h, p, ex10, dig))
    ensures dig <= 320 && full && Blank(old(xi[..])) ==> r == DryDouble(f, neg, h, p, ex10, dig)
  {
    var len, ex, d;
    ghost var ds, n;
    len, ex, d, ds, n := Load(h, p, ex10, dig, xi);
    r, full := ScanLoaded(f, xi, len, ex, d, neg, ds, n);
    ZeroText(f, neg);
    PackedValue(f, neg, h, p, ex10, dig);
  }

  /** What a text that empties a blank ring is read as. */
  ghost function DryDouble(f: Format, neg: bool, h: seq<nat>, p: nat, ex10: int, dig: nat): Double {
    DriedDouble(f, neg, PackedNumber(h, p, ex10, dig), FinalPower(ex10, dig) / 2)
  }

  /** Up to 800 digits: unless the ring ran full or dry, what is stored is the nearest double to the text, in the sense
      of section 4.3.1 of IEEE 754-2019. */
  lemma DecimalCorrect(f: Format, h: seq<nat>, p: nat, ex10: int, dig: nat, neg: bool)
    requires AllDigits(h, p, ex10, dig)
    ensures Pow(10, Max(0, 0 - ex10)) > 0
    ensures CorrectlyRounded(f, neg, Decimal(h, p, dig) * Pow(10, Max(0, ex10)) * Pow(2, f.low),
        Pow(10, Max(0, 0 - ex10)), RoundDecimal(f, neg, Taken(h, p, ex10, dig), PairPower(ex10, dig)))
  {
    TakenExactly(f, h, p, ex10, dig, neg);
    NonNegative(Decimal(h, p, dig), Pow(10, Max(0, ex10)));
    NonNegative(Decimal(h, p, dig) * Pow(10, Max(0, ex10)), Pow(2, f.low));
    RoundCorrect(f, neg, Decimal(h, p, dig) * Pow(10, Max(0, ex10)) * Pow(2, f.low), Pow(10, Max(0, 0 - ex10)));
  }

  // ----- binary64 -----

  lemma {:induction false} PowersBelow(a: nat, n: nat, k: nat, m: nat, h: nat)
    requires Pow(2, a) <= Pow(100, n) && k <= a * m && h >= n * m
    ensures Pow(2, k) <= Pow(100, h)
  {
    PowMono(2, k, a * m);
    PowPow(2, a, m);
    PowBase(Pow(2, a), Pow(100, n), m);
    PowPow(100, n, m);
    PowMono(100, n * m, h);
  }

  lemma {:induction false} SmallPowers() returns (a: nat, b: nat)
    ensures a == 41 && b == 10 && Pow(2, a) == 0x200_0000_0000 && Pow(100, b) == 1_0000_0000_0000_0000_0000
  {
    a, b := 41, 10;
    assert Pow(2, 1) == 2 && Pow(2, 2) == 4 && Pow(2, 3) == 8 && Pow(2, 5) == 32;
    PowAdd(2, 5, 5);
    PowAdd(2, 10, 10);
    PowAdd(2, 20, 20);
    PowAdd(2, 40, 1);
    assert Pow(100, 1) == 100 && Pow(100, 2) == 10000;
    PowAdd(100, 2, 2);
    PowAdd(100, 4, 4);
    PowAdd(100, 8, 2);
  }

  /** 2^205 is below 10^62, and 2^53 below 10^16. */
  lemma {:induction false} PowerPairs() returns (a: nat, n: nat, b: nat, m: nat)
    ensures a == 205 && n == 31 && b == 53 && m == 8
    ensures Pow(2, a) <= Pow(100, n) && Pow(2, b) <= Pow(100, m)
  {
    a, n, b, m := 205, 31, 53, 8;
    var x, y := SmallPowers();
    PowAdd(2, x, x);
    PowAdd(2, 2 * x, 2 * x);
    PowAdd(2, 4 * x, x);
    PowAdd(100, y, y);
    PowAdd(100, 2 * y, y);
    PowAdd(100, 3 * y, 1);
    PowAdd(2, x, 12);
    assert Pow(2, 1) == 2 && Pow(2, 2) == 4 && Pow(2, 3) == 8 && Pow(2, 6) == 64;
    PowAdd(2, 6, 6);
    PowAdd(100, m, 2);
    assert Pow(100, 2) == 10000;
  }

  lemma {:induction false} PowersBelowBoth(a: nat, m: nat, b: nat, n: nat, k: nat, h: nat)
    requires Pow(2, a) <= Pow(100, m) && Pow(2, b) <= Pow(100, n) && k <= a + b && h >= m + n
    ensures Pow(2, k) <= Pow(100, h)
  {
    PowMono(2, k, a + b);
    PowAdd(2, a, b);
    PowAdd(100, m, n);
    PowMono(100, m + n, h);
    MulMono(Pow(2, b), Pow(2, a), Pow(100, m));
    MulMono(Pow(100, m), Pow(2, b), Pow(100, n));
  }

  lemma {:induction false} RangeTop(low: nat, top: nat, hi: nat, a: nat, n: nat)
    requires low <= top <= low + 5 * a && hi >= 5 * n && Pow(2, a) <= Pow(100, n)
    ensures Pow(2, top) <= Pow(100, hi) * Pow(2, low)
  {
    PowersBelow(a, n, top - low, 5, hi);
    PowAdd(2, top - low, low);
    MulMono(Pow(2, low), Pow(2, top - low), Pow(100, hi));
  }

  lemma {:induction false} RangeBottom(low: nat, lo: nat, b: nat, m: nat)
    requires low < 20 * b + 15 && lo >= 20 * m + 4 && Pow(2, b) <= Pow(100, m)
    ensures 2 * Pow(2, low) <= Pow(100, lo)
  {
    PowersBelow(b, m, 20 * b, 20, 20 * m);
    assert Pow(2, 1) == 2 && Pow(2, 2) == 4 && Pow(2, 3) == 8 && Pow(2, 6) == 64 && Pow(100, 1) == 100
        && Pow(100, 2) == 10000 && Pow(100, 4) == 10000 * 10000;
    PowAdd(2, 6, 6);
    PowAdd(2, 12, 3);
    PowersBelowBoth(20 * b, 20 * m, 15, 4, low + 1, lo);
  }

  lemma {:induction false} Binary64Ranges(low: nat, top: nat, hi: nat, lo: nat)
    requires low <= 1074 && low <= top <= low + 1024 && hi >= 155 && lo >= 164
    ensures Ranges(low, top, hi, lo)
  {
    var a, n, b, m := PowerPairs();
    RangeTop(low, top, hi, a, n);
    RangeBottom(low, lo, b, m);
  }

  /** The early exits are right for binary64: 10^310 overflows and 10^-328 is below half the smallest subnormal. */
  lemma {:induction false} Binary64Decimals(f: Format)
    requires f == BINARY64
    ensures Decimals(f)
  {
    Binary64Ranges(f.low, f.top, 155, 164);
    Encodes(f.top - f.bits + 1, f.field);
  }

  lemma {:induction false} Encodes(n: nat, w: nat)
    requires n <= 2046 && w >= 11
    ensures n < Pow(2, w)
  {
    assert Pow(2, 1) == 2 && Pow(2, 2) == 4 && Pow(2, 3) == 8;
    PowAdd(2, 3, 3);
    PowAdd(2, 6, 3);
    PowAdd(2, 9, 2);
    PowMono(2, 11, w);
  }
}
