/** strfmt.js: adding a digit in the limb ring, and rounding half to even at a decimal position. */
module StrFmtRound {
  import opened Exact
  import opened Positional
  import opened DecimalText
  import opened StrFmtInt
  import opened StrFmtRing
  import opened StrFmtDiv

  /** The index, from the top of a window with `ndhi + 1` integer limbs, of the limb holding the digit of `10^e`. */
  function LimbOf(ndhi: nat, e: int): int { ndhi - e / 9 }

  /** The digit of `10^e` lies in the window. */
  predicate Inside(ndhi: nat, e: int, ds: seq<nat>) {
    ndhi < |ds| && 0 <= LimbOf(ndhi, e) < |ds|
  }

  /** The weight of `10^e` counted in units of the lowest limb. */
  function Weight(ndhi: nat, e: int, ds: seq<nat>): nat
    requires Inside(ndhi, e, ds)
  {
    NonNegative(Pow(10, e % 9), Pow(LIMB, |ds| - 1 - LimbOf(ndhi, e)));
    Pow(10, e % 9) * Pow(LIMB, |ds| - 1 - LimbOf(ndhi, e))
  }

  lemma {:induction false} LimbPower(k: nat)
    ensures Pow(LIMB, k) == Pow(10, 9 * k)
  {
    SmallTens();
    PowAdd(10, 4, 4);
    PowAdd(10, 8, 1);
    PowPow(10, 9, k);
  }

  /** In decimal: the lowest limb's unit is `10^(-9 * fraction limbs)`. */
  lemma {:induction false} WeightIs(ndhi: nat, e: int, ds: seq<nat>)
    requires Inside(ndhi, e, ds)
    ensures e + 9 * (|ds| - 1 - ndhi) >= 0 && Weight(ndhi, e, ds) == Pow(10, e + 9 * (|ds| - 1 - ndhi))
  {
    var k := |ds| - 1 - LimbOf(ndhi, e);
    LimbPower(k);
    PowAdd(10, e % 9, 9 * k);
  }

  // ----- nd_add_m10e -----

  lemma {:induction false} SetLimb(ds: seq<nat>, k: nat, d: nat)
    requires k < |ds|
    ensures Numeral(LIMB, ds[k := d]) + ds[k] * Pow(LIMB, |ds| - 1 - k)
        == Numeral(LIMB, ds) + d * Pow(LIMB, |ds| - 1 - k)
  {
    var p, t := Pow(LIMB, |ds| - 1 - k), ds[k + 1..];
    assert ds == ds[..k] + ([ds[k]] + t) && ds[k := d] == ds[..k] + ([d] + t);
    NumeralSplit(LIMB, ds[..k], [ds[k]] + t);
    NumeralSplit(LIMB, ds[..k], [d] + t);
    NumeralPrepend(LIMB, ds[k], t);
    NumeralPrepend(LIMB, d, t);
    assert |[ds[k]] + t| == |[d] + t| == |ds| - k && |t| == |ds| - 1 - k;
  }

  /** `carry` is still to be added at limb `k`, so that the window denotes `n`. */
  ghost predicate Owes(ds: seq<nat>, k: nat, carry: nat, n: nat) {
    k < |ds| && Numeral(LIMB, ds) + carry * Pow(LIMB, |ds| - 1 - k) == n
  }

  lemma {:induction false} AddHere(ds: seq<nat>, k: nat, carry: nat, n: nat)
    requires Owes(ds, k, carry, n)
    ensures Numeral(LIMB, ds[k := ds[k] + carry]) == n
  {
    SetLimb(ds, k, ds[k] + carry);
    Distrib(ds[k], carry, Pow(LIMB, |ds| - 1 - k));
  }

  lemma {:induction false} AddWithCarry(ds: seq<nat>, k: nat, carry: nat, n: nat)
    requires Owes(ds, k, carry, n) && ds[k] + carry >= LIMB
    ensures k > 0 ==> Owes(ds[k := ds[k] + carry - LIMB], k - 1, 1, n)
    ensures k == 0 ==> Numeral(LIMB, [1] + ds[k := ds[k] + carry - LIMB]) == n
  {
    var d, p := ds[k] + carry - LIMB, Pow(LIMB, |ds| - 1 - k);
    SetLimb(ds, k, d);
    Distrib(d, LIMB, p);
    Distrib(ds[k], carry, p);
    if k == 0 { NumeralPrepend(LIMB, 1, ds[k := d]); }
  }

  lemma StepAbove(hi: nat, k: nat)
    requires hi < SLOTS && k < SLOTS
    ensures k > 0 ==> (Limb(hi, k) + 1) % SLOTS == Limb(hi, k - 1)
    ensures k == 0 <==> Limb(hi, k) == hi
  {}

  /** A limb that takes the carry without overflowing. */
  method Settle(nd: array<nat>, ndhi: nat, i: nat, val: nat, ghost was: seq<nat>, ghost k: nat, ghost carry: nat,
      ghost n: nat)
      returns (ghost ds: seq<nat>)
    requires nd.Length == SLOTS && Window(nd[..], ndhi, was) && Owes(was, k, carry, n) && i == Limb(ndhi, k)
    requires val == was[k] + carry < LIMB
    modifies nd
    ensures Window(nd[..], ndhi, ds) && |ds| == |was| && Numeral(LIMB, ds) == n
  {
    AddHere(was, k, carry, n);
    WriteLimb(nd[..], ndhi, was, k, val);
    nd[i] := val;
    ds := was[k := val];
  }

  /** The ripple of `nd_add_m10e`: from slot `i` up, through the fraction into the integer limbs, and past them. */
  method Ripple(nd: array<nat>, ndhi0: nat, i0: nat, carry0: nat, ghost ds0: seq<nat>, ghost k0: nat)
      returns (ndhi: nat, ghost ds: seq<nat>)
    requires nd.Length == SLOTS && Window(nd[..], ndhi0, ds0) && |ds0| < SLOTS && k0 < |ds0| && i0 == Limb(ndhi0, k0)
    requires carry0 < LIMB
    requires ndhi0 + 1 < SLOTS
    modifies nd
    ensures Window(nd[..], ndhi, ds) && Numeral(LIMB, ds) == Numeral(LIMB, ds0) + carry0 * Pow(LIMB, |ds0| - 1 - k0)
    ensures (ndhi == ndhi0 && |ds| == |ds0|) || (ndhi == ndhi0 + 1 && |ds| == |ds0| + 1)
    ensures ds0[0] > 0 || ndhi > ndhi0 ==> ds[0] > 0
  {
    ghost var n := Numeral(LIMB, ds0) + carry0 * Pow(LIMB, |ds0| - 1 - k0);
    ghost var k: nat := k0;
    var i: nat, carry: nat := i0, carry0;
    ndhi, ds := ndhi0, ds0;
    while true
      invariant Window(nd[..], ndhi0, ds) && |ds| == |ds0| && k < |ds| && i == Limb(ndhi0, k) && carry < LIMB
      invariant Owes(ds, k, carry, n)
      decreases k
    {
      var val := nd[i] + carry;
      StepAbove(ndhi0, k);
      if val < LIMB {
        ds := Settle(nd, ndhi0, i, val, ds, k, carry, n);
        NonNegative(carry0, Pow(LIMB, |ds0| - 1 - k0));
        if ds0[0] > 0 { LeadingStays(ds0, ds, 1, n - Numeral(LIMB, ds0)); }
        return;
      }
      val := val - LIMB;
      AddWithCarry(ds, k, carry, n);
      WriteLimb(nd[..], ndhi0, ds, k, val);
      nd[i] := val;
      ds := ds[k := val];
      if i == ndhi0 {
        ndhi, ds := PushTop(nd, ndhi0, 1, ds);
        return;
      }
      carry := 1;
      i, k := (i + 1) % SLOTS, k - 1;
    }
  }

  /** The slot of the digit of `10^e`, and the power of ten of the digit within its limb. */
  method Place(ghost ndhi: nat, e: int, ghost ds: seq<nat>) returns (i: nat, r: nat)
    requires ndhi < SLOTS && |ds| <= SLOTS && Inside(ndhi, e, ds)
    ensures i == Limb(ndhi, LimbOf(ndhi, e)) && r == e % 9
  {
    if e >= 0 {
      i := e / 9;
      r := e - i * 9;
    } else {
      var f := 0 - (8 - e) / 9;
      i := 64 + f;
      r := e - f * 9;
    }
  }

  /** `nd_add_m10e`: the digit `m` at `10^e`, for a product that fits its limb. */
  method NdAddM10e(nd: array<nat>, ndhi0: nat, m: nat, e: int, ghost ds0: seq<nat>)
      returns (ndhi: nat, ghost ds: seq<nat>)
    requires nd.Length == SLOTS && Window(nd[..], ndhi0, ds0) && |ds0| < SLOTS && ndhi0 + 1 < SLOTS
    requires Inside(ndhi0, e, ds0) && m * Pow(10, e % 9) < LIMB
    modifies nd
    ensures Window(nd[..], ndhi, ds) && Numeral(LIMB, ds) == Numeral(LIMB, ds0) + m * Weight(ndhi0, e, ds0)
    ensures (ndhi == ndhi0 && |ds| == |ds0|) || (ndhi == ndhi0 + 1 && |ds| == |ds0| + 1)
    ensures ds0[0] > 0 || ndhi > ndhi0 ==> ds[0] > 0
  {
    var i, r := Place(ndhi0, e, ds0);
    Tens();
    NonNegative(m, Pow(10, r));
    var carry := m * (NINES[r] + 1);
    ghost var k: nat := LimbOf(ndhi0, e);
    Assoc(m, Pow(10, r), Pow(LIMB, |ds0| - 1 - k));
    ndhi, ds := Ripple(nd, ndhi0, i, carry, ds0, k);
  }

  // ----- nd_round -----

  lemma {:induction false} DigitAt(x: nat, w: nat, d: nat)
    requires d < w
    ensures Digits(x, w)[d] == 48 + x / Pow(10, w - 1 - d) % 10
  {
    if d < w - 1 {
      DigitAt(x / 10, w - 1, d);
      DivDiv(x, 10, Pow(10, w - 2 - d));
    } else {
      assert Pow(10, 0) == 1;
    }
  }

  /** The digits from `d` on are zeros. */
  predicate ZerosFrom(s: seq<nat>, d: nat) {
    forall j | d <= j < |s| :: s[j] == 48
  }

  lemma AllBut(s: seq<nat>, t: seq<nat>, c: nat, d: nat)
    requires s == t + [c] && d <= |t|
    ensures ZerosFrom(s, d) <==> c == 48 && ZerosFrom(t, d)
  {
    assert s[|t|] == c;
    assert forall j | 0 <= j < |t| :: s[j] == t[j];
  }

  /** All digits from `d` on are zero exactly if nothing is left below. */
  lemma {:induction false} TrailingZeros(x: nat, w: nat, d: nat)
    requires d <= w
    ensures x % Pow(10, w - d) == 0 <==> ZerosFrom(Digits(x, w), d)
  {
    if d == w {
      assert Pow(10, 0) == 1;
    } else {
      TrailingZeros(x / 10, w - 1, d);
      DivDiv(x, 10, Pow(10, w - 1 - d));
      AllBut(Digits(x, w), Digits(x / 10, w - 1), 48 + x % 10, d);
    }
  }

  /** The window split at the limb of the digit: above it, the limb, below it. */
  lemma {:induction false} SplitWindow(ds: seq<nat>, k: nat)
    requires Limbs(ds) && k < |ds|
    ensures var w := Pow(LIMB, |ds| - 1 - k);
            && Numeral(LIMB, ds[k + 1..]) < w
            && Numeral(LIMB, ds) == (Numeral(LIMB, ds[..k]) * LIMB + ds[k]) * w + Numeral(LIMB, ds[k + 1..])
  {
    assert ds == ds[..k + 1] + ds[k + 1..] && ds[..k + 1] == ds[..k] + [ds[k]];
    NumeralSplit(LIMB, ds[..k + 1], ds[k + 1..]);
    NumeralAppend(LIMB, ds[..k], ds[k]);
    NumeralBound(LIMB, ds[k + 1..]);
  }

  /** The code's decision: the digit after the kept ones, the parity of the last kept one, what the limb still holds,
      and whether any lower limb follows. */
  predicate Up(digit: nat, odd: bool, limbRest: nat, more: bool) {
    digit > 5 || (digit == 5 && (odd || limbRest > 0 || more))
  }

  /** Adding half a unit on that decision and truncating rounds half to even, unless an exact tie was pushed up because
      zeros followed in lower limbs. The number is `(a * LIMB + x) * w + low`, the digit that of `u * w`. */
  lemma {:induction false} Decision(a: nat, x: nat, w: nat, low: nat, u: nat, more: bool)
    requires w > 0 && u > 0 && low < w && LIMB % (10 * u) == 0 && x < LIMB && (low > 0 ==> more)
    ensures 10 * (u * w) > 0
    ensures var n := (a * LIMB + x) * w + low; var g := 10 * (u * w);
            var odd := n / g % 2 == 1;
            (n + if Up(x / u % 10, odd, x % u, more) then 5 * (u * w) else 0) / g == HalfEven(n, g) <==>
            !(n % g == 5 * (u * w) && !odd && more)
  {
    var m := u * w;
    Positive(u, w);
    var v := a * LIMB + x;
    var n := v * w + low;
    DivUnique(n, w, v, low);
    DivDiv(n, w, 10 * u);
    Assoc(10, u, w);
    assert w * (10 * u) == 10 * m;
    TensDigit(a, x, u);
    RemainderDigit(x / u % 10, x % u, w, low, u);
    HalfUp(n, m, x / u % 10, x % u * w + low, x % u, low, more);
  }

  lemma {:induction false} TensDigit(a: nat, x: nat, u: nat)
    requires u > 0 && LIMB % (10 * u) == 0
    ensures (a * LIMB + x) % (10 * u) == x / u % 10 * u + x % u
    ensures (a * LIMB + x) / (10 * u) == a * (LIMB / (10 * u)) + x / (10 * u)
  {
    var t := LIMB / (10 * u);
    assert LIMB == t * (10 * u);
    Assoc(a, t, 10 * u);
    DivDiv(x, u, 10);
    assert u * 10 == 10 * u;
    assert x == x / (10 * u) * (10 * u) + x % (10 * u);
    Distrib(a * t, x / (10 * u), 10 * u);
    DivUnique(a * LIMB + x, 10 * u, a * t + x / (10 * u), x % (10 * u));
  }

  lemma {:induction false} RemainderDigit(digit: nat, rest: nat, w: nat, low: nat, u: nat)
    requires w > 0 && u > 0 && low < w && rest < u
    ensures (digit * u + rest) * w + low == digit * (u * w) + (rest * w + low)
    ensures rest * w + low < u * w && (rest * w + low == 0 <==> rest == 0 && low == 0)
  {
    Distrib(digit * u, rest, w);
    Assoc(digit, u, w);
    MulMono(w, rest + 1, u);
    Distrib(rest, 1, w);
    if rest > 0 { Positive(rest, w); } else { assert 0 * w == 0; }
  }

  lemma {:induction false} HalfUp(n: nat, m: nat, digit: nat, s: nat, rest: nat, low: nat, more: bool)
    requires m > 0 && s < m && n % (10 * m) == digit * m + s && digit < 10
    requires (s == 0 <==> rest == 0 && low == 0) && (low > 0 ==> more)
    ensures var odd := n / (10 * m) % 2 == 1;
            (n + if Up(digit, odd, rest, more) then 5 * m else 0) / (10 * m) == HalfEven(n, 10 * m) <==>
            !(n % (10 * m) == 5 * m && !odd && more)
  {
    var g := 10 * m;
    var q, r := n / g, n % g;
    CompareHalf(digit, m, s);
    if r >= 5 * m {
      assert n + 5 * m == (q + 1) * g + (r - 5 * m);
      DivUnique(n + 5 * m, g, q + 1, r - 5 * m);
    }
  }

  lemma {:induction false} CompareHalf(digit: nat, m: nat, s: nat)
    requires s < m && digit < 10
    ensures digit * m + s >= 5 * m <==> digit >= 5
    ensures digit * m + s == 5 * m <==> digit == 5 && s == 0
  {
    if digit < 5 {
      MulMono(m, digit, 4);
    } else if digit > 5 {
      MulMono(m, 6, digit);
    }
  }

  /** The quotient by the next place, where the last kept digit shows. */
  lemma {:induction false} KeptQuotient(a: nat, x: nat, w: nat, low: nat, u: nat)
    requires w > 0 && u > 0 && low < w && LIMB % (10 * u) == 0
    ensures 10 * (u * w) > 0 && ((a * LIMB + x) * w + low) / (10 * (u * w)) == a * (LIMB / (10 * u)) + x / (10 * u)
  {
    Positive(u, w);
    var v := a * LIMB + x;
    DivUnique(v * w + low, w, v, low);
    DivDiv(v * w + low, w, 10 * u);
    Assoc(10, u, w);
    TensDigit(a, x, u);
  }

  lemma {:induction false} PlaceOfDigit(i: nat)
    requires i < 9
    ensures LIMB % (10 * Pow(10, i)) == 0 && 10 * Pow(10, i) == Pow(10, i + 1)
    ensures i < 8 ==> LIMB / (10 * Pow(10, i)) % 2 == 0
    ensures i == 8 ==> 10 * Pow(10, i) == LIMB
  {
    LimbPower(1);
    assert Pow(LIMB, 0) == 1 && Pow(LIMB, 1) == LIMB;
    PowAdd(10, 8 - i, i + 1);
    Multiple(Pow(10, 8 - i), Pow(10, i + 1));
  }

  lemma {:induction false} ParityOfSum(a: nat, t: nat, y: nat)
    requires t % 2 == 0
    ensures (a * t + y) % 2 == y % 2
  {
    var h := t / 2;
    assert a * t == 2 * (a * h);
  }

  lemma {:induction false} LastParity(ds: seq<nat>)
    requires ds != []
    ensures Numeral(LIMB, ds) % 2 == Last(ds) % 2
  {
    ParityOfSum(Numeral(LIMB, ds[..|ds| - 1]), LIMB, Last(ds));
  }

  /** Where the code looks for the parity of the last kept digit: one digit to the left, in the limb above if
      need be. */
  lemma {:induction false} ParityShown(ds: seq<nat>, k: nat, i: nat)
    requires Limbs(ds) && 0 < k < |ds| && i < 9
    ensures var g := 10 * (Pow(10, i) * Pow(LIMB, |ds| - 1 - k));
            g > 0 && Numeral(LIMB, ds) / g % 2 == if i == 8 then ds[k - 1] % 2 else ds[k] / Pow(10, i + 1) % 2
  {
    SplitWindow(ds, k);
    KeptParity(Numeral(LIMB, ds[..k]), ds[k], Pow(LIMB, |ds| - 1 - k), Numeral(LIMB, ds[k + 1..]), i);
    LastParity(ds[..k]);
  }

  lemma {:induction false} KeptParity(a: nat, x: nat, w: nat, low: nat, i: nat)
    requires low < w && x < LIMB && i < 9
    ensures var g := 10 * (Pow(10, i) * w);
            g > 0 && ((a * LIMB + x) * w + low) / g % 2 == if i == 8 then a % 2 else x / Pow(10, i + 1) % 2
  {
    PlaceOfDigit(i);
    KeptQuotient(a, x, w, low, Pow(10, i));
    QuotientParity(a, x, i);
  }

  lemma {:induction false} QuotientParity(a: nat, x: nat, i: nat)
    requires x < LIMB && i < 9
    ensures var g := 10 * Pow(10, i); (a * (LIMB / g) + x / g) % 2 == if i == 8 then a % 2 else x / g % 2
  {
    PlaceOfDigit(i);
    if i == 8 {
      DivUnique(x, LIMB, 0, x);
    } else {
      ParityOfSum(a, LIMB / (10 * Pow(10, i)), x / (10 * Pow(10, i)));
    }
  }

  /** The digits of a limb around the one of `10^i`, written out. */
  method ReadLimb(x: nat, ghost i: nat) returns (buf: array<nat>)
    requires x < LIMB && i < 9
    ensures fresh(buf) && buf.Length == 9 && buf[8 - i] == 48 + x / Pow(10, i) % 10
    ensures i < 8 ==> buf[7 - i] % 2 == x / Pow(10, i + 1) % 2
    ensures ZerosFrom(buf[..], 9 - i) <==> x % Pow(10, i) == 0
  {
    buf := new nat[9];
    var p := Wuint9(buf, 0, x);
    Readout(x, buf[..], |buf[..]|, i);
  }

  lemma {:induction false} Readout(x: nat, s: seq<nat>, w: nat, i: nat)
    requires s == Digits(x, w) && i < w
    ensures s[w - 1 - i] == 48 + x / Pow(10, i) % 10
    ensures i < w - 1 ==> s[w - 2 - i] % 2 == x / Pow(10, i + 1) % 2
    ensures ZerosFrom(s, w - i) <==> x % Pow(10, i) == 0
  {
    DigitByPlace(x, w, i);
    if i < w - 1 {
      DigitByPlace(x, w, i + 1);
      ByteParity(x / Pow(10, i + 1));
    }
    ZerosByPlace(x, w, i);
  }

  lemma {:induction false} DigitByPlace(x: nat, w: nat, i: nat)
    requires i < w
    ensures Digits(x, w)[w - 1 - i] == 48 + x / Pow(10, i) % 10
  {
    DigitAt(x, w, w - 1 - i);
  }

  lemma {:induction false} ZerosByPlace(x: nat, w: nat, i: nat)
    requires i <= w
    ensures ZerosFrom(Digits(x, w), w - i) <==> x % Pow(10, i) == 0
  {
    TrailingZeros(x, w, w - i);
  }

  lemma ByteParity(y: int)
    ensures (48 + y % 10) % 2 == y % 2
  {}

  /** Whether a limb from slot `i0` down to the one above the lowest is not zero. */
  method FindBelow(nd: array<nat>, i0: nat, ndlo: nat, ghost hi: nat, ghost k0: nat, ghost ds: seq<nat>)
      returns (more: bool)
    requires nd.Length == SLOTS && Window(nd[..], hi, ds) && k0 < |ds| && i0 == Limb(hi, k0)
    requires ndlo == Limb(hi, |ds| - 1)
    ensures more <==> exists j :: k0 <= j < |ds| - 1 && ds[j] != 0
  {
    var i := i0;
    ghost var k := k0;
    more := false;
    SameEnd(hi, k, |ds| - 1);
    while i != ndlo
      invariant k0 <= k < |ds| && i == Limb(hi, k) && !more && (forall j | k0 <= j < k :: ds[j] == 0)
      invariant i == ndlo <==> k == |ds| - 1
      decreases |ds| - k
    {
      if nd[i] != 0 {
        return true;
      }
      StepBelow(hi, k);
      i, k := Below(i), k + 1;
      SameEnd(hi, k, |ds| - 1);
    }
  }

  /** Whether one of the nine digits after digit `d` is not zero. */
  method FindDigit(buf: array<nat>, d: nat) returns (any: bool)
    requires buf.Length == 9 && d < 9
    ensures any <==> !ZerosFrom(buf[..], d + 1)
  {
    var j := d + 1;
    any := false;
    while j < 9
      invariant d < j <= 9 && !any && forall t | d < t < j :: buf[t] == 48
    {
      if buf[j] != 48 {
        assert buf[..][j] != 48;
        return true;
      }
      j := j + 1;
    }
  }

  /** An exact tie, the last kept digit even, with the digit's limb above the lowest one. */
  predicate TiePushed(ndhi: nat, e: int, ds: seq<nat>)
    requires Inside(ndhi, e, ds) && Weight(ndhi, e, ds) > 0
  {
    var w := Weight(ndhi, e, ds);
    LimbOf(ndhi, e) < |ds| - 1 && Numeral(LIMB, ds) % (10 * w) == 5 * w && Numeral(LIMB, ds) / (10 * w) % 2 == 0
  }

  /** The decision of `nd_round` for the digit of `10^e`: whether half a unit is added. */
  method RoundsUp(nd: array<nat>, ndlo: nat, ndhi: nat, e: int, ghost ds: seq<nat>) returns (up: bool)
    requires nd.Length == SLOTS && Window(nd[..], ndhi, ds) && Inside(ndhi, e, ds) && LimbOf(ndhi, e) > 0
    requires ndlo == Limb(ndhi, |ds| - 1)
    ensures 10 * Weight(ndhi, e, ds) > 0
    ensures up == Up(ds[LimbOf(ndhi, e)] / Pow(10, e % 9) % 10, Numeral(LIMB, ds) / (10 * Weight(ndhi, e, ds)) % 2 == 1,
                     ds[LimbOf(ndhi, e)] % Pow(10, e % 9), LimbOf(ndhi, e) < |ds| - 1)
  {
    var i, r := Place(ndhi, e, ds);
    var d := 8 - r;
    ghost var k := LimbOf(ndhi, e);
    ParityShown(ds, k, e % 9);
    assert nd[i] == ds[k];
    var buf := ReadLimb(nd[i], e % 9);
    if buf[d] < 53 { return false; }
    if buf[d] != 53 { return true; }
    StepAbove(ndhi, k);
    var above := if d > 0 then buf[d - 1] else nd[(i + 1) % SLOTS];
    if above % 2 != 0 { return true; }
    var any := FindDigit(buf, d);
    if any { return true; }
    up := FindBelow(nd, i, ndlo, ndhi, k, ds);
    FiveIsSomething(ds[k], Pow(10, e % 9));
  }

  lemma FiveIsSomething(x: nat, u: nat)
    requires u > 0
    ensures x / u % 10 == 5 ==> x != 0
  {
    if x == 0 { DivUnique(0, u, 0, 0); }
  }

  /** `nd_round`: after it, truncating above the digit of `10^e` rounds the old number half to even -- except for an
      exact tie whose lower limbs are zeros. */
  method NdRound(nd: array<nat>, ndlo: nat, ndhi0: nat, e: int, ghost ds0: seq<nat>)
      returns (ndhi: nat, ghost ds: seq<nat>)
    requires nd.Length == SLOTS && Window(nd[..], ndhi0, ds0) && |ds0| < SLOTS && ndhi0 + 1 < SLOTS
    requires Inside(ndhi0, e, ds0) && LimbOf(ndhi0, e) > 0 && ndlo == Limb(ndhi0, |ds0| - 1)
    modifies nd
    ensures Window(nd[..], ndhi, ds)
    ensures (ndhi == ndhi0 && |ds| == |ds0|) || (ndhi == ndhi0 + 1 && |ds| == |ds0| + 1)
    ensures ds0[0] > 0 || ndhi > ndhi0 ==> ds[0] > 0
    ensures 10 * Weight(ndhi0, e, ds0) > 0
    ensures
      Numeral(LIMB, ds) / (10 * Weight(ndhi0, e, ds0)) == HalfEven(Numeral(LIMB, ds0), 10 * Weight(ndhi0, e, ds0))
      <==> !TiePushed(ndhi0, e, ds0)
  {
    var up := RoundsUp(nd, ndlo, ndhi0, e, ds0);
    ghost var k := LimbOf(ndhi0, e);
    SplitWindow(ds0, k);
    PlaceOfDigit(e % 9);
    LowerLimbs(ds0, k);
    Decision(Numeral(LIMB, ds0[..k]), ds0[k], Pow(LIMB, |ds0| - 1 - k), Numeral(LIMB, ds0[k + 1..]), Pow(10, e % 9),
        k < |ds0| - 1);
    ndhi, ds := ndhi0, ds0;
    if up {
      FiveFits(e % 9);
      ndhi, ds := NdAddM10e(nd, ndhi0, 5, e, ds0);
    }
  }

  lemma {:induction false} FiveFits(i: nat)
    requires i < 9
    ensures 5 * Pow(10, i) < LIMB
  {
    PlaceOfDigit(i);
    PowMono(10, i, 8);
    PlaceOfDigit(8);
  }

  lemma LowerLimbs(ds: seq<nat>, k: nat)
    requires k < |ds|
    ensures Numeral(LIMB, ds[k + 1..]) > 0 ==> k < |ds| - 1
  {}

  /** One half, with a limb of zeros kept below it: an exact tie that should round to 0, and is rounded to 1. */
  lemma {:induction false} TiePushedExample(ds: seq<nat>, e: int)
    requires ds == [0, 500_000_000, 0] && e == -1
    ensures Inside(0, e, ds) && Weight(0, e, ds) > 0 && TiePushed(0, e, ds)
    ensures
      var n, w := Numeral(LIMB, ds), Weight(0, e, ds);
      HalfEven(n, 10 * w) == 0 && (n + 5 * w) / (10 * w) == 1
  {
    PlaceOfDigit(8);
    assert Pow(LIMB, 0) == 1 && Pow(LIMB, 1) == LIMB;
    NumeralAppend(LIMB, [], 0);
    NumeralAppend(LIMB, [0], 500_000_000);
    NumeralAppend(LIMB, [0, 500_000_000], 0);
    assert [] + [0] == [0] && [0] + [500_000_000] == [0, 500_000_000] && [0, 500_000_000] + [0] == ds;
    var w := Weight(0, e, ds);
    assert w == 100_000_000 * LIMB && Numeral(LIMB, ds) == 5 * w;
    DivUnique(5 * w, 10 * w, 0, 5 * w);
    DivUnique(5 * w + 5 * w, 10 * w, 1, 0);
  }
}
