/** strscan.js: the ring of base-100 digits `strscan_dec` multiplies and divides by 64. */
module DecRing {
  import opened Exact
  import opened Bits
  import opened Positional

  /** What a slot of the ring can hold. */
  type Octet = x: nat | x < 256

  /** The slots of the ring. */
  const RING: nat := 512

  function Prev(i: nat): nat { (i + RING - 1) % RING }

  function Next(i: nat): nat { (i + 1) % RING }

  /** The slot `k` places after `hi`. */
  function Slot(hi: nat, k: nat): nat { (hi + k) % RING }

  /** Slot `hi` and the ones after it, around the end of the ring, hold the digits `ds`. */
  ghost predicate Holds(a: seq<nat>, hi: nat, ds: seq<nat>) {
    && |a| == RING && hi < RING && |ds| <= RING
    && forall k | 0 <= k < |ds| :: a[Slot(hi, k)] == ds[k]
  }

  predicate Base100(ds: seq<nat>) {
    forall k | 0 <= k < |ds| :: ds[k] < 100
  }

  // ----- ring writes -----

  lemma SlotsDistinct(hi: nat, j: nat, k: nat)
    requires hi < RING && j < RING && k < RING && j != k
    ensures Slot(hi, j) != Slot(hi, k)
  {}

  lemma WriteSlot(a: seq<nat>, hi: nat, ds: seq<nat>, k: nat, d: nat)
    requires Holds(a, hi, ds) && k < |ds|
    ensures Holds(a[Slot(hi, k) := d], hi, ds[k := d])
  {
    forall j | 0 <= j < |ds| && j != k
      ensures Slot(hi, j) != Slot(hi, k)
    {
      SlotsDistinct(hi, j, k);
    }
  }

  lemma WriteAfter(a: seq<nat>, hi: nat, ds: seq<nat>, d: nat)
    requires Holds(a, hi, ds) && |ds| < RING
    ensures Holds(a[Slot(hi, |ds|) := d], hi, ds + [d])
  {
    forall j | 0 <= j < |ds|
      ensures Slot(hi, j) != Slot(hi, |ds|)
    {
      SlotsDistinct(hi, j, |ds|);
    }
  }

  lemma WriteBefore(a: seq<nat>, hi: nat, ds: seq<nat>, d: nat)
    requires Holds(a, hi, ds) && |ds| < RING
    ensures Holds(a[Prev(hi) := d], Prev(hi), [d] + ds)
  {
    forall k | 0 <= k < |[d] + ds|
      ensures a[Prev(hi) := d][Slot(Prev(hi), k)] == ([d] + ds)[k]
    {
      if k > 0 {
        assert Slot(Prev(hi), k) == Slot(hi, k - 1);
        SlotsDistinct(Prev(hi), 0, k);
      }
    }
  }

  // ----- multiplying by 64 -----

  /** The quotient by 100 the code computes with a multiplication and a shift. */
  lemma DivideBy100(d: nat)
    requires d < 6400
    ensures (d / 4) * 5243 / 131072 == d / 100
  {
    var q, r := d / 100, d % 100;
    var e := d / 4;
    assert d == 100 * q + r && d == 4 * e + d % 4;
    assert 131072 * q <= e * 5243 < 131072 * (q + 1);
    DivUnique(e * 5243, 131072, q, e * 5243 - 131072 * q);
  }

  lemma MulStep(ds0: seq<nat>, was: seq<nat>, ds: seq<nat>, k: nat, cyIn: nat, cy: nat, d: nat)
    requires k < |was| <= |ds0| && ds == was[k := d] && d + 100 * cy == 64 * ds0[k] + cyIn
    requires Numeral(100, was[k + 1..]) * Pow(100, |ds0| - |was|) + cyIn * Pow(100, |ds0| - k - 1)
        == 64 * Numeral(100, ds0[k + 1..])
    ensures Numeral(100, ds[k..]) * Pow(100, |ds0| - |ds|) + cy * Pow(100, |ds0| - k) == 64 * Numeral(100, ds0[k..])
  {
    var t, p, q := Numeral(100, was[k + 1..]), Pow(100, |ds0| - |was|), Pow(100, |ds0| - k - 1);
    assert ds[k..] == [d] + was[k + 1..] && ds0[k..] == [ds0[k]] + ds0[k + 1..];
    NumeralPrepend(100, d, was[k + 1..]);
    NumeralPrepend(100, ds0[k], ds0[k + 1..]);
    PowAdd(100, |was| - k - 1, |ds0| - |was|);
    Assoc(d, Pow(100, |was| - k - 1), p);
    Distrib(d * Pow(100, |was| - k - 1), t, p);
    CarryStep(d, cy, ds0[k], cyIn, q);
  }

  lemma CarryStep(d: nat, cy: nat, was: nat, cyIn: nat, q: nat)
    requires d + 100 * cy == 64 * was + cyIn
    ensures d * q + cy * (100 * q) == 64 * (was * q) + cyIn * q
  {
    Assoc(cy, 100, q);
    Distrib(d, 100 * cy, q);
    Distrib(64 * was, cyIn, q);
    Assoc(64, was, q);
  }

  /** What the inner loop has done when the digits from `k` on are multiplied: the carry is due at digit `k - 1`. */
  ghost predicate Multiplied(ds0: seq<nat>, ds: seq<nat>, k: nat, cy: nat) {
    && k <= |ds| <= |ds0| && Base100(ds) && cy < 64 && ds[..k] == ds0[..k]
    && Numeral(100, ds[k..]) * Pow(100, |ds0| - |ds|) + cy * Pow(100, |ds0| - k) == 64 * Numeral(100, ds0[k..])
  }

  lemma MultipliedStep(ds0: seq<nat>, ds: seq<nat>, k: nat, cyIn: nat, cy: nat, d: nat)
    requires Multiplied(ds0, ds, k + 1, cyIn) && Base100(ds0) && d + 100 * cy == 64 * ds0[k] + cyIn && d < 100
    ensures Multiplied(ds0, ds[k := d], k, cy)
  {
    MulStep(ds0, ds, ds[k := d], k, cyIn, cy, d);
    assert ds[..k + 1][..k] == ds[..k] && ds0[..k + 1][..k] == ds0[..k];
  }

  lemma MultipliedTrim(ds0: seq<nat>, ds: seq<nat>, k: nat, cy: nat)
    requires Multiplied(ds0, ds, k, cy) && k + 1 == |ds| && ds[k] == 0
    ensures Multiplied(ds0, ds[..k], k, cy)
  {
    assert ds[k..] == [0] && ds[..k][k..] == [] && ds[..k][..k] == ds[..k];
    NumeralAppend(100, [], 0);
    assert [] + [0] == [0];
    assert 0 * Pow(100, |ds0| - |ds|) == 0 && 0 * Pow(100, |ds0| - k) == 0;
  }

  lemma HoldsPrefix(a: seq<nat>, hi: nat, ds: seq<nat>, k: nat)
    requires Holds(a, hi, ds) && k <= |ds|
    ensures Holds(a, hi, ds[..k])
  {}

  /** The inner loop: every digit times 64 from the right, dropping zeros that end the number. */
  method MulDigits(xi: array<Octet>, hi: nat, lo0: nat, ghost ds0: seq<nat>)
      returns (lo: nat, cy: nat, ghost ds: seq<nat>)
    requires xi.Length == RING && Holds(xi[..], hi, ds0) && Base100(ds0) && 0 < |ds0| < RING && lo0 == Slot(hi, |ds0|)
    modifies xi
    ensures Holds(xi[..], hi, ds) && 0 < |ds| && lo == Slot(hi, |ds|) && Multiplied(ds0, ds, 0, cy)
    ensures 64 * ds0[0] <= cy * 100 + ds[0] < 64 * ds0[0] + 64
  {
    ds, lo, cy := ds0, lo0, 0;
    var i := Prev(lo);
    PrevSlot(hi, |ds0|);
    ghost var k := |ds0| - 1;
    MultipliedStart(ds0);
    while true
      invariant 0 <= k < |ds| && i == Slot(hi, k) && lo == Slot(hi, |ds|)
      invariant Holds(xi[..], hi, ds) && Multiplied(ds0, ds, k + 1, cy)
      decreases k
    {
      var d;
      d, cy, ds := MulDigit(xi, i, cy, hi, ds0, ds, k);
      FirstSlot(hi, k);
      if i == hi { break; }
      lo, ds := TrimZero(xi, lo, i, d, hi, ds0, ds, k, cy);
      PrevSlot(hi, k);
      i := Prev(i);
      k := k - 1;
    }
  }

  /** A zero that ends the number is dropped. */
  method TrimZero(xi: array<Octet>, lo0: nat, i: nat, d: nat, ghost hi: nat, ghost ds0: seq<nat>, ghost was: seq<nat>,
      ghost k: nat, ghost cy: nat)
      returns (lo: nat, ghost ds: seq<nat>)
    requires xi.Length == RING && Holds(xi[..], hi, was) && |was| < RING && lo0 == Slot(hi, |was|) && i == Slot(hi, k)
    requires 0 < k < |was| && was[k] == d && Multiplied(ds0, was, k, cy)
    ensures Holds(xi[..], hi, ds) && lo == Slot(hi, |ds|) && k <= |ds| < RING && Multiplied(ds0, ds, k, cy)
    ensures ds[..k] == was[..k]
  {
    lo, ds := lo0, was;
    PrevSlot(hi, |ds|);
    if k != |ds| - 1 { SlotsDistinct(hi, k, |ds| - 1); }
    if d == 0 && i == Prev(lo) {
      MultipliedTrim(ds0, ds, k, cy);
      HoldsPrefix(xi[..], hi, ds, k);
      lo, ds := i, ds[..k];
    }
  }

  /** One digit times 64, and the carry. */
  method MulDigit(xi: array<Octet>, i: nat, cyIn: nat, ghost hi: nat, ghost ds0: seq<nat>, ghost was: seq<nat>,
      ghost k: nat)
      returns (d: nat, cy: nat, ghost ds: seq<nat>)
    requires xi.Length == RING && Holds(xi[..], hi, was) && k < |was| && i == Slot(hi, k)
    requires Multiplied(ds0, was, k + 1, cyIn) && Base100(ds0)
    modifies xi
    ensures ds == was[k := d] && Holds(xi[..], hi, ds) && Multiplied(ds0, ds, k, cy)
    ensures d < 100 && d + 100 * cy == 64 * ds0[k] + cyIn
  {
    assert xi[i] == was[k] == ds0[k];
    d := xi[i] * 64 + cyIn;
    DivideBy100(d);
    cy := (d / 4) * 5243 / 131072;
    d := d - cy * 100;
    MultipliedStep(ds0, was, k, cyIn, cy, d);
    WriteSlot(xi[..], hi, was, k, d);
    xi[i] := d;
    ds := was[k := d];
  }

  lemma MultipliedStart(ds: seq<nat>)
    requires Base100(ds)
    ensures Multiplied(ds, ds, |ds|, 0)
  {
    assert ds[|ds|..] == [];
  }

  lemma PrevSlot(hi: nat, k: nat)
    requires hi < RING && 0 < k < RING
    ensures Prev(Slot(hi, k)) == Slot(hi, k - 1)
  {}

  lemma NextSlot(hi: nat, k: nat)
    requires hi < RING && k < RING
    ensures Next(Slot(hi, k)) == Slot(hi, k + 1)
  {}

  lemma FirstSlot(hi: nat, k: nat)
    requires hi < RING && k < RING
    ensures Slot(hi, k) == hi <==> k == 0
  {}

  /** The digits in use, as the code counts them. */
  function Count(hi: nat, lo: nat): nat
    requires hi < RING
  {
    (lo + RING - hi) % RING
  }

  lemma CountSlots(hi: nat, n: nat)
    requires hi < RING && n < RING
    ensures Count(hi, Slot(hi, n)) == n
  {}

  /** A digit string the loops work on: not empty, short of the ring, digits in range, none leading zero. */
  ghost predicate Number(a: seq<nat>, hi: nat, lo: nat, ds: seq<nat>) {
    Holds(a, hi, ds) && Base100(ds) && 0 < |ds| <= RING && ds[0] > 0 && lo == Slot(hi, |ds|)
  }

  /** `ds * 100^grow == ds0 * 64^m`. */
  ghost predicate Scaled(ds0: seq<nat>, m: nat, ds: seq<nat>, grow: nat) {
    Numeral(100, ds) * Pow(100, grow) == Numeral(100, ds0) * Pow(64, m)
  }

  lemma ScaledStep(ds0: seq<nat>, m: nat, was: seq<nat>, grow: nat, ds: seq<nat>, trim: nat)
    requires Scaled(ds0, m, was, grow) && Numeral(100, ds) * Pow(100, trim) == 64 * Numeral(100, was)
    ensures Scaled(ds0, m + 1, ds, grow + trim)
  {
    var g := Pow(100, grow);
    PowAdd(100, trim, grow);
    Assoc(Numeral(100, ds), Pow(100, trim), g);
    Assoc(64, Numeral(100, was), g);
    Assoc(64, Numeral(100, ds0), Pow(64, m));
    Assoc(Numeral(100, ds0), 64, Pow(64, m));
  }

  /** Putting the carry in front, and dropping a last zero, of the multiplied digits. */
  lemma {:induction false} CarryInFront(ds0: seq<nat>, ds: seq<nat>, cy: nat, out: seq<nat>, trim: nat)
    requires Multiplied(ds0, ds, 0, cy) && 0 < |ds|
    requires cy == 0 ==> out == ds && trim == |ds0| - |ds|
    requires cy > 0 && ds[|ds| - 1] == 0 ==> out == [cy] + ds[..|ds| - 1] && trim == |ds0| - |ds| + 1
    requires cy > 0 && ds[|ds| - 1] != 0 ==> out == [cy] + ds && trim == |ds0| - |ds|
    ensures Numeral(100, out) * Pow(100, trim) == 64 * Numeral(100, ds0)
  {
    assert ds[0..] == ds && ds0[0..] == ds0;
    var t := |ds0| - |ds|;
    if cy > 0 {
      NumeralPrepend(100, cy, ds);
      PowAdd(100, |ds|, t);
      Assoc(cy, Pow(100, |ds|), Pow(100, t));
      Distrib(cy * Pow(100, |ds|), Numeral(100, ds), Pow(100, t));
      assert Numeral(100, [cy] + ds) * Pow(100, t) == 64 * Numeral(100, ds0);
      if ds[|ds| - 1] == 0 {
        assert ([cy] + ds)[..|ds|] == [cy] + ds[..|ds| - 1];
        NumeralZeroTail(100, [cy] + ds);
        Assoc(Numeral(100, out), 100, Pow(100, t));
      }
    } else {
      assert 0 * Pow(100, |ds0|) == 0;
    }
  }

  /** Putting the carry before the digits, over a zero that ends them if there is one. `full` reports the arm that gives
      up the lowest digit of a full ring: the model stops there. */
  method PutCarry(xi: array<Octet>, hi0: nat, lo0: nat, cy: nat, ghost was: seq<nat>)
      returns (hi: nat, lo: nat, full: bool, ghost ds: seq<nat>)
    requires xi.Length == RING && Holds(xi[..], hi0, was) && Base100(was) && 0 < |was| < RING && lo0 == Slot(hi0, |was|)
    requires 0 < cy < 64
    modifies xi
    ensures full ==> |was| == RING - 1
    ensures !full ==>
        ds == [cy] + (if was[|was| - 1] == 0 then was[..|was| - 1] else was) && |ds| < RING
        && Number(xi[..], hi, lo, ds)
  {
    hi, lo, full, ds := hi0, lo0, false, was;
    PrevSlot(hi, |was|);
    if xi[Prev(lo)] == 0 {
      HoldsPrefix(xi[..], hi, ds, |ds| - 1);
      lo, ds := Prev(lo), ds[..|ds| - 1];
    } else if Prev(hi) == lo {
      WrapFull(hi, |ds|);
      return hi, lo, true, ds;
    }
    WriteBefore(xi[..], hi, ds, cy);
    SameEnd(hi, |ds|);
    hi := Prev(hi);
    xi[hi] := cy;
    ds := [cy] + ds;
  }

  /** One multiplication by 64. */
  method MulOnce(xi: array<Octet>, hi0: nat, lo0: nat, ghost was: seq<nat>)
      returns (hi: nat, lo: nat, carried: bool, full: bool, ghost ds: seq<nat>, ghost trim: nat)
    requires xi.Length == RING && Number(xi[..], hi0, lo0, was) && |was| < RING
    modifies xi
    ensures full ==> |was| == RING - 1
    ensures !full ==> Number(xi[..], hi, lo, ds) && |ds| < RING && |ds| + trim == |was| + if carried then 1 else 0
    ensures !full ==> Numeral(100, ds) * Pow(100, trim) == 64 * Numeral(100, was)
    ensures !full && !carried ==> was[0] < 2 <= ds[0]
  {
    hi, trim, full := hi0, 0, false;
    var cy;
    lo, cy, ds := MulDigits(xi, hi, lo0, was);
    ghost var mid := ds;
    carried := cy > 0;
    if carried {
      hi, lo, full, ds := PutCarry(xi, hi, lo, cy, ds);
      if full { return; }
    }
    trim := |was| - |ds| + if carried then 1 else 0;
    CarryInFront(was, mid, cy, ds, trim);
  }

  /** The loop that multiplies by 64 until nine base-100 digits, or all of them, are integer digits. */
  method MulLoop(xi: array<Octet>, hi0: nat, lo0: nat, idig0: int, ghost ds0: seq<nat>)
      returns (hi: nat, lo: nat, idig: int, ex2: int, full: bool, ghost ds: seq<nat>, ghost m: nat, ghost grow: nat)
    requires xi.Length == RING && Number(xi[..], hi0, lo0, ds0) && |ds0| < RING
    modifies xi
    ensures |ds0| + 9 - idig0 < RING ==> !full
    ensures !full ==> Number(xi[..], hi, lo, ds) && |ds| < RING && ex2 == 0 - 6 * m && (idig >= 9 || idig >= |ds|)
    ensures !full ==> grow == idig - |ds| - (idig0 - |ds0|) && Scaled(ds0, m, ds, grow)
    ensures !full ==> if idig0 >= 9 then m == 0 && idig == idig0 && ds == ds0 else idig <= 9
    ensures idig0 >= 9 ==> !full && hi == hi0 && lo == lo0 && ex2 == 0 && xi[..] == old(xi[..])
  {
    hi, lo, idig, ex2, full, ds, m, grow := hi0, lo0, idig0, 0, false, ds0, 0, 0;
    assert Pow(64, 0) == 1 && Pow(100, 0) == 1;
    CountSlots(hi, |ds|);
    while idig < 9 && idig < Count(hi, lo)
      invariant Number(xi[..], hi, lo, ds) && |ds| < RING && ex2 == 0 - 6 * m && !full && Count(hi, lo) == |ds|
      invariant grow == idig - |ds| - (idig0 - |ds0|) && Scaled(ds0, m, ds, grow)
      invariant idig >= idig0 && (if idig0 >= 9 then m == 0 && idig == idig0 && ds == ds0 else idig <= 9)
      invariant idig0 >= 9 ==> hi == hi0 && lo == lo0 && xi[..] == old(xi[..])
      decreases 9 - idig, if ds[0] < 2 then 1 else 0
    {
      ghost var was := ds;
      var carried;
      ghost var trim;
      ex2 := ex2 - 6;
      hi, lo, carried, full, ds, trim := MulOnce(xi, hi, lo, ds);
      if full { return; }
      if carried { idig := idig + 1; }
      ScaledStep(ds0, m, was, grow, ds, trim);
      m, grow := m + 1, grow + trim;
      CountSlots(hi, |ds|);
    }
  }

  lemma SameEnd(hi: nat, n: nat)
    requires hi < RING && n < RING
    ensures Slot(Prev(hi), n + 1) == Slot(hi, n)
  {}

  lemma WrapFull(hi: nat, n: nat)
    requires hi < RING && n < RING && Prev(hi) == Slot(hi, n)
    ensures n == RING - 1
  {}

  // ----- dividing by 64 -----

  /** What long division has done with the first `k` digits: their quotient is in place, the remainder is carried. */
  ghost predicate Divided(ds0: seq<nat>, ds: seq<nat>, k: nat, rem: nat) {
    && k <= |ds| == |ds0| && rem < 64 && ds[k..] == ds0[k..]
    && Numeral(100, ds0[..k]) == 64 * Numeral(100, ds[..k]) + rem
  }

  lemma DividedStep(ds0: seq<nat>, ds: seq<nat>, k: nat, rem: nat, d: nat)
    requires Divided(ds0, ds, k, rem) && k < |ds| && d == 100 * rem + ds0[k]
    ensures Divided(ds0, ds[k := d / 64], k + 1, d % 64)
  {
    assert ds0[..k + 1][..k] == ds0[..k];
    assert ds[k := d / 64][..k + 1] == ds[..k] + [d / 64];
    assert ds[k := d / 64][k + 1..] == ds[k..][1..] == ds0[k + 1..];
    NumeralAppend(100, ds[..k], d / 64);
  }

  /** Of the first `k` digits the zeros that begin the number are `strip`. */
  ghost predicate Stripped(ds: seq<nat>, k: nat, strip: nat) {
    strip <= k <= |ds| && (forall j | 0 <= j < strip :: ds[j] == 0) && (strip < k ==> ds[strip] > 0)
  }

  /** At most one zero begins the quotient: the first digit's, when it is below 64. */
  ghost predicate Leading(ds0: seq<nat>, ds: seq<nat>, k: nat, strip: nat, rem: nat) {
    && |ds| == |ds0| && k <= |ds| && strip <= 1 && (k == 0 ==> strip == 0)
    && (k > 0 ==> (strip == 1 <==> ds0[0] < 64) && if strip == 1 then ds[0] == 0 else 0 < ds[0] < ds0[0])
    && (strip == 1 && k == 1 ==> rem > 0)
    && (strip == 1 && k > 1 ==> ds[1] > 0)
  }

  lemma LeadingStep(ds0: seq<nat>, ds: seq<nat>, k: nat, strip: nat, rem: nat, d: nat, now: nat)
    requires Leading(ds0, ds, k, strip, rem) && k < |ds| && ds0[0] > 0 && d == 100 * rem + ds0[k]
    requires k == 0 ==> rem == 0
    requires now == if d / 64 == 0 && k == strip then strip + 1 else strip
    ensures Leading(ds0, ds[k := d / 64], k + 1, now, d % 64)
  {}

  lemma EndSlot(hi: nat, k: nat, n: nat)
    requires hi < RING && 0 < k <= n <= RING
    ensures Slot(hi, k) == Slot(hi, n) <==> k == n
  {}

  /** The state of the long division after `k` digits, `strip` zeros of the quotient stepped over. */
  ghost predicate Dividing(ds0: seq<nat>, ds: seq<nat>, k: nat, strip: nat, rem: nat) {
    && ds0 != [] && Divided(ds0, ds, k, rem) && Stripped(ds, k, strip)
    && (Base100(ds0) ==> Base100(ds)) && (ds0[0] > 0 ==> Leading(ds0, ds, k, strip, rem))
    && if k == 0 then rem == 0 else ds[0] == ds0[0] / 64
  }

  lemma DividingStep(ds0: seq<nat>, ds: seq<nat>, k: nat, strip: nat, rem: nat, d: nat)
    requires Dividing(ds0, ds, k, strip, rem) && k < |ds| && d == 100 * rem + ds0[k]
    ensures Dividing(ds0, ds[k := d / 64], k + 1, if d / 64 == 0 && k == strip then strip + 1 else strip, d % 64)
  {
    DividedStep(ds0, ds, k, rem, d);
    if ds0[0] > 0 {
      LeadingStep(ds0, ds, k, strip, rem, d, if d / 64 == 0 && k == strip then strip + 1 else strip);
    }
  }

  /** Outside the `n` slots from `hi` nothing is written. */
  ghost predicate Beyond(a: seq<nat>, b: seq<nat>, hi: nat, n: nat) {
    |a| == |b| == RING && forall j | n <= j < RING :: b[Slot(hi, j)] == a[Slot(hi, j)]
  }

  /** The inner loop: long division by 64 from the left, stepping over the zeros that begin the quotient. */
  method DivDigits(xi: array<Octet>, hi0: nat, lo: nat, ghost ds0: seq<nat>)
      returns (hi: nat, cy: nat, strip: nat, ghost ds: seq<nat>, ghost rem: nat)
    requires xi.Length == RING && Holds(xi[..], hi0, ds0) && ds0 != [] && lo == Slot(hi0, |ds0|)
    modifies xi
    ensures Dividing(ds0, ds, |ds|, strip, rem) && cy == 100 * rem
    ensures hi == Slot(hi0, strip) && Holds(xi[..], hi0, ds) && Beyond(old(xi[..]), xi[..], hi0, |ds0|)
  {
    hi, strip, ds, rem := hi0, 0, ds0, 0;
    var i := hi;
    cy := 0;
    ghost var k := 0;
    FirstSlot(hi, 0);
    while true
      invariant k < |ds0| && i == Slot(hi0, k) && cy == 100 * rem && hi == Slot(hi0, strip)
      invariant Holds(xi[..], hi0, ds) && Dividing(ds0, ds, k, strip, rem) && Beyond(old(xi[..]), xi[..], hi0, |ds0|)
      decreases |ds0| - k
    {
      hi, cy, strip, ds, rem := DivDigit(xi, i, hi, cy, hi0, ds0, ds, k, strip, rem);
      NextSlot(hi0, k);
      i, k := Next(i), k + 1;
      EndSlot(hi0, k, |ds0|);
      if i == lo { break; }
    }
  }

  /** One digit of the long division. */
  method DivDigit(xi: array<Octet>, i: nat, hiIn: nat, cyIn: nat, ghost hi0: nat, ghost ds0: seq<nat>,
      ghost was: seq<nat>,
      ghost k: nat, stripIn: nat, ghost remIn: nat)
      returns (hi: nat, cy: nat, strip: nat, ghost ds: seq<nat>, ghost rem: nat)
    requires xi.Length == RING && Holds(xi[..], hi0, was) && k < |was| && i == Slot(hi0, k)
    requires hiIn == Slot(hi0, stripIn)
    requires Dividing(ds0, was, k, stripIn, remIn) && cyIn == 100 * remIn
    modifies xi
    ensures Holds(xi[..], hi0, ds) && |ds| == |was| && Beyond(old(xi[..]), xi[..], hi0, |was|)
    ensures Dividing(ds0, ds, k + 1, strip, rem) && cy == 100 * rem && hi == Slot(hi0, strip)
  {
    assert xi[i] == ds0[k];
    hi, strip, cy := hiIn, stripIn, cyIn + xi[i];
    DividingStep(ds0, was, k, strip, remIn, cy);
    WriteSlot(xi[..], hi0, was, k, cy / 64);
    forall j | |was| <= j < RING ensures Slot(hi0, j) != i { SlotsDistinct(hi0, j, k); }
    xi[i] := cy / 64;
    ds, rem := was[k := cy / 64], cy % 64;
    cy := 100 * (cy % 64);
    if k != strip { SlotsDistinct(hi0, k, strip); }
    if xi[i] == 0 && i == hi {
      NextSlot(hi0, strip);
      hi, strip := Next(hi), strip + 1;
    }
  }

  /** How many more digits the remainder needs: multiplying by 100 twice over clears its factors of two. */
  function TailLength(rem: nat): nat {
    if rem == 0 then 0 else if rem % 16 == 0 then 1 else if rem % 4 == 0 then 2 else 3
  }

  lemma TailShrinks(rem: nat)
    requires 0 < rem < 64
    ensures TailLength(100 * rem % 64) == TailLength(rem) - 1
    ensures 100 * rem % 64 == 0 ==> 100 * rem / 64 % 4 != 0
    ensures 0 < 100 * rem / 64 < 100
  {
    if rem % 16 == 0 {
      assert rem == 16 || rem == 32 || rem == 48;
    } else if rem % 4 == 0 {
      Fourfold(rem / 4, 100 * rem / 64, 100 * rem % 64);
    } else {
      Onefold(rem, 100 * rem / 64, 100 * rem % 64);
    }
  }

  lemma Fourfold(j: nat, q: nat, r: nat)
    requires j % 4 != 0 && 400 * j == 64 * q + r
    ensures r % 16 == 0 && r != 0
  {
    assert r == 16 * (25 * j - 4 * q);
    assert 25 * j - 4 * q == j + 4 * (6 * j - q);
  }

  lemma Onefold(rem: nat, q: nat, r: nat)
    requires rem % 4 != 0 && 100 * rem == 64 * q + r
    ensures r % 4 == 0 && r % 16 != 0
  {
    assert r == 4 * (25 * rem - 16 * q);
    assert 25 * rem - 16 * q == rem + 4 * (6 * rem - 4 * q);
    var j := 6 * rem - 4 * q;
    assert r == 4 * rem + 16 * j;
    assert 4 * rem == 16 * (rem / 4) + 4 * (rem % 4);
  }

  lemma LastDigitMod4(ds: seq<nat>)
    requires ds != []
    ensures Numeral(100, ds) % 4 == ds[|ds| - 1] % 4
  {
    var x := Numeral(100, ds[..|ds| - 1]);
    assert x * 100 == 4 * (25 * x);
  }

  /** After `app` tail digits `ds` is the quotient of `n0 * 100^app` by 64, and `rem` the remainder. */
  ghost predicate Owes(n0: nat, ds: seq<nat>, app: nat, rem: nat) {
    n0 * Pow(100, app) == 64 * Numeral(100, ds) + rem
  }

  lemma TailStep(n0: nat, ds: seq<nat>, app: nat, rem: nat)
    requires Owes(n0, ds, app, rem)
    ensures Owes(n0, ds + [100 * rem / 64], app + 1, 100 * rem % 64)
  {
    NumeralAppend(100, ds, 100 * rem / 64);
    Assoc(n0, Pow(100, app), 100);
  }

  /** The second inner loop: the digits the remainder still owes. Where the write position meets `hi` the ring is
      `full`, or empty: either way the digit before it takes the lowest bit, and the rest of the remainder is
      given up. */
  method DivTail(xi: array<Octet>, hi: nat, lo0: nat, cy0: nat, ghost n0: nat, ghost ds0: seq<nat>, ghost rem0: nat)
      returns (lo: nat, full: bool, ghost ds: seq<nat>, ghost app: nat)
    requires xi.Length == RING && Holds(xi[..], hi, ds0) && lo0 == Slot(hi, |ds0|)
    requires rem0 < 64 && cy0 == 100 * rem0 && Owes(n0, ds0, 0, rem0)
    modifies xi
    ensures full <==> rem0 > 0 && (ds0 == [] || |ds0| + TailLength(rem0) > RING)
    ensures full ==> lo == hi && (ds0 == [] ==> xi[..] == old(xi[..])[Prev(hi) := Or(old(xi[Prev(hi)]), 1)])
    ensures ds0 != [] ==> xi[hi] == ds0[0]
    ensures !full ==> Holds(xi[..], hi, ds) && lo == Slot(hi, |ds|) && ds0 <= ds && |ds| == |ds0| + app && app <= 3
    ensures !full ==> Owes(n0, ds, app, 0) && (Base100(ds0) ==> Base100(ds)) && Beyond(old(xi[..]), xi[..], hi, |ds|)
    ensures !full && app > 0 ==> rem0 > 0 && Numeral(100, ds) % 4 != 0
    ensures !full && rem0 > 0 ==> app > 0
  {
    lo, full, ds, app := lo0, false, ds0, 0;
    var cy := cy0;
    ghost var rem := rem0;
    while cy > 0
      invariant cy == 100 * rem && rem < 64 && |ds| == |ds0| + app <= RING && lo == Slot(hi, |ds|) && ds0 <= ds
      invariant Holds(xi[..], hi, ds) && (Base100(ds0) ==> Base100(ds)) && Beyond(old(xi[..]), xi[..], hi, |ds|)
      invariant Owes(n0, ds, app, rem) && app + TailLength(rem) == TailLength(rem0)
      invariant app > 0 ==> ds0 != []
      invariant app == 0 ==> xi[..] == old(xi[..])
      invariant app > 0 && rem == 0 ==> Numeral(100, ds) % 4 != 0
      decreases TailLength(rem)
    {
      EmptyOrFull(hi, |ds|);
      FirstDigit(xi[..], hi, ds);
      if hi == lo {
        assert ds0 != [] ==> ds[0] == ds0[0];
        SetLowest(xi, Prev(lo), hi);
        return lo, true, ds, app;
      }
      ds := TailDigit(xi, hi, lo, cy, n0, ds, app, rem);
      lo := Next(lo);
      cy := 100 * (cy % 64);
      app, rem := app + 1, 100 * rem % 64;
    }
    FirstDigit(xi[..], hi, ds);
  }

  lemma FirstDigit(a: seq<nat>, hi: nat, ds: seq<nat>)
    requires Holds(a, hi, ds)
    ensures ds != [] ==> a[hi] == ds[0]
  {
    FirstSlot(hi, 0);
  }

  /** `xi[i] |= 1`, another slot than `hi`. */
  method SetLowest(xi: array<Octet>, i: nat, ghost hi: nat)
    requires xi.Length == RING && hi < RING && i == Prev(hi)
    modifies xi
    ensures xi[..] == old(xi[..])[i := Or(old(xi[i]), 1)] && xi[hi] == old(xi[hi])
  {
    OrTwoBits(xi[i], 1);
    xi[i] := Or(xi[i], 1);
  }

  /** One digit the remainder owes. */
  method TailDigit(xi: array<Octet>, hi: nat, lo: nat, cy: nat, ghost n0: nat, ghost was: seq<nat>, ghost app: nat,
      ghost rem: nat)
      returns (ghost ds: seq<nat>)
    requires xi.Length == RING && Holds(xi[..], hi, was) && |was| < RING && lo == Slot(hi, |was|)
    requires cy == 100 * rem && 0 < rem < 64 && Owes(n0, was, app, rem)
    modifies xi
    ensures ds == was + [100 * rem / 64] && Holds(xi[..], hi, ds) && Next(lo) == Slot(hi, |ds|)
    ensures Owes(n0, ds, app + 1, 100 * rem % 64) && 100 * rem / 64 < 100
    ensures TailLength(100 * rem % 64) == TailLength(rem) - 1
    ensures 100 * rem % 64 == 0 ==> Numeral(100, ds) % 4 != 0
    ensures Beyond(old(xi[..]), xi[..], hi, |ds|)
  {
    TailShrinks(rem);
    TailStep(n0, was, app, rem);
    var d := cy / 64;
    WriteAfter(xi[..], hi, was, d);
    forall j | |was| < j < RING ensures Slot(hi, j) != lo { SlotsDistinct(hi, j, |was|); }
    xi[lo] := d;
    NextSlot(hi, |was|);
    LastDigitMod4(was + [d]);
    ds := was + [d];
  }

  lemma EmptyOrFull(hi: nat, n: nat)
    requires hi < RING && n <= RING
    ensures Slot(hi, n) == hi <==> n == 0 || n == RING
  {}

  // ----- one division -----

  ghost predicate Blank(a: seq<nat>) {
    |a| == RING && forall i | 0 <= i < RING :: a[i] == 0
  }

  /** Every slot but the `n` from `hi` on is zero. */
  ghost predicate Lone(a: seq<nat>, hi: nat, n: nat) {
    |a| == RING && hi < RING && forall j | n <= j < RING :: a[Slot(hi, j)] == 0
  }

  /** The ring of a number that was given up: zero but for the lowest bit before `hi`. */
  ghost predicate OnlyMark(a: seq<nat>, hi: nat) {
    |a| == RING && hi < RING && forall i | 0 <= i < RING :: a[i] == if i == Prev(hi) then 1 else 0
  }

  /** The digits of the window when the write position has met `hi`: the whole ring. */
  ghost function Window(a: seq<nat>, hi: nat): (ds: seq<nat>)
    requires |a| == RING && hi < RING
    ensures Holds(a, hi, ds) && |ds| == RING && Slot(hi, |ds|) == hi
  {
    seq(RING, j requires 0 <= j < RING => a[Slot(hi, j)])
  }

  /** Dropping the zeros that begin a number. */
  lemma {:induction false} DropZeros(a: seq<nat>, hi: nat, ds: seq<nat>, strip: nat)
    requires Holds(a, hi, ds) && Stripped(ds, |ds|, strip)
    ensures Slot(hi, strip) < RING && Holds(a, Slot(hi, strip), ds[strip..])
    ensures Numeral(100, ds) == Numeral(100, ds[strip..])
  {
    forall k | 0 <= k < |ds| - strip ensures a[Slot(Slot(hi, strip), k)] == ds[strip..][k] {
      SlotSum(hi, strip, k);
    }
    ZeroNumeral(100, ds[..strip]);
    assert ds == ds[..strip] + ds[strip..];
    NumeralSplit(100, ds[..strip], ds[strip..]);
    assert 0 * Pow(100, |ds| - strip) == 0;
  }

  lemma SlotSum(hi: nat, j: nat, k: nat)
    ensures Slot(Slot(hi, j), k) == Slot(hi, j + k)
  {}

  lemma {:induction false} Quotient(was: seq<nat>, ds: seq<nat>, strip: nat, rem: nat)
    requires Dividing(was, ds, |ds|, strip, rem)
    ensures Numeral(100, was) == 64 * Numeral(100, ds) + rem && rem == Numeral(100, was) % 64
  {
    assert was[..|ds|] == was && ds[..|ds|] == ds;
    DivUnique(Numeral(100, was), 64, Numeral(100, ds), rem);
  }

  /** What a division does to a number that begins with a digit: the quotient's digits, one fewer if the first was
      small, then those of the remainder. */
  ghost predicate DividedNumber(was: seq<nat>, full: bool, strip: nat, ds: seq<nat>, app: nat) {
    && was != [] && (full ==> (|was| == 1 && was[0] < 64) || |was| + 2 >= RING)
    && (|was| == 1 && was[0] < 64 ==> full)
    && strip == (if was[0] < 64 then 1 else 0)
    && (!full ==>
          && ds != [] && Base100(ds) && ds[0] > 0 && |ds| + strip == |was| + app && Owes(Numeral(100, was), ds, app, 0)
              && app <= 3
          && (app > 0 <==> Numeral(100, was) % 64 != 0) && (app > 0 ==> Numeral(100, ds) % 4 != 0))
  }

  /** The whole part of a division. */
  method DivWhole(xi: array<Octet>, hi0: nat, lo0: nat, ghost was: seq<nat>)
      returns (hi: nat, cy: nat, strip: nat, ghost mid: seq<nat>, ghost rem: nat)
    requires xi.Length == RING && Holds(xi[..], hi0, was) && was != [] && lo0 == Slot(hi0, |was|)
    modifies xi
    ensures Dividing(was, mid, |mid|, strip, rem) && cy == 100 * rem && rem == Numeral(100, was) % 64
    ensures hi == Slot(hi0, strip) && Holds(xi[..], hi, mid[strip..]) && lo0 == Slot(hi, |was| - strip)
    ensures Holds(xi[..], hi0, mid) && Beyond(old(xi[..]), xi[..], hi0, |was|)
    ensures Numeral(100, was) == 64 * Numeral(100, mid) + rem && Owes(Numeral(100, was), mid[strip..], 0, rem)
    ensures strip == 0 ==> mid[0] < was[0]
  {
    hi, cy, strip, mid, rem := DivDigits(xi, hi0, lo0, was);
    Quotient(was, mid, strip, rem);
    DropZeros(xi[..], hi0, mid, strip);
    SlotSum(hi0, strip, |was| - strip);
    assert Pow(100, 0) == 1;
    if strip == 0 { QuotientSmaller(was[0], mid[0]); }
  }

  /** One division by 64: leading zeros may go, tail digits may come. */
  method DivOnce(xi: array<Octet>, hi0: nat, lo0: nat, ghost was: seq<nat>)
      returns (hi: nat, lo: nat, full: bool, strip: nat, ghost ds: seq<nat>, ghost app: nat)
    requires xi.Length == RING && Holds(xi[..], hi0, was) && was != [] && lo0 == Slot(hi0, |was|)
    modifies xi
    ensures Holds(xi[..], hi, ds) && ds != [] && lo == Slot(hi, |ds|) && hi == Slot(hi0, strip)
    ensures strip == 0 ==> ds[0] < was[0]
    ensures Base100(was) && was[0] > 0 ==> DividedNumber(was, full, strip, ds, app)
    ensures Base100(was) && was[0] > 0 && !full && Lone(old(xi[..]), hi0, |was|) ==> Lone(xi[..], hi, |ds|)
    ensures Lone(old(xi[..]), hi0, |was|) && 0 < Numeral(100, was) < 64 ==>
              full && strip == |was| && hi == lo && OnlyMark(xi[..], hi)
  {
    var cy;
    ghost var mid, rem;
    hi, cy, strip, mid, rem := DivWhole(xi, hi0, lo0, was);
    ghost var q, middle := mid[strip..], xi[..];
    lo, full, ds, app := DivTail(xi, hi, lo0, cy, Numeral(100, was), q, rem);
    if was[0] > 0 && Base100(was) { NumberDivided(was, mid, strip, rem, full, ds, app); }
    LoneAfter(old(xi[..]), middle, xi[..], hi0, was, mid, strip, rem, full, |ds|);
    ds := DigitsLeft(xi[..], hi, lo, full, ds);
    assert strip == 0 ==> q[0] == mid[0];
  }

  /** The digits a division leaves, or the whole ring when it gave up or nothing is left. */
  ghost function DigitsLeft(a: seq<nat>, hi: nat, lo: nat, full: bool, ds: seq<nat>): (left: seq<nat>)
    requires |a| == RING && hi < RING
    requires if full then lo == hi else Holds(a, hi, ds) && lo == Slot(hi, |ds|)
    ensures Holds(a, hi, left) && left != [] && lo == Slot(hi, |left|) && left[0] == a[hi]
    ensures !full && ds != [] ==> left == ds
  {
    FirstSlot(hi, 0);
    if full || ds == [] then Window(a, hi) else FirstDigit(a, hi, ds); ds
  }

  lemma QuotientSmaller(x: nat, q: nat)
    requires q == x / 64 && q > 0
    ensures q < x
  {}

  lemma {:induction false} NumberDivided(was: seq<nat>, mid: seq<nat>, strip: nat, rem: nat, full: bool, ds: seq<nat>,
      app: nat)
    requires Dividing(was, mid, |mid|, strip, rem) && Base100(was) && was[0] > 0 && rem == Numeral(100, was) % 64
    requires var q := mid[strip..];
             && (full <==> rem > 0 && (q == [] || |q| + TailLength(rem) > RING))
             && (!full ==>
                 q <= ds && |ds| == |q| + app && app <= 3 && Base100(ds)
                 && Owes(Numeral(100, was), ds, app, 0))
    requires !full ==> (app > 0 <==> rem > 0) && (app > 0 ==> Numeral(100, ds) % 4 != 0)
    ensures DividedNumber(was, full, strip, ds, app)
  {
    if !full && mid[strip..] != [] { assert ds[0] == mid[strip..][0]; }
  }

  /** A blank ring around a number below 64: the division leaves nothing but the remainder. */
  lemma {:induction false} Emptied(a: seq<nat>, b: seq<nat>, hi: nat, was: seq<nat>, ds: seq<nat>, strip: nat, rem: nat)
    requires Lone(a, hi, |was|) && Beyond(a, b, hi, |was|) && Holds(b, hi, ds) && |ds| == |was|
    requires Numeral(100, was) == 64 * Numeral(100, ds) + rem && 0 < Numeral(100, was) < 64 && Stripped(ds, |ds|, strip)
    ensures strip == |was| && rem > 0 && Blank(b)
  {
    ZeroNumeral(100, ds);
    forall i | 0 <= i < RING ensures b[i] == 0 {
      var j := SlotOf(hi, i);
    }
  }

  lemma SlotOf(hi: nat, i: nat) returns (j: nat)
    requires hi < RING && i < RING
    ensures j < RING && Slot(hi, j) == i
  {
    j := if i >= hi then i - hi else i + RING - hi;
  }

  lemma MarkBlank(a: seq<nat>, b: seq<nat>, hi: nat)
    requires Blank(a) && hi < RING && b == a[Prev(hi) := Or(a[Prev(hi)], 1)]
    ensures OnlyMark(b, hi)
  {}

  /** The slots a number leaves behind are zero, as those around it were. */
  lemma {:induction false} StillLone(a: seq<nat>, b: seq<nat>, c: seq<nat>, hi: nat, n: nat, ds: seq<nat>, strip: nat,
      m: nat)
    requires Lone(a, hi, n) && Beyond(a, b, hi, n) && Holds(b, hi, ds) && |ds| == n && Stripped(ds, n, strip)
    requires Slot(hi, strip) < RING && Beyond(b, c, Slot(hi, strip), m) && m >= n - strip
    ensures Lone(c, Slot(hi, strip), m)
  {
    forall j | m <= j < RING ensures c[Slot(Slot(hi, strip), j)] == 0 {
      SlotSum(hi, strip, j);
      if strip + j >= RING { SlotTurn(hi, strip + j); }
    }
  }

  /** What becomes of a number in a ring that is zero around it. */
  lemma {:induction false} LoneAfter(a: seq<nat>, b: seq<nat>, c: seq<nat>, hi: nat, was: seq<nat>, ds: seq<nat>,
      strip: nat, rem: nat, full: bool, m: nat)
    requires Beyond(a, b, hi, |was|) && Holds(b, hi, ds) && |ds| == |was| && Stripped(ds, |ds|, strip)
    requires Numeral(100, was) == 64 * Numeral(100, ds) + rem && Slot(hi, strip) < RING && |c| == RING
    requires !full ==> Beyond(b, c, Slot(hi, strip), m) && m >= |was| - strip
    requires full <==> rem > 0 && (strip == |ds| || |ds| - strip + TailLength(rem) > RING)
    requires full && strip == |ds| ==> c == b[Prev(Slot(hi, strip)) := Or(b[Prev(Slot(hi, strip))], 1)]
    ensures Lone(a, hi, |was|) && !full ==> Lone(c, Slot(hi, strip), m)
    ensures Lone(a, hi, |was|) && 0 < Numeral(100, was) < 64 ==> full && strip == |was| && OnlyMark(c, Slot(hi, strip))
  {
    if Lone(a, hi, |was|) {
      if 0 < Numeral(100, was) < 64 {
        Emptied(a, b, hi, was, ds, strip, rem);
        MarkBlank(b, c, Slot(hi, strip));
      } else if !full {
        StillLone(a, b, c, hi, |was|, ds, strip, m);
      }
    }
  }

  lemma SlotTurn(hi: nat, j: nat)
    requires j >= RING
    ensures Slot(hi, j) == Slot(hi, j - RING)
  {}

  // ----- the dividing loop -----

  ghost predicate SmallTimesPower(n: nat, c: nat, k: nat) {
    0 < c < 64 && n == c * Pow(64, k)
  }

  /** Dividing `n` by 64 over and over stays exact down to a single digit below 64: the next division empties the
      ring, which the code takes for a full one. */
  ghost predicate Empties(n: nat) {
    exists c: nat, k: nat :: SmallTimesPower(n, c, k)
  }

  /** `ds * 64^m == ds0 * 100^g`. */
  ghost predicate Halved(ds0: seq<nat>, m: nat, ds: seq<nat>, g: nat) {
    Numeral(100, ds) * Pow(64, m) == Numeral(100, ds0) * Pow(100, g)
  }

  lemma HalvedStep(ds0: seq<nat>, m: nat, was: seq<nat>, g: nat, ds: seq<nat>, app: nat)
    requires Halved(ds0, m, was, g) && Owes(Numeral(100, was), ds, app, 0)
    ensures Halved(ds0, m + 1, ds, g + app)
  {
    var n0, n1 := Numeral(100, ds0), Numeral(100, ds);
    PowAdd(100, g, app);
    Assoc(n0, Pow(100, g), Pow(100, app));
    Assoc(n1, 64, Pow(64, m));
    MulSwap(Numeral(100, was), Pow(64, m), Pow(100, app), 1);
    assert (64 * n1) * Pow(64, m) == (n1 * 64) * Pow(64, m);
  }

  lemma NumberBounds(ds: seq<nat>)
    requires Base100(ds) && ds != [] && ds[0] > 0
    ensures Pow(100, |ds| - 1) <= Numeral(100, ds) < Pow(100, |ds|)
  {
    NumeralBound(100, ds);
  }

  /** Dividing `m` times by 64 takes at least nine digits for every ten divisions. */
  lemma DivisionsBound(ds0: seq<nat>, ds: seq<nat>, m: nat, g: nat, r: nat)
    requires Base100(ds0) && ds0 != [] && ds0[0] > 0 && Base100(ds) && ds != [] && ds[0] > 0
    requires Halved(ds0, m, ds, g) && |ds| + r == |ds0| + g
    ensures 9 * m < 10 * (r + 1)
  {
    var p := Pow(100, |ds| - 1);
    NumberBounds(ds0);
    NumberBounds(ds);
    PowAdd(100, |ds0|, g);
    MulStrict(Pow(100, g), Numeral(100, ds0), Pow(100, |ds0|));
    MulMono(Pow(64, m), p, Numeral(100, ds));
    PowAdd(100, |ds| - 1, r + 1);
    assert p * Pow(64, m) < p * Pow(100, r + 1);
    if Pow(64, m) >= Pow(100, r + 1) { MulMono(p, Pow(100, r + 1), Pow(64, m)); }
    TenForNine(m, r + 1);
  }

  lemma {:induction false} TenForNine(m: nat, r: nat)
    requires Pow(64, m) < Pow(100, r)
    ensures 9 * m < 10 * r
  {
    SixtyFourToTen();
    PowerChain(m, r, 10, 9);
  }

  lemma {:induction false} PowerChain(m: nat, r: nat, t: nat, n: nat)
    requires Pow(64, m) < Pow(100, r) && Pow(100, n) <= Pow(64, t) && t > 0
    ensures n * m < t * r
  {
    if n * m >= t * r {
      PowMono(100, r * t, n * m);
      PowPow(100, n, m);
      PowBase(Pow(100, n), Pow(64, t), m);
      PowPow(64, t, m);
      PowPow(64, m, t);
      PowPow(100, r, t);
      StrictPower(Pow(64, m), Pow(100, r), t);
    }
  }

  lemma SixtyFourToTen()
    ensures Pow(100, 9) <= Pow(64, 10)
  {
    assert Pow(64, 1) == 64 && Pow(64, 2) == 4096 && Pow(64, 3) == 262144;
    assert Pow(100, 1) == 100 && Pow(100, 2) == 10000 && Pow(100, 3) == 1000000;
    PowAdd(64, 3, 2);
    PowAdd(64, 5, 5);
    PowAdd(100, 3, 3);
    PowAdd(100, 6, 3);
  }

  lemma {:induction false} StrictPower(a: nat, b: nat, n: nat)
    requires a < b && n > 0
    ensures Pow(a, n) < Pow(b, n)
  {
    if n > 1 {
      StrictPower(a, b, n - 1);
      MulMono(a, Pow(a, n - 1), Pow(b, n - 1));
      MulStrict(Pow(b, n - 1), a, b);
    } else {
      assert Pow(a, 0) == 1 && Pow(b, 0) == 1;
    }
  }

  /** Room for the digits the divisions append. */
  predicate DivisionRoom(n: nat, idig: int) {
    idig > 9 ==> n + (7 * (idig - 9) + 10) / 3 + 2 < RING
  }

  /** The state a ring is left in when the divisions have emptied it: nothing but the mark, `k + 1` divisions done, the
      digits all stepped over. */
  ghost predicate Dried(a: seq<nat>, hi: nat, lo: nat, idig: int, ex2: int, n: nat, t: int, ex0: int) {
    OnlyMark(a, hi) && hi == lo && idig == t && ex2 == ex0 + 6 * (SixtyFours(n) + 1)
  }

  /** How often `n` can be divided by 64. */
  function SixtyFours(n: nat): nat {
    if n > 0 && n % 64 == 0 then 1 + SixtyFours(n / 64) else 0
  }

  lemma {:induction false} CountsSixtyFours(n: nat, c: nat, k: nat)
    requires SmallTimesPower(n, c, k)
    ensures SixtyFours(n) == k
    decreases k
  {
    if k == 0 {
      assert n == c * 1;
    } else {
      SixtyFoured(n, c, k);
      CountsSixtyFours(n / 64, c, k - 1);
    }
  }

  lemma {:induction false} SixtyFoured(n: nat, c: nat, k: nat)
    requires k > 0 && SmallTimesPower(n, c, k)
    ensures n > 0 && n % 64 == 0 && n / 64 == c * Pow(64, k - 1)
  {
    Positive(c, Pow(64, k));
    Assoc(c, 64, Pow(64, k - 1));
    Multiple(c * Pow(64, k - 1), 64);
    assert (c * Pow(64, k - 1)) * 64 == (c * 64) * Pow(64, k - 1);
  }

  /** The loop that divides by 64 until nine base-100 digits are integer digits, up to where it gives up a number. */
  method DivLoop(xi: array<Octet>, hi0: nat, lo0: nat, idig0: int, ex0: int, ghost ds0: seq<nat>)
      returns (hi: nat, lo: nat, idig: int, ex2: int, full: bool, ghost ds: seq<nat>, ghost m: nat, ghost g: nat)
    requires xi.Length == RING && Number(xi[..], hi0, lo0, ds0)
    modifies xi
    ensures Holds(xi[..], hi, ds) && ds != [] && lo == Slot(hi, |ds|)
    ensures !full ==> Number(xi[..], hi, lo, ds) && ex2 == ex0 + 6 * m && Halved(ds0, m, ds, g)
    ensures !full ==> idig - |ds| == idig0 - |ds0| - g && idig == if idig0 > 9 then 9 else idig0
    ensures idig0 <= 9 ==> !full && m == 0 && g == 0 && ds == ds0
    ensures idig0 > 9 && DivisionRoom(|ds0|, idig0) ==> (full <==> idig0 - |ds0| >= 9 && Empties(Numeral(100, ds0)))
    ensures full && DivisionRoom(|ds0|, idig0) && Lone(old(xi[..]), hi0, |ds0|) ==>
              Dried(xi[..], hi, lo, idig, ex2, Numeral(100, ds0), idig0 - |ds0|, ex0)
  {
    hi, lo, idig, ex2, full, ds, m, g := hi0, lo0, idig0, ex0, false, ds0, 0, 0;
    ghost var c: nat, k: nat := 0, 0;
    if Empties(Numeral(100, ds0)) {
      c, k :| SmallTimesPower(Numeral(100, ds0), c, k);
    }
    while idig > 9
      invariant Number(xi[..], hi, lo, ds) && !full && Halving(ds0, idig0, ex0, ds, idig, ex2, m, g, c, k)
      invariant idig0 <= 9 ==> m == 0 && g == 0 && ds == ds0 && idig == idig0
      invariant Lone(old(xi[..]), hi0, |ds0|) ==> Lone(xi[..], hi, |ds|)
      decreases idig, ds[0]
    {
      ghost var was, ex := ds, ex2;
      var strip;
      ghost var app;
      LastDivision(ds0, idig0, ex0, was, idig, ex, m, g, c, k);
      ex2 := ex2 + 6;
      hi, lo, full, strip, ds, app := DivOnce(xi, hi, lo, ds);
      if full { EmptiedHere(ds0, was, m, g, idig0, idig); }
      if !full { HalvingStep(ds0, idig0, ex0, was, idig, ex, m, g, c, k, strip, ds, app); }
      idig := idig - strip;
      if full { return; }
      m, g := m + 1, g + app;
    }
  }

  /** Where the divisions stand after `m` of them, `g` digits appended: `c` and `k` tell whether the number is
      `c * 64^k`. */
  ghost predicate Halving(ds0: seq<nat>, idig0: int, ex0: int, ds: seq<nat>, idig: int, ex2: int, m: nat, g: nat,
      c: nat,
      k: nat)
  {
    && ex2 == ex0 + 6 * m && Halved(ds0, m, ds, g) && Growing(ds, g)
    && idig - |ds| == idig0 - |ds0| - g && g <= 3 * m && idig <= idig0 && (idig0 > 9 ==> idig >= 9)
    && (c > 0 ==> g == 0 && m <= k && SmallTimesPower(Numeral(100, ds), c, k - m))
  }

  lemma LastDivision(ds0: seq<nat>, idig0: int, ex0: int, ds: seq<nat>, idig: int, ex2: int, m: nat, g: nat, c: nat,
      k: nat)
    requires Halving(ds0, idig0, ex0, ds, idig, ex2, m, g, c, k)
    requires Base100(ds0) && ds0 != [] && ds0[0] > 0 && Base100(ds) && ds != [] && ds[0] > 0
    ensures c > 0 && k == m ==> |ds| == 1 && ds[0] < 64
    ensures 9 * m < 10 * (idig0 - idig + 1)
    ensures |ds| == 1 && ds[0] < 64 ==> 0 < Numeral(100, ds) < 64
  {
    if c > 0 { SingleDigitLeft(ds, c, k - m); }
    DivisionsBound(ds0, ds, m, g, idig0 - idig);
    if |ds| == 1 { assert Numeral(100, ds) == ds[0]; }
  }

  lemma HalvingStep(ds0: seq<nat>, idig0: int, ex0: int, was: seq<nat>, idig: int, ex2: int, m: nat, g: nat, c: nat,
      k: nat,
      strip: nat, ds: seq<nat>, app: nat)
    requires Halving(ds0, idig0, ex0, was, idig, ex2, m, g, c, k) && idig > 9
    requires Base100(was) && was != [] && was[0] > 0 && DividedNumber(was, false, strip, ds, app)
    ensures Halving(ds0, idig0, ex0, ds, idig - strip, ex2 + 6, m + 1, g + app, c, k)
  {
    HalvedStep(ds0, m, was, g, ds, app);
    GrowingStep(was, g, ds, strip, app);
    if c > 0 {
      SingleDigitLeft(was, c, k - m);
      StillExact(was, ds, c, k - m);
    }
  }

  /** The same loop once a number was given up: it goes on over the whole ring. */
  method DivRest(xi: array<Octet>, hi0: nat, lo0: nat, idig0: int, ex0: int, ghost ds0: seq<nat>)
      returns (hi: nat, lo: nat, idig: int, ex2: int, ghost ds: seq<nat>)
    requires xi.Length == RING && Holds(xi[..], hi0, ds0) && ds0 != [] && lo0 == Slot(hi0, |ds0|)
    modifies xi
    ensures Holds(xi[..], hi, ds) && ds != [] && lo == Slot(hi, |ds|) && idig <= 9
    ensures OnlyMark(old(xi[..]), hi0) && hi0 == lo0 && idig0 <= RING + 9 ==>
              OnlyMark(xi[..], hi) && hi == lo && if idig0 > 9 then idig == idig0 - RING && ex2 == ex0 + 6
                                                  else idig == idig0 && ex2 == ex0
  {
    hi, lo, idig, ex2, ds := hi0, lo0, idig0, ex0, ds0;
    while idig > 9
      invariant Holds(xi[..], hi, ds) && ds != [] && lo == Slot(hi, |ds|) && idig <= idig0
      invariant OnlyMark(old(xi[..]), hi0) && hi0 == lo0 && idig0 <= RING + 9 ==>
                  OnlyMark(xi[..], hi) && hi == lo &&
                  ((idig == idig0 && ex2 == ex0) || (idig0 > 9 && idig == idig0 - RING && ex2 == ex0 + 6))
      decreases idig, ds[0]
    {
      var full, strip;
      ghost var app;
      if OnlyMark(xi[..], hi) && hi == lo { MarkedNumber(xi[..], hi, ds); }
      ex2 := ex2 + 6;
      hi, lo, full, strip, ds, app := DivOnce(xi, hi, lo, ds);
      idig := idig - strip;
    }
  }

  /** The marked ring as a number of 512 digits is one. */
  lemma {:induction false} MarkedNumber(a: seq<nat>, hi: nat, ds: seq<nat>)
    requires OnlyMark(a, hi) && Holds(a, hi, ds) && ds != [] && Slot(hi, |ds|) == hi
    ensures |ds| == RING && Numeral(100, ds) == 1 && Numeral(100, ds[..RING - 1]) == 0 && ds[RING - 1] == 1
  {
    EmptyOrFull(hi, |ds|);
    forall k | 0 <= k < RING ensures ds[k] == if k == RING - 1 then 1 else 0 {
      assert ds[k] == a[Slot(hi, k)];
      BeforeFirst(hi, k);
    }
    ZeroNumeral(100, ds[..RING - 1]);
  }

  lemma BeforeFirst(hi: nat, k: nat)
    requires hi < RING && k < RING
    ensures Slot(hi, k) == Prev(hi) <==> k == RING - 1
  {}

  /** Once the divisions have appended a digit the number never is a multiple of 4 again, nor a single digit. */
  ghost predicate Growing(ds: seq<nat>, g: nat) {
    g > 0 ==> |ds| >= 2 && Numeral(100, ds) % 4 != 0
  }

  lemma GrowingStep(was: seq<nat>, g: nat, ds: seq<nat>, strip: nat, app: nat)
    requires Growing(was, g) && was != [] && strip == (if was[0] < 64 then 1 else 0) && |ds| + strip == |was| + app
    requires (app > 0 <==> Numeral(100, was) % 64 != 0) && (app > 0 ==> Numeral(100, ds) % 4 != 0)
    requires !(|was| == 1 && was[0] < 64)
    ensures Growing(ds, g + app)
  {
    MultipleOf4(Numeral(100, was));
  }

  lemma MultipleOf4(n: nat)
    ensures n % 64 == 0 ==> n % 4 == 0
  {
    if n % 64 == 0 {
      var q := n / 64;
      assert n == (16 * q) * 4;
    }
  }

  lemma StillExact(was: seq<nat>, ds: seq<nat>, c: nat, k: nat)
    requires SmallTimesPower(Numeral(100, was), c, k) && k > 0 && Numeral(100, was) % 64 == 0
    requires Owes(Numeral(100, was), ds, 0, 0) && Numeral(100, was) / 64 == c * Pow(64, k - 1)
    ensures SmallTimesPower(Numeral(100, ds), c, k - 1)
  {
    assert Pow(100, 0) == 1;
    DivUnique(Numeral(100, was), 64, Numeral(100, ds), 0);
  }

  /** At the last division of `c * 64^k` one digit below 64 is left; before, the number is a multiple of 64. */
  lemma SingleDigitLeft(ds: seq<nat>, c: nat, k: nat)
    requires Base100(ds) && ds != [] && ds[0] > 0 && SmallTimesPower(Numeral(100, ds), c, k)
    ensures k == 0 ==> |ds| == 1 && ds[0] == c
    ensures k > 0 ==> Numeral(100, ds) % 64 == 0 && Numeral(100, ds) / 64 == c * Pow(64, k - 1)
  {
    if k == 0 {
      NumberBounds(ds);
      assert c * 1 == c;
    } else {
      Assoc(c, 64, Pow(64, k - 1));
      Multiple(c * Pow(64, k - 1), 64);
      assert (c * Pow(64, k - 1)) * 64 == (c * 64) * Pow(64, k - 1);
    }
  }

  lemma EmptiedHere(ds0: seq<nat>, was: seq<nat>, m: nat, g: nat, idig0: int, idig: int)
    requires Halved(ds0, m, was, g) && Base100(was) && was != [] && was[0] > 0
    requires (|was| == 1 && was[0] < 64) || |was| + 2 >= RING
    requires idig - |was| == idig0 - |ds0| - g && 9 * m < 10 * (idig0 - idig + 1) && g <= 3 * m && 9 < idig <= idig0
    requires g > 0 ==> |was| >= 2
    ensures DivisionRoom(|ds0|, idig0) ==> idig0 - |ds0| >= 9 && Empties(Numeral(100, ds0))
    ensures DivisionRoom(|ds0|, idig0) ==> |was| == 1 && was[0] < 64 && idig - 1 == idig0 - |ds0|
    ensures DivisionRoom(|ds0|, idig0) ==> 0 < Numeral(100, was) < 64 && SixtyFours(Numeral(100, ds0)) == m
  {
    if DivisionRoom(|ds0|, idig0) {
      assert |was| == 1 && g == 0;
      assert Numeral(100, was) == was[0];
      assert Numeral(100, ds0) * 1 == Numeral(100, ds0);
      assert SmallTimesPower(Numeral(100, ds0), was[0], m);
      CountsSixtyFours(Numeral(100, ds0), was[0], m);
    }
  }
}
