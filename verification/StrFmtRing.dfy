/** strfmt.js: the ring of base-10^9 limbs a double is expanded in, and its exact scaling by powers of two
    (`%f` mode). */
module StrFmtRing {
  import opened Exact
  import opened Bits
  import opened Positional

  const LIMB: nat := 1_000_000_000

  const SLOTS: nat := 64

  /** The slot `k` limbs below slot `hi`. The integer limbs are in the slots from `hi` down to 0, the fraction in the
      slots from 63 down. */
  function Limb(hi: nat, k: nat): nat
    requires hi < SLOTS && k <= SLOTS
  {
    (hi + SLOTS - k) % SLOTS
  }

  function Below(i: nat): nat
    requires i < SLOTS
  {
    (i + SLOTS - 1) % SLOTS
  }

  predicate Limbs(ds: seq<nat>) {
    forall k | 0 <= k < |ds| :: ds[k] < LIMB
  }

  /** The limbs from slot `hi` down are `ds`, the most significant first. */
  ghost predicate Window(a: seq<nat>, hi: nat, ds: seq<nat>) {
    && |a| == SLOTS && hi < SLOTS && |ds| <= SLOTS && Limbs(ds)
    && forall k | 0 <= k < |ds| :: a[Limb(hi, k)] == ds[k]
  }

  lemma LimbsDistinct(hi: nat, j: nat, k: nat)
    requires hi < SLOTS && j < SLOTS && k < SLOTS && j != k
    ensures Limb(hi, j) != Limb(hi, k)
  {}

  lemma WriteLimb(a: seq<nat>, hi: nat, ds: seq<nat>, k: nat, d: nat)
    requires Window(a, hi, ds) && k < |ds| && d < LIMB
    ensures Window(a[Limb(hi, k) := d], hi, ds[k := d])
  {
    forall j | 0 <= j < |ds| && j != k
      ensures Limb(hi, j) != Limb(hi, k)
    {
      LimbsDistinct(hi, j, k);
    }
  }

  lemma WriteBelow(a: seq<nat>, hi: nat, ds: seq<nat>, d: nat)
    requires Window(a, hi, ds) && |ds| < SLOTS && d < LIMB
    ensures Window(a[Limb(hi, |ds|) := d], hi, ds + [d])
  {
    forall j | 0 <= j < |ds|
      ensures Limb(hi, j) != Limb(hi, |ds|)
    {
      LimbsDistinct(hi, j, |ds|);
    }
  }

  /** A new top limb, in the slot above. */
  lemma WriteAbove(a: seq<nat>, hi: nat, ds: seq<nat>, d: nat)
    requires Window(a, hi, ds) && |ds| < SLOTS && d < LIMB
    ensures Window(a[(hi + 1) % SLOTS := d], (hi + 1) % SLOTS, [d] + ds)
  {
    var top := (hi + 1) % SLOTS;
    forall k | 0 <= k < |[d] + ds|
      ensures a[top := d][Limb(top, k)] == ([d] + ds)[k]
    {
      if k > 0 {
        assert Limb(top, k) == Limb(hi, k - 1);
        LimbsDistinct(top, 0, k);
      }
    }
  }

  lemma StepBelow(hi: nat, k: nat)
    requires hi < SLOTS && k < SLOTS
    ensures Below(Limb(hi, k)) == Limb(hi, k + 1)
  {}

  // ----- nd_mul2k -----

  /** What a multiplication pass has done when the limbs from `k` on are multiplied by `m`. */
  ghost predicate Multiplied(ds0: seq<nat>, ds: seq<nat>, k: nat, m: nat, c0: nat, carry: nat) {
    && k <= |ds| == |ds0| && ds[..k] == ds0[..k] && carry < m
    && Numeral(LIMB, ds[k..]) + carry * Pow(LIMB, |ds| - k) == m * Numeral(LIMB, ds0[k..]) + c0
  }

  lemma MultipliedStep(ds0: seq<nat>, ds: seq<nat>, k: nat, m: nat, c0: nat, cyIn: nat, d: nat, cy: nat)
    requires Multiplied(ds0, ds, k + 1, m, c0, cyIn) && d + LIMB * cy == m * ds0[k] + cyIn && cy < m
    ensures Multiplied(ds0, ds[k := d], k, m, c0, cy)
  {
    var p := Pow(LIMB, |ds| - k - 1);
    assert ds[k := d][k..] == [d] + ds[k + 1..] && ds0[k..] == [ds0[k]] + ds0[k + 1..];
    assert ds[..k + 1][..k] == ds[..k] && ds0[..k + 1][..k] == ds0[..k];
    NumeralPrepend(LIMB, d, ds[k + 1..]);
    NumeralPrepend(LIMB, ds0[k], ds0[k + 1..]);
    CarryLimb(d, cy, m, ds0[k], cyIn, p);
    Distrib(ds0[k] * p, Numeral(LIMB, ds0[k + 1..]), m);
  }

  lemma CarryLimb(d: nat, cy: nat, m: nat, was: nat, cyIn: nat, p: nat)
    requires d + LIMB * cy == m * was + cyIn
    ensures d * p + cy * (LIMB * p) == m * (was * p) + cyIn * p
  {
    Assoc(cy, LIMB, p);
    Distrib(d, LIMB * cy, p);
    Distrib(m * was, cyIn, p);
    Assoc(m, was, p);
  }

  lemma CarryBound(v: nat, m: nat, c: nat)
    requires v < LIMB && c < m
    ensures (m * v + c) / LIMB < m
  {
    MulMono(m, v + 1, LIMB);
    Distrib(v, 1, m);
    QuotientBound(m * v + c, LIMB, m);
  }

  /** One limb shifted left by `j` bits, the carry OR-ed in. */
  method MulLimb(nd: array<nat>, ndhi: nat, i: nat, j: nat, cyIn: nat, ghost ds0: seq<nat>, ghost was: seq<nat>,
      ghost c0: nat)
      returns (carry: nat, ghost ds: seq<nat>)
    requires nd.Length == SLOTS && i <= ndhi < SLOTS && |ds0| == ndhi + 1 && Limbs(ds0)
    requires Window(nd[..], ndhi, was) && Multiplied(ds0, was, ndhi - i + 1, Pow(2, j), c0, cyIn)
    requires nd[i] == ds0[ndhi - i]
    modifies nd
    ensures Window(nd[..], ndhi, ds) && Multiplied(ds0, ds, ndhi - i, Pow(2, j), c0, carry)
  {
    ghost var k := ndhi - i;
    assert Limb(ndhi, k) == i;
    var val := Or(nd[i] * Pow(2, j), cyIn);
    OrAdds(nd[i], cyIn, j);
    CarryBound(ds0[k], Pow(2, j), cyIn);
    carry := val / LIMB;
    MultipliedStep(ds0, was, k, Pow(2, j), c0, cyIn, val - carry * LIMB, carry);
    WriteLimb(nd[..], ndhi, was, k, val - carry * LIMB);
    nd[i] := val - carry * LIMB;
    ds := was[k := val - carry * LIMB];
  }

  /** One pass of `nd_mul2k`: every limb shifted left by `j` bits, from the lowest up. */
  method MulPass(nd: array<nat>, ndhi: nat, j: nat, carryIn: nat, ghost ds0: seq<nat>)
      returns (carry: nat, ghost ds: seq<nat>)
    requires nd.Length == SLOTS && ndhi < SLOTS && |ds0| == ndhi + 1 && Window(nd[..], ndhi, ds0) && carryIn < Pow(2, j)
    modifies nd
    ensures Window(nd[..], ndhi, ds) && Multiplied(ds0, ds, 0, Pow(2, j), carryIn, carry)
  {
    carry, ds := carryIn, ds0;
    var i := 0;
    assert ds0[ndhi + 1..] == [];
    while i <= ndhi
      invariant 0 <= i <= ndhi + 1 && Window(nd[..], ndhi, ds)
      invariant Multiplied(ds0, ds, ndhi + 1 - i, Pow(2, j), carryIn, carry)
    {
      AtSlot(nd[..], ndhi, ds0, ds, i);
      carry, ds := MulLimb(nd, ndhi, i, j, carry, ds0, ds, carryIn);
      i := i + 1;
    }
  }

  lemma AtSlot(a: seq<nat>, hi: nat, ds0: seq<nat>, ds: seq<nat>, i: nat)
    requires Window(a, hi, ds) && i <= hi && |ds| == |ds0| == hi + 1 && ds[..hi - i + 1] == ds0[..hi - i + 1]
    ensures a[i] == ds0[hi - i]
  {
    assert Limb(hi, hi - i) == i;
    assert ds[..hi - i + 1][hi - i] == ds0[..hi - i + 1][hi - i];
  }

  lemma FullyMultiplied(ds0: seq<nat>, ds: seq<nat>, m: nat, c0: nat, carry: nat)
    requires Multiplied(ds0, ds, 0, m, c0, carry)
    ensures carry == 0 ==> Numeral(LIMB, ds) == m * Numeral(LIMB, ds0) + c0
    ensures Numeral(LIMB, [carry] + ds) == m * Numeral(LIMB, ds0) + c0
  {
    assert ds[0..] == ds && ds0[0..] == ds0;
    NumeralPrepend(LIMB, carry, ds);
    assert 0 * Pow(LIMB, |ds|) == 0;
  }

  method PushTop(nd: array<nat>, ndhi0: nat, carry: nat, ghost was: seq<nat>) returns (ndhi: nat, ghost ds: seq<nat>)
    requires nd.Length == SLOTS && ndhi0 + 1 < SLOTS && |was| < SLOTS && Window(nd[..], ndhi0, was) && carry < LIMB
    modifies nd
    ensures ndhi == ndhi0 + 1 && ds == [carry] + was && Window(nd[..], ndhi, ds)
  {
    WriteAbove(nd[..], ndhi0, was, carry);
    ndhi := ndhi0 + 1;
    nd[ndhi] := carry;
    ds := [carry] + was;
  }

  /** A pass and the limb its carry makes. */
  method MulStep(nd: array<nat>, ndhi0: nat, j: nat, carryIn: nat, ghost ds0: seq<nat>)
      returns (ndhi: nat, ghost ds: seq<nat>)
    requires nd.Length == SLOTS && ndhi0 + 1 < SLOTS && |ds0| == ndhi0 + 1 && Window(nd[..], ndhi0, ds0)
    requires carryIn < Pow(2, j) <= LIMB
    modifies nd
    ensures ndhi0 <= ndhi <= ndhi0 + 1 && |ds| == ndhi + 1 && Window(nd[..], ndhi, ds)
    ensures Numeral(LIMB, ds) == Pow(2, j) * Numeral(LIMB, ds0) + carryIn
    ensures ds0[0] > 0 || ndhi > ndhi0 ==> ds[0] > 0
  {
    var carry;
    carry, ds := MulPass(nd, ndhi0, j, carryIn, ds0);
    ndhi := ndhi0;
    FullyMultiplied(ds0, ds, Pow(2, j), carryIn, carry);
    if carry > 0 {
      ndhi, ds := PushTop(nd, ndhi, carry, ds);
    } else if ds0[0] > 0 {
      LeadingStays(ds0, ds, Pow(2, j), carryIn);
    }
  }

  /** Multiplying without a carry out leaves the top limb as long as it was. */
  lemma LeadingStays(ds0: seq<nat>, ds: seq<nat>, m: nat, c: nat)
    requires |ds| == |ds0| > 0 && Limbs(ds) && Limbs(ds0) && ds0[0] > 0 && m > 0
    requires Numeral(LIMB, ds) == m * Numeral(LIMB, ds0) + c
    ensures ds[0] > 0
  {
    NumeralBound(LIMB, ds0);
    MulMono(Numeral(LIMB, ds0), 1, m);
    if ds[0] == 0 {
      assert ds == [0] + ds[1..];
      NumeralPrepend(LIMB, 0, ds[1..]);
      NumeralBound(LIMB, ds[1..]);
      assert false;
    }
  }

  lemma {:induction false} PowerOf29()
    ensures Pow(2, 29) == 536870912 < LIMB
  {
    assert Pow(2, 1) == 2 && Pow(2, 2) == 4 && Pow(2, 3) == 8;
    PowAdd(2, 3, 3);
    PowAdd(2, 6, 6);
    PowAdd(2, 12, 12);
    PowAdd(2, 24, 3);
    PowAdd(2, 27, 2);
  }

  /** What `nd_mul2k` makes of `v`: the carry comes in with the first pass. */
  function Shifted(v: nat, k: nat, carryIn: nat): nat {
    NonNegative(Pow(2, 29), v);
    NonNegative(Pow(2, k), v);
    if k >= 29 then NonNegative(Pow(2, 29) * v + carryIn, Pow(2, k - 29));
        (Pow(2, 29) * v + carryIn) * Pow(2, k - 29) else Pow(2, k) * v + carryIn
  }

  /** The passes of 29 bits, `t` of them. */
  method MulWords(nd: array<nat>, ndhi0: nat, k0: nat, carryIn: nat, ghost t: nat, ghost ds0: seq<nat>)
      returns (ndhi: nat, k: nat, carry: nat, ghost ds: seq<nat>)
    requires nd.Length == SLOTS && |ds0| == ndhi0 + 1 && Window(nd[..], ndhi0, ds0) && ndhi0 + t < SLOTS
    requires carryIn < Pow(2, Min(k0, 29)) && 29 * t <= k0 < 29 * (t + 1)
    modifies nd
    ensures k == k0 - 29 * t && ndhi0 <= ndhi <= ndhi0 + t && |ds| == ndhi + 1 && Window(nd[..], ndhi, ds)
    ensures carry < Pow(2, k) && Shifted(Numeral(LIMB, ds), k, carry) == Shifted(Numeral(LIMB, ds0), k0, carryIn)
    ensures ds0[0] > 0 || ndhi > ndhi0 ==> ds[0] > 0
  {
    k, carry, ndhi, ds := k0, carryIn, ndhi0, ds0;
    ghost var n := 0;
    assert Pow(2, 0) == 1;
    PowerOf29();
    while k >= 29
      invariant n <= t && k == k0 - 29 * n && ndhi0 <= ndhi <= ndhi0 + n && |ds| == ndhi + 1 && Window(nd[..], ndhi, ds)
      invariant carry < Pow(2, Min(k, 29))
      invariant Shifted(Numeral(LIMB, ds), k, carry) == Shifted(Numeral(LIMB, ds0), k0, carryIn)
      invariant ds0[0] > 0 || ndhi > ndhi0 ==> ds[0] > 0
    {
      ShiftedStep(Numeral(LIMB, ds), k, carry);
      ndhi, ds := MulStep(nd, ndhi, 29, carry, ds);
      carry, k, n := 0, k - 29, n + 1;
    }
  }

  /** `nd_mul2k` in `%f` mode: the integer times `2^k`, plus the carry. */
  method NdMul2k(nd: array<nat>, ndhi0: nat, k0: nat, carryIn: nat, ghost ds0: seq<nat>)
      returns (ndhi: nat, ghost ds: seq<nat>)
    requires nd.Length == SLOTS && |ds0| == ndhi0 + 1 && Window(nd[..], ndhi0, ds0) && ndhi0 + k0 / 29 + 1 < SLOTS
    requires carryIn < Pow(2, Min(k0, 29))
    modifies nd
    ensures ndhi0 <= ndhi < SLOTS && ndhi <= ndhi0 + (k0 + 28) / 29 && |ds| == ndhi + 1 && Window(nd[..], ndhi, ds)
    ensures Numeral(LIMB, ds) == Shifted(Numeral(LIMB, ds0), k0, carryIn)
    ensures ds0[0] > 0 || ndhi > ndhi0 ==> ds[0] > 0
  {
    var k, carry;
    ndhi, k, carry, ds := MulWords(nd, ndhi0, k0, carryIn, k0 / 29, ds0);
    assert Pow(2, 0) == 1;
    if k > 0 {
      SmallShift(k);
      ndhi, ds := MulStep(nd, ndhi, k, carry, ds);
    }
  }

  lemma {:induction false} SmallShift(k: nat)
    requires k < 29
    ensures Pow(2, k) <= LIMB
  {
    PowerOf29();
    PowMono(2, k, 29);
  }

  lemma {:induction false} ShiftedStep(v: nat, k: nat, c: nat)
    requires k >= 29
    ensures Shifted(Pow(2, 29) * v + c, k - 29, 0) == Shifted(v, k, c)
  {
    if k >= 58 {
      TwoShifts(Pow(2, 29) * v + c, 29, k - 58);
    } else {
      assert Shifted(Pow(2, 29) * v + c, k - 29, 0) == Pow(2, k - 29) * (Pow(2, 29) * v + c);
    }
  }

  lemma {:induction false} TwoShifts(x: nat, a: nat, b: nat)
    ensures (Pow(2, a) * x) * Pow(2, b) == x * Pow(2, a + b)
  {
    PowAdd(2, a, b);
    Assoc(x, Pow(2, a), Pow(2, b));
  }
}
