/** When two numbers round alike: the points where the rounding changes are those halfway between
    neighbouring doubles. */
module Midpoints {
  import opened Exact
  import opened Ieee

  /** The double after the one of `u` units; 2^top units after the last. */
  function Next(f: Format, u: nat): nat { u + Pow(2, Ulp(f, u)) }

  lemma {:induction false} NextFits(f: Format, u: nat, v: nat)
    requires Fits(f, u) && Fits(f, v)
    ensures Fits(f, Next(f, u)) && EvenSignificand(f, Next(f, u)) != EvenSignificand(f, u)
    ensures u < v ==> Next(f, u) <= v
  {
    var q := Significand(f, u);
    OneMore(q, Pow(2, Ulp(f, u)));
    Neighbours(f, u, Next(f, u), q, Ulp(f, u));
    if u < v { Within(f, u, v, q, Ulp(f, u)); }
  }

  lemma {:induction false} Neighbours(f: Format, u: nat, w: nat, q: nat, k: nat)
    requires u == q * Pow(2, k) && w == (q + 1) * Pow(2, k)
    requires q < Pow(2, f.bits) && (k == 0 || Pow(2, f.bits - 1) <= q)
    ensures Fits(f, w) && EvenSignificand(f, w) != EvenSignificand(f, u)
  {
    ParityOf(f, u, q, k, q % 2 == 0);
    ParityOf(f, w, q + 1, k, (q + 1) % 2 == 0);
    OneParity(q);
  }

  lemma OneParity(q: nat)
    ensures (q % 2 == 0) != ((q + 1) % 2 == 0)
  {}

  lemma OneMore(q: nat, g: nat)
    ensures q * g + g == (q + 1) * g
  {
    Distrib(q, 1, g);
  }

  lemma {:induction false} ParityOf(f: Format, u: nat, q: nat, k: nat, even: bool)
    requires u == q * Pow(2, k) && q <= Pow(2, f.bits) && (k == 0 || Pow(2, f.bits - 1) <= q)
    requires even == (q % 2 == 0)
    ensures Fits(f, u) && EvenSignificand(f, u) == even
  {
    Parity(f, q, k, even);
  }

  /** `n / d` units lie below the point halfway between `u` and the next double, or on it when a tie goes to `u`. */
  ghost predicate UpTo(f: Format, n: nat, d: nat, u: nat) {
    2 * n < (u + Next(f, u)) * d || (2 * n == (u + Next(f, u)) * d && EvenSignificand(f, u))
  }

  lemma {:induction false} RoundsUpTo(f: Format, n: nat, d: nat, u: nat)
    requires d > 0 && Fits(f, u)
    ensures RoundUnits(f, n, d) <= u <==> UpTo(f, n, d, u)
  {
    var r, v := RoundUnits(f, n, d), Next(f, u);
    RoundUnitsFits(f, n, d);
    NextFits(f, u, r);
    RoundNearest(f, n, d, u);
    RoundNearest(f, n, d, v);
    Between(n, d, r, u, v);
  }

  /** A nearest point `r` is at most `u` just when `n / d` is below the middle of `u` and `v`. */
  lemma {:induction false} Between(n: nat, d: nat, r: nat, u: nat, v: nat)
    requires d > 0 && u < v && (r > u ==> r >= v)
    requires Distance(n, d, r) <= Distance(n, d, u) && Distance(n, d, r) <= Distance(n, d, v)
    ensures 2 * n < (u + v) * d ==> r <= u
    ensures 2 * n > (u + v) * d ==> r >= v
    ensures 2 * n == (u + v) * d ==> Distance(n, d, u) == Distance(n, d, v) == Distance(n, d, r) && (r == u || r == v)
  {
    Distrib(u, v, d);
    MulStrict(d, u, v);
    if r > u { MulMono(d, v, r); } else { MulMono(d, r, u); }
    if v < r { MulStrict(d, v, r); }
    if r < u { MulStrict(d, r, u); }
  }

  /** A point halfway between neighbouring doubles lies between the two numbers, so that they round to
      different ones. */
  ghost predicate Parted(f: Format, n: nat, d: nat, m: nat, c: nat) {
    exists u: nat :: IsValue(f, u) && UpTo(f, n, d, u) != UpTo(f, m, c, u)
  }

  /** Two numbers round to the same double if and only if no such point parts them. */
  lemma {:induction false} SameUnlessParted(f: Format, neg: bool, n: nat, d: nat, m: nat, c: nat)
    requires d > 0 && c > 0
    ensures Round(f, neg, n, d) == Round(f, neg, m, c) <==> !Parted(f, n, d, m, c)
  {
    var r, s := RoundUnits(f, n, d), RoundUnits(f, m, c);
    RoundUnitsFits(f, n, d);
    RoundUnitsFits(f, m, c);
    forall u: nat | IsValue(f, u) ensures (r <= u <==> UpTo(f, n, d, u)) && (s <= u <==> UpTo(f, m, c, u)) {
      RoundsUpTo(f, n, d, u);
      RoundsUpTo(f, m, c, u);
    }
    if r < s && r < Pow(2, f.top) { assert UpTo(f, n, d, r) != UpTo(f, m, c, r); }
    if s < r && s < Pow(2, f.top) { assert UpTo(f, n, d, s) != UpTo(f, m, c, s); }
  }
}
