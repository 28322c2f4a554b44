/** Positional numerals in any base. */
module Positional {
  import opened Exact

  /** The number a digit string denotes, most significant digit first. */
  function Numeral(base: nat, s: seq<nat>): nat {
    if s == [] then 0 else Numeral(base, s[..|s| - 1]) * base + s[|s| - 1]
  }

  lemma NumeralAppend(base: nat, s: seq<nat>, d: nat)
    ensures Numeral(base, s + [d]) == Numeral(base, s) * base + d
  {
    assert (s + [d])[..|s|] == s;
  }

  lemma {:induction false} NumeralSplit(base: nat, s: seq<nat>, t: seq<nat>)
    ensures Numeral(base, s + t) == Numeral(base, s) * Pow(base, |t|) + Numeral(base, t)
  {
    if t == [] {
      assert s + t == s;
    } else {
      var u, d := t[..|t| - 1], t[|t| - 1];
      NumeralSplit(base, s, u);
      assert (s + t)[..|s + t| - 1] == s + u;
      NumeralShift(Numeral(base, s), Pow(base, |u|), Numeral(base, u), base);
    }
  }

  lemma NumeralShift(x: nat, p: nat, y: nat, base: nat)
    ensures (x * p + y) * base == x * (base * p) + y * base
  {
    Distrib(x * p, y, base);
    Assoc(x, p, base);
  }

  lemma NumeralPrepend(base: nat, d: nat, s: seq<nat>)
    ensures Numeral(base, [d] + s) == d * Pow(base, |s|) + Numeral(base, s)
  {
    NumeralSplit(base, [d], s);
    assert [d][..0] == [];
    assert Numeral(base, [d]) == d;
  }

  lemma NumeralZeroTail(base: nat, s: seq<nat>)
    requires s != [] && s[|s| - 1] == 0
    ensures Numeral(base, s) == Numeral(base, s[..|s| - 1]) * base
  {}

  lemma {:induction false} NumeralBound(base: nat, s: seq<nat>)
    requires forall k | 0 <= k < |s| :: s[k] < base
    ensures Numeral(base, s) < Pow(base, |s|)
    ensures s != [] && s[0] > 0 && base > 0 ==> Numeral(base, s) >= Pow(base, |s| - 1)
  {
    if s != [] {
      var t := s[..|s| - 1];
      NumeralBound(base, t);
      MulMono(base, Numeral(base, t) + 1, Pow(base, |t|));
      Distrib(Numeral(base, t), 1, base);
      if t == [] {
        assert Numeral(base, t) * base == 0;
      } else if s[0] > 0 && base > 0 {
        MulMono(base, Pow(base, |t| - 1), Numeral(base, t));
      }
    }
  }

  lemma {:induction false} ZeroNumeral(base: nat, ds: seq<nat>)
    requires base > 0
    ensures Numeral(base, ds) == 0 <==> forall k | 0 <= k < |ds| :: ds[k] == 0
  {
    if ds != [] {
      ZeroNumeral(base, ds[..|ds| - 1]);
      var x := Numeral(base, ds[..|ds| - 1]);
      assert Numeral(base, ds) == x * base + ds[|ds| - 1];
      forall k | 0 <= k < |ds|
        ensures k < |ds| - 1 ==> ds[k] == ds[..|ds| - 1][k]
      {}
    }
  }
}
