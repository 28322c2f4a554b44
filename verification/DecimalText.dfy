/** Decimal numerals as bytes, the writers' common ground. */
module DecimalText {
  import opened Exact

  const MINUS: nat := 45
  const POINT: nat := 46

  /** The last `w` decimal digits of `n`, as bytes. */
  function Digits(n: nat, w: nat): (s: seq<nat>)
    ensures |s| == w
  {
    if w == 0 then [] else Digits(n / 10, w - 1) + [48 + n % 10]
  }

  /** The number of decimal digits of `n`; zero has one. */
  function Len(n: nat): (l: nat)
    ensures l > 0
  {
    if n < 10 then 1 else 1 + Len(n / 10)
  }

  function Numerals(n: nat): seq<nat> { Digits(n, Len(n)) }

  function Zeros(n: nat): (s: seq<nat>)
    ensures |s| == n
  {
    if n == 0 then [] else Zeros(n - 1) + [48]
  }

  /** `r / 10^prec` in positional notation, with `prec` decimals. */
  function Fixed(r: nat, prec: nat): seq<nat> {
    Numerals(r / Pow(10, prec)) + if prec > 0 then [POINT] + Digits(r, prec) else []
  }

  lemma {:induction false} LenBounds(n: nat)
    ensures n < Pow(10, Len(n)) && (n > 0 ==> Pow(10, Len(n) - 1) <= n)
  {
    if n >= 10 {
      LenBounds(n / 10);
    }
  }

  lemma {:induction false} LenUnique(n: nat, l: nat)
    requires l > 0 && n < Pow(10, l) && (l == 1 || Pow(10, l - 1) <= n)
    ensures Len(n) == l
  {
    LenBounds(n);
    if Len(n) < l {
      PowMono(10, Len(n), l - 1);
      assert false;
    } else if l < Len(n) {
      PowMono(10, l, Len(n) - 1);
      assert false;
    }
  }

  lemma LastDigit(a: nat, b: nat, p: nat)
    ensures (a * (10 * p) + b) / 10 == a * p + b / 10 && (a * (10 * p) + b) % 10 == b % 10
  {
    Assoc(a, p, 10);
    DivUnique(a * (10 * p) + b, 10, a * p + b / 10, b % 10);
  }

  lemma {:induction false} DigitsConcat(a: nat, b: nat, v: nat, w: nat)
    requires b < Pow(10, w)
    ensures Digits(a * Pow(10, w) + b, v + w) == Digits(a, v) + Digits(b, w)
  {
    if w > 0 {
      DigitsConcat(a, b / 10, v, w - 1);
      LastDigit(a, b, Pow(10, w - 1));
    } else {
      assert a * Pow(10, 0) == a;
    }
  }

  lemma {:induction false} DigitsPrefix(n: nat, w: nat, c: nat)
    ensures Digits(n, w + c)[..w] == Digits(n / Pow(10, c), w)
  {
    if c > 0 {
      DigitsPrefix(n / 10, w, c - 1);
      DivDiv(n, 10, Pow(10, c - 1));
    }
  }

  lemma {:induction false} ZeroDigits(w: nat)
    ensures Digits(0, w) == Zeros(w)
  {
    if w > 0 { ZeroDigits(w - 1); }
  }

  /** The numeral of a number written in base 10^9: the top limb, then nine digits a limb. */
  lemma {:induction false} NumeralsConcat(a: nat, b: nat, w: nat)
    requires a > 0 && b < Pow(10, w)
    ensures Numerals(a * Pow(10, w) + b) == Numerals(a) + Digits(b, w)
  {
    var l, n := Len(a), a * Pow(10, w) + b;
    LenBounds(a);
    PowAdd(10, l - 1, w);
    PowAdd(10, l, w);
    MulMono(Pow(10, w), Pow(10, l - 1), a);
    MulMono(Pow(10, w), a + 1, Pow(10, l));
    Distrib(a, 1, Pow(10, w));
    LenUnique(n, l + w);
    DigitsConcat(a, b, l, w);
  }

  lemma {:induction false} DigitsBytes(n: nat, w: nat)
    ensures forall k | 0 <= k < w :: 48 <= Digits(n, w)[k] <= 57
  {
    if w > 0 { DigitsBytes(n / 10, w - 1); }
  }
}
