/** Exact integer arithmetic under every numeric kernel: powers, bit lengths, division rounded half to even. */
module Exact {

  function Pow(b: nat, e: nat): (r: nat)
    ensures b > 0 ==> r > 0
  {
    if e == 0 then 1 else b * Pow(b, e - 1)
  }

  /** The number of binary digits of `n`. */
  function BitLen(n: nat): nat {
    if n == 0 then 0 else 1 + BitLen(n / 2)
  }

  /** `n / d` rounded to the nearest integer, ties to the even one. */
  function HalfEven(n: nat, d: nat): nat
    requires d > 0
  {
    var q, r := n / d, n % d;
    if 2 * r > d || (2 * r == d && q % 2 == 1) then q + 1 else q
  }

  function Abs(x: int): nat { if x < 0 then -x else x }

  function Max(x: int, y: int): int { if x < y then y else x }

  function Min(x: int, y: int): int { if x < y then x else y }

  // ----- multiplication and division -----

  lemma MulMono(a: nat, x: int, y: int)
    requires x <= y
    ensures a * x <= a * y && x * a <= y * a
  {}

  lemma MulStrict(a: nat, x: int, y: int)
    requires x < y && a > 0
    ensures a * x < a * y && x * a < y * a
  {}

  lemma Assoc(a: int, b: int, c: int)
    ensures (a * b) * c == a * (b * c)
  {}

  lemma Distrib(a: int, b: int, c: int)
    ensures (a + b) * c == a * c + b * c && c * (a + b) == c * a + c * b
  {}

  lemma NonNegative(a: nat, b: nat)
    ensures a * b >= 0
  {}

  lemma Positive(a: nat, b: nat)
    requires a > 0 && b > 0
    ensures a * b > 0
  {}

  /** `n == q * d + r` with `0 <= r < d` determines the quotient and the remainder. */
  lemma DivUnique(n: int, d: int, q: int, r: int)
    requires d > 0 && 0 <= r < d && n == q * d + r
    ensures n / d == q && n % d == r
  {
    var q1, r1 := n / d, n % d;
    assert n == q1 * d + r1;
    if q1 < q {
      MulMono(d, q1 + 1, q);
      assert false;
    } else if q < q1 {
      MulMono(d, q + 1, q1);
      assert false;
    }
  }

  lemma QuotientBound(n: nat, d: nat, x: nat)
    requires d > 0
    ensures x <= n / d <==> x * d <= n
  {
    assert n == n / d * d + n % d;
    if x <= n / d {
      MulMono(d, x, n / d);
    } else {
      MulMono(d, n / d + 1, x);
      Distrib(n / d, 1, d);
    }
  }

  lemma Multiple(q: nat, d: nat)
    requires d > 0
    ensures q * d / d == q && q * d % d == 0
  {
    DivUnique(q * d, d, q, 0);
  }

  lemma DivScale(n: nat, d: nat, c: nat)
    requires d > 0 && c > 0
    ensures d * c > 0 && (n * c) / (d * c) == n / d && (n * c) % (d * c) == (n % d) * c
  {
    MulStrict(c, 0, d);
    MulStrict(c, n % d, d);
    assert n * c == (n / d * d + n % d) * c == (n / d) * (d * c) + (n % d) * c;
    DivUnique(n * c, d * c, n / d, (n % d) * c);
  }

  lemma DivDiv(n: nat, a: nat, b: nat)
    requires a > 0 && b > 0
    ensures a * b > 0 && n / a / b == n / (a * b)
    ensures n % (a * b) == (n / a % b) * a + n % a
  {
    MulStrict(b, 0, a);
    var q := n / a;
    MulMono(a, q % b, b - 1);
    assert n == q * a + n % a;
    assert q == q / b * b + q % b;
    assert n == (q / b * b + q % b) * a + n % a == (q / b) * (a * b) + ((q % b) * a + n % a);
    DivUnique(n, a * b, q / b, (q % b) * a + n % a);
  }

  // ----- powers -----

  lemma {:induction false} PowAdd(b: nat, m: nat, n: nat)
    ensures Pow(b, m + n) == Pow(b, m) * Pow(b, n)
  {
    if m > 0 {
      PowAdd(b, m - 1, n);
      Assoc(b, Pow(b, m - 1), Pow(b, n));
    }
  }

  lemma MulSwap(a: int, b: int, x: int, y: int)
    ensures (a * b) * (x * y) == (a * x) * (b * y)
  {
    assert (a * b) * (x * y) == a * (b * (x * y)) == a * (x * (b * y));
  }

  lemma {:induction false} PowPow(b: nat, m: nat, n: nat)
    ensures Pow(Pow(b, m), n) == Pow(b, m * n)
  {
    if n > 0 {
      PowPow(b, m, n - 1);
      PowAdd(b, m, m * (n - 1));
      assert m + m * (n - 1) == m * n;
    }
  }

  lemma PowMono(b: nat, m: nat, n: nat)
    requires b > 0 && m <= n
    ensures Pow(b, m) <= Pow(b, n)
  {
    PowAdd(b, m, n - m);
    MulMono(Pow(b, m), 1, Pow(b, n - m));
  }

  lemma {:induction false} SmallTens()
    ensures Pow(10, 0) == 1 && Pow(10, 1) == 10 && Pow(10, 2) == 100 && Pow(10, 3) == 1000 && Pow(10, 4) == 10000
  {}

  lemma {:induction false} PowBase(a: nat, b: nat, n: nat)
    requires a <= b
    ensures Pow(a, n) <= Pow(b, n)
  {
    if n > 0 {
      PowBase(a, b, n - 1);
      MulMono(a, Pow(a, n - 1), Pow(b, n - 1));
      MulMono(Pow(b, n - 1), a, b);
    }
  }

  lemma PowStrict(m: nat, n: nat)
    requires m < n
    ensures 2 * Pow(2, m) <= Pow(2, n)
  {
    PowMono(2, m + 1, n);
  }

  // ----- bit lengths -----

  lemma {:induction false} BitLenBounds(n: nat)
    requires n > 0
    ensures BitLen(n) > 0 && Pow(2, BitLen(n) - 1) <= n < Pow(2, BitLen(n))
  {
    if n > 1 {
      BitLenBounds(n / 2);
    }
  }

  lemma BitLenUnique(n: nat, k: nat)
    requires k > 0 && Pow(2, k - 1) <= n < Pow(2, k)
    ensures BitLen(n) == k
  {
    BitLenBounds(n);
    var l := BitLen(n);
    if l < k {
      PowMono(2, l, k - 1);
    } else if k < l {
      PowMono(2, k, l - 1);
    }
  }

  lemma {:induction false} BitLenMono(m: nat, n: nat)
    requires m <= n
    ensures BitLen(m) <= BitLen(n)
  {
    if m > 0 && BitLen(n) < BitLen(m) {
      BitLenBounds(m);
      BitLenBounds(n);
      PowMono(2, BitLen(n), BitLen(m) - 1);
      assert false;
    }
  }

  lemma BitLenScale(n: nat, k: nat)
    requires n > 0
    ensures BitLen(n * Pow(2, k)) == BitLen(n) + k
  {
    BitLenBounds(n);
    var l := BitLen(n);
    PowAdd(2, l - 1, k);
    PowAdd(2, l, k);
    MulMono(Pow(2, k), Pow(2, l - 1), n);
    MulStrict(Pow(2, k), n, Pow(2, l));
    BitLenUnique(n * Pow(2, k), l + k);
  }

  lemma {:induction false} BitLenShift(n: nat, k: nat)
    ensures BitLen(n / Pow(2, k)) == Max(0, BitLen(n) - k)
  {
    if k == 0 {
      assert n / Pow(2, 0) == n;
    } else {
      var p := Pow(2, k - 1);
      assert Pow(2, k) == 2 * p;
      DivDiv(n, 2, p);
      BitLenShift(n / 2, k - 1);
      assert n > 0 ==> BitLen(n) == 1 + BitLen(n / 2);
    }
  }

  // ----- rounding half to even -----

  /** No multiple of `d` is closer to `n` than the rounded one, and only an even quotient wins a tie. */
  lemma HalfEvenNearest(n: nat, d: nat, j: int)
    requires d > 0
    ensures Abs(n - HalfEven(n, d) * d) <= Abs(n - j * d)
    ensures Abs(n - HalfEven(n, d) * d) == Abs(n - j * d) && j != HalfEven(n, d) ==> HalfEven(n, d) % 2 == 0
  {
    var q, r := n / d, n % d;
    assert n == q * d + r;
    assert (q + 1) * d == q * d + d;
    if j <= q {
      MulMono(d, j, q);
      if j < q {
        MulMono(d, j + 1, q);
        assert (j + 1) * d == j * d + d;
      }
    } else {
      MulMono(d, q + 1, j);
      if q + 1 < j {
        MulMono(d, q + 2, j);
        assert (q + 2) * d == q * d + 2 * d;
      }
    }
  }

  lemma HalfEvenScale(n: nat, d: nat, c: nat)
    requires d > 0 && c > 0
    ensures d * c > 0 && HalfEven(n * c, d * c) == HalfEven(n, d)
  {
    DivScale(n, d, c);
    var r := n % d;
    assert 2 * (r * c) == (2 * r) * c;
    if 2 * r > d {
      MulStrict(c, d, 2 * r);
    } else if 2 * r < d {
      MulStrict(c, 2 * r, d);
    }
  }

  lemma HalfEvenExact(q: nat, d: nat)
    requires d > 0
    ensures HalfEven(q * d, d) == q
  {
    DivUnique(q * d, d, q, 0);
  }

  lemma HalfEvenBounds(n: nat, d: nat)
    requires d > 0
    ensures n / d <= HalfEven(n, d) <= n / d + 1
    ensures n % d == 0 ==> HalfEven(n, d) == n / d
  {}

  lemma HalfEvenMono(m: nat, n: nat, d: nat)
    requires d > 0 && m <= n
    ensures HalfEven(m, d) <= HalfEven(n, d)
  {
    var p, q := m / d, n / d;
    assert m == p * d + m % d && n == q * d + n % d;
    if q < p {
      MulMono(d, q + 1, p);
      assert false;
    }
    if p == q {
      assert m % d <= n % d;
    }
  }

  /** How twice the remainder of a division by `d * 2h` compares with the divisor. */
  lemma HalfCompare(r: nat, f: nat, d: nat, h: nat)
    requires f < d
    ensures d * (2 * h) == 2 * (h * d)
    ensures r < h ==> r * d + f < h * d
    ensures r == h ==> r * d + f == h * d + f
    ensures r > h ==> r * d + f > h * d
  {
    if r < h {
      MulMono(d, r + 1, h);
    } else if r > h {
      MulMono(d, h + 1, r);
    }
  }

  /** Rounding a value known by its whole blocks `z` and by whether anything is left of them, `2t` blocks to a step. */
  function RoundBlocks(z: nat, exact: bool, t: nat): nat
    requires t > 0
  {
    var q, r := z / (2 * t), z % (2 * t);
    if r > t || (r == t && (!exact || q % 2 == 1)) then q + 1 else q
  }

  /** Half-even rounding sees of the part below a block only whether it is zero. */
  lemma HalfEvenBlocks(n: nat, d: nat, t: nat)
    requires d > 0 && t > 0
    ensures d * (2 * t) > 0 && HalfEven(n, d * (2 * t)) == RoundBlocks(n / d, n % d == 0, t)
  {
    BlockDigits(n, d, 2 * t, n / d);
    HalfEvenTop(n, d * (2 * t), n / d / (2 * t), n / d % (2 * t), n % d, d, t);
  }

  lemma BlockDigits(n: nat, d: nat, s: nat, x: nat)
    requires d > 0 && s > 0 && x == n / d
    ensures d * s > 0 && n / (d * s) == x / s && n % (d * s) == x % s * d + n % d
  {
    MulStrict(s, 0, d);
    DivDiv(n, d, s);
  }

  lemma HalfEvenTop(n: nat, m: nat, q: nat, r: nat, f: nat, d: nat, t: nat)
    requires f < d && m > 0 && m == d * (2 * t) && n / m == q && n % m == r * d + f
    ensures HalfEven(n, m) == if r > t || (r == t && (f != 0 || q % 2 == 1)) then q + 1 else q
  {
    HalfCompare(r, f, d, t);
  }
}
