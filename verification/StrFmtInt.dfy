/** strfmt.js: the integer writers and the digit count. */
module StrFmtInt {
  import opened Exact
  import opened DecimalText

  /** 2^32 and 2^31. */
  const WORD32: nat := 0x1_0000_0000
  const SIGN32: nat := 0x8000_0000

  // ----- writing bytes -----

  /** Writing byte `c` at `p` appends it to the bytes before `p`. */
  method Put(h: array<nat>, p: nat, c: nat) returns (q: nat)
    requires p < h.Length
    modifies h
    ensures q == p + 1 && h[..q] == old(h[..p]) + [c]
  {
    h[p] := c;
    q := p + 1;
  }

  lemma {:induction false} SplitDigits(n: nat, w: nat, v: nat)
    requires w > 0 && n < 10 * Pow(10, w - 1) && n < v * Pow(10, w - 1)
    ensures n / Pow(10, w - 1) < v && n % Pow(10, w - 1) == n - n / Pow(10, w - 1) * Pow(10, w - 1)
    ensures Digits(n, w) == [48 + n / Pow(10, w - 1)] + Digits(n % Pow(10, w - 1), w - 1)
  {
    var p := Pow(10, w - 1);
    assert n == n / p * p + n % p;
    QuotientBound(n, p, v);
    QuotientBound(n, p, 10);
    DigitsConcat(n / p, n % p, 1, w - 1);
    assert Digits(n / p, 1) == [48 + n / p];
  }

  lemma ReciprocalThousand(u: nat)
    requires u < 10000
    ensures u * 8389 / 8388608 == u / 1000
  {}

  lemma ReciprocalHundred(u: nat)
    requires u < 1000
    ensures u * 41 / 4096 == u / 100
  {}

  lemma ReciprocalTen(u: nat)
    requires u < 100
    ensures u * 103 / 1024 == u / 10
  {}

  // Each label of the writer's dispatch falls through to the ones below it: four digits, three, two, one.

  method Put1(h: array<nat>, p: nat, v: nat) returns (q: nat)
    requires v < 10 && p < h.Length
    modifies h
    ensures q == p + 1 && h[..q] == old(h[..p]) + Digits(v, 1)
  {
    assert Digits(v, 1) == [48 + v];
    q := Put(h, p, 48 + v);
  }

  method Put2(h: array<nat>, p: nat, v: nat) returns (q: nat)
    requires v < 100 && p + 2 <= h.Length
    modifies h
    ensures q == p + 2 && h[..q] == old(h[..p]) + Digits(v, 2)
  {
    var d := v * 103 / 1024;
    ReciprocalTen(v);
    SmallTens();
    SplitDigits(v, 2, 10);
    q := Put(h, p, 48 + d);
    q := Put1(h, q, v - d * 10);
  }

  method Put3(h: array<nat>, p: nat, v: nat) returns (q: nat)
    requires v < 1000 && p + 3 <= h.Length
    modifies h
    ensures q == p + 3 && h[..q] == old(h[..p]) + Digits(v, 3)
  {
    var d := v * 41 / 4096;
    ReciprocalHundred(v);
    SmallTens();
    SplitDigits(v, 3, 10);
    q := Put(h, p, 48 + d);
    q := Put2(h, q, v - d * 100);
  }

  method Put4(h: array<nat>, p: nat, v: nat) returns (q: nat)
    requires v < 10000 && p + 4 <= h.Length
    modifies h
    ensures q == p + 4 && h[..q] == old(h[..p]) + Digits(v, 4)
  {
    var d := v * 8389 / 8388608;
    ReciprocalThousand(v);
    SmallTens();
    SplitDigits(v, 4, 10);
    q := Put(h, p, 48 + d);
    q := Put3(h, q, v - d * 1000);
  }

  lemma {:induction false} FourDigits(v: nat)
    requires v < 10000
    ensures Len(v) == if v < 10 then 1 else if v < 100 then 2 else if v < 1000 then 3 else 4
  {
    assert v >= 10 ==> Len(v) == 1 + Len(v / 10);
    assert v >= 100 ==> Len(v / 10) == 1 + Len(v / 10 / 10);
  }

  /** Up to four digits, without leading zeros. */
  method PutShort(h: array<nat>, p: nat, v: nat) returns (q: nat)
    requires v < 10000 && p + 4 <= h.Length
    modifies h
    ensures q == p + Len(v) <= p + 4 && h[..q] == old(h[..p]) + Numerals(v)
  {
    FourDigits(v);
    if v < 10 {
      q := Put1(h, p, v);
    } else if v < 100 {
      q := Put2(h, p, v);
    } else if v < 1000 {
      q := Put3(h, p, v);
    } else {
      q := Put4(h, p, v);
    }
  }

  lemma {:induction false} AppendFour(v: nat, u: nat)
    requires 0 < v && u < 10000
    ensures Numerals(v * 10000 + u) == Numerals(v) + Digits(u, 4)
  {
    SmallTens();
    NumeralsConcat(v, u, 4);
  }

  /** The leading one or two digits. */
  method PutTop(h: array<nat>, p: nat, w0: nat) returns (q: nat)
    requires w0 < 43 && p + 2 <= h.Length
    modifies h
    ensures q == p + Len(w0) <= p + 2 && h[..q] == old(h[..p]) + Numerals(w0)
  {
    var w := w0;
    q := p;
    FourDigits(w);
    if w >= 10 {
      var d := w * 103 / 1024;
      ReciprocalTen(w);
      SmallTens();
      SplitDigits(w, 2, 10);
      q := Put(h, q, 48 + d);
      w := w - d * 10;
    }
    q := Put1(h, q, w);
  }

  /** The digits of an unsigned 32-bit integer: groups of four from the right, the first without leading zeros. */
  method PutUnsigned(h: array<nat>, p: nat, u0: nat) returns (q: nat)
    requires u0 < WORD32 && p + 10 <= h.Length
    modifies h
    ensures p < q == p + Len(u0) <= p + 10 && h[..q] == old(h[..p]) + Numerals(u0)
  {
    if u0 < 10000 {
      q := PutShort(h, p, u0);
      return;
    }
    var v := u0 / 10000;
    var u := u0 - v * 10000;
    AppendFour(v, u);
    q := PutHigh(h, p, v);
    q := Put4(h, q, u);
  }

  /** What stands before the last four digits. */
  method PutHigh(h: array<nat>, p: nat, v: nat) returns (q: nat)
    requires v < 430000 && p + 6 <= h.Length
    modifies h
    ensures q == p + Len(v) <= p + 6 && h[..q] == old(h[..p]) + Numerals(v)
  {
    if v < 10000 {
      q := PutShort(h, p, v);
    } else {
      q := PutLong(h, p, v);
    }
  }

  method PutLong(h: array<nat>, p: nat, v0: nat) returns (q: nat)
    requires 10000 <= v0 < 430000 && p + 6 <= h.Length
    modifies h
    ensures q == p + Len(v0) <= p + 6 && h[..q] == old(h[..p]) + Numerals(v0)
  {
    var w := v0 / 10000;
    var v := v0 - w * 10000;
    AppendFour(w, v);
    q := PutTop(h, p, w);
    q := Put4(h, q, v);
  }

  /** `lj_strfmt_wint`: a signed 32-bit integer in decimal. */
  method Wint(h: array<nat>, p0: nat, k: int) returns (p: nat)
    requires 0 - SIGN32 <= k < SIGN32 && p0 + 11 <= h.Length
    modifies h
    ensures p0 < p <= p0 + 11 && h[..p] == old(h[..p0]) + (if k < 0 then [MINUS] else []) + Numerals(Abs(k))
  {
    var u := k;
    p := p0;
    if k < 0 {
      u := 0 - u;
      p := Put(h, p, MINUS);
    }
    p := PutUnsigned(h, p, u);
  }

  lemma {:induction false} ThreeGroups(w: nat, v: nat, u: nat, k: nat)
    requires v < Pow(10, k) && u < Pow(10, k)
    ensures Digits((w * Pow(10, k) + v) * Pow(10, k) + u, 1 + k + k) == Digits(w, 1) + Digits(v, k) + Digits(u, k)
  {
    DigitsConcat(w * Pow(10, k) + v, u, 1 + k, k);
    DigitsConcat(w, v, 1, k);
  }

  /** `lj_strfmt_wuint9`: nine digits. */
  method Wuint9(h: array<nat>, p: nat, u0: nat) returns (q: nat)
    requires u0 < 1_000_000_000 && p + 9 <= h.Length
    modifies h
    ensures q == p + 9 && h[..q] == old(h[..p]) + Digits(u0, 9)
  {
    var v := u0 / 10000;
    var u := u0 - v * 10000;
    var w := v / 10000;
    v := v - w * 10000;
    SmallTens();
    ThreeGroups(w, v, u, 4);
    q := Put1(h, p, w);
    q := Put4(h, q, v);
    q := Put4(h, q, u);
  }

  // ----- ndigits_dec -----

  /** The table of the largest numbers of 0 to 9 digits, and of 32 bits. */
  const NINES: seq<nat> := [0, 9, 99, 999, 9999, 99999, 999999, 9999999, 99999999, 999999999, 0xffffffff]

  /** `ndigits_dec`: a digit count from the bit length, corrected by a table. */
  function NdigitsDec(x: nat): (d: nat)
    requires x < WORD32
    ensures d == Len(x)
  {
    BitLen32(x);
    CountFromBits(x);
    var t := (BitLen(SetLow(x)) - 1) * 77 / 256 + 1;
    t + if x > NINES[t] then 1 else 0
  }

  function SetLow(x: nat): nat { if x % 2 == 0 then x + 1 else x }

  lemma {:induction false} BitLen32(x: nat)
    requires x < WORD32
    ensures 1 <= BitLen(SetLow(x)) <= 32
  {
    Powers32();
    var l := BitLen(SetLow(x));
    BitLenBounds(SetLow(x));
    if l > 32 { PowMono(2, 32, l - 1); }
  }

  lemma {:induction false} Powers32()
    ensures Pow(2, 4) == 16 && Pow(2, 7) == 128 && Pow(2, 10) == 1024 && Pow(2, 14) == 16384 && Pow(2, 17) == 131072
    ensures Pow(2, 20) == 1048576 && Pow(2, 24) == 16777216 && Pow(2, 27) == 134217728 && Pow(2, 30) == 1073741824
    ensures Pow(2, 32) == WORD32
  {
    assert Pow(2, 1) == 2 && Pow(2, 2) == 4 && Pow(2, 3) == 8;
    PowAdd(2, 4, 3);
    PowAdd(2, 7, 3);
    PowAdd(2, 10, 4);
    PowAdd(2, 14, 3);
    PowAdd(2, 17, 3);
    PowAdd(2, 20, 4);
    PowAdd(2, 24, 3);
    PowAdd(2, 27, 3);
    PowAdd(2, 30, 2);
  }

  lemma {:induction false} Tens()
    ensures forall t | 0 <= t < 10 :: NINES[t] == Pow(10, t) - 1
    ensures Pow(10, 10) == 10_000_000_000
  {
    SmallTens();
    PowAdd(10, 4, 1);
    PowAdd(10, 4, 2);
    PowAdd(10, 4, 3);
    PowAdd(10, 4, 4);
    PowAdd(10, 8, 1);
    PowAdd(10, 8, 2);
  }

  lemma {:induction false} SetLowBounds(x: nat, b: nat)
    requires x > 0 && BitLen(SetLow(x)) == b + 1
    ensures Pow(2, b) <= x < Pow(2, b + 1)
  {
    BitLenBounds(SetLow(x));
    if b > 0 { assert Pow(2, b) == 2 * Pow(2, b - 1); }
  }

  /** The guess `t` is the count or one less, and the table tells which. */
  lemma {:induction false} CountFromBits(x: nat)
    requires x < WORD32 && 1 <= BitLen(SetLow(x)) <= 32
    ensures var t := (BitLen(SetLow(x)) - 1) * 77 / 256 + 1; t <= 10 && Len(x) == t + if x > NINES[t] then 1 else 0
  {
    var b := BitLen(SetLow(x)) - 1;
    var t := b * 77 / 256 + 1;
    BinaryToDecimal(b, t);
    if x == 0 {
      assert BitLen(1) == 1 + BitLen(0);
    } else {
      SetLowBounds(x, b);
      PickCount(x, t);
    }
  }

  lemma {:induction false} PickCount(x: nat, t: nat)
    requires 1 <= t <= 10 && Pow(10, t - 1) <= x < Pow(10, t + 1) && x < WORD32
    ensures Len(x) == t + if x > NINES[t] then 1 else 0
  {
    Tens();
    if t < 10 && x > NINES[t] {
      LenUnique(x, t + 1);
    } else {
      LenUnique(x, t);
    }
  }

  lemma {:induction false} BinaryToDecimal(b: nat, t: nat)
    requires b < 32 && t == b * 77 / 256 + 1
    ensures t <= 10 && Pow(10, t - 1) <= Pow(2, b) && Pow(2, b + 1) < Pow(10, t + 1)
  {
    Powers32();
    Tens();
    if b < 4 { PowMono(2, b + 1, 4); }
    else if b < 7 { PowMono(2, 4, b); PowMono(2, b + 1, 7); }
    else if b < 10 { PowMono(2, 7, b); PowMono(2, b + 1, 10); }
    else if b < 14 { PowMono(2, 10, b); PowMono(2, b + 1, 14); }
    else if b < 17 { PowMono(2, 14, b); PowMono(2, b + 1, 17); }
    else if b < 20 { PowMono(2, 17, b); PowMono(2, b + 1, 20); }
    else if b < 24 { PowMono(2, 20, b); PowMono(2, b + 1, 24); }
    else if b < 27 { PowMono(2, 24, b); PowMono(2, b + 1, 27); }
    else if b < 30 { PowMono(2, 27, b); PowMono(2, b + 1, 30); }
    else { PowMono(2, 30, b); PowMono(2, b + 1, 32); }
  }
}
