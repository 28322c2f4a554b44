/** strscan.js: the decimal-integer fast path of `lj_strscan_scan` (number option), and the inverse of the integer
    writer. */
module ScanInt {
  import opened Exact
  import opened Positional
  import opened DecimalText
  import opened StrFmtInt
  import opened ScanText
  import opened DecDigits
  import opened Ieee

  predicate IsSpace(c: nat) { 9 <= c <= 13 || c == 32 }

  /** An optional minus, `z` zeros, then `d` digits of which the first is no zero; a NUL after `len` bytes. */
  ghost predicate IntegerText(h: seq<nat>, p: nat, len: nat, neg: bool, z: nat, d: nat) {
    var sp := p + (if neg then 1 else 0) + z;
    && len == sp + d - p && p + len < |h| && h[p + len] == 0 && z + d > 0
    && (neg ==> h[p] == MINUS)
    && (forall k | sp - z <= k < sp :: h[k] == ZERO)
    && (forall k | sp <= k < sp + d :: IsDecByte(h[k])) && (d > 0 ==> h[sp] != ZERO)
  }

  /** The number the digits from `sp` denote, reduced as the 32-bit accumulator does. */
  method ScanDigits(h: seq<nat>, sp: nat) returns (q: nat, x: nat, dig: nat)
    ensures q == sp + dig && (forall k | sp <= k < q :: IsDecByte(Byte(h, k))) && !IsDecByte(Byte(h, q))
    ensures x == Decimal(h, sp, dig) % WORD32
  {
    q, x, dig := sp, 0, 0;
    assert Values(h, sp, 0) == [];
    while IsDecByte(Byte(h, q))
      invariant q == sp + dig && (forall k | sp <= k < q :: IsDecByte(Byte(h, k))) && x == Decimal(h, sp, dig) % WORD32
      decreases |h| - q
    {
      Contiguous(h, sp, dig);
      DecimalStep(h, sp, dig);
      Accumulate(Decimal(h, sp, dig), Byte(h, q) % 16);
      x := (x * 10 % WORD32 + Byte(h, q) % 16) % WORD32;
      q, dig := q + 1, dig + 1;
    }
  }

  lemma Accumulate(n: nat, d: nat)
    ensures (n % WORD32 * 10 % WORD32 + d) % WORD32 == (10 * n + d) % WORD32
  {
    assert n == n / WORD32 * WORD32 + n % WORD32;
    var m := n % WORD32 * 10;
    assert m == m / WORD32 * WORD32 + m % WORD32;
    assert 10 * n + d == (10 * (n / WORD32) + m / WORD32) * WORD32 + (m % WORD32 + d);
  }

  /** Without a decimal point the digits are where they are counted. */
  lemma {:induction false} Contiguous(h: seq<nat>, sp: nat, n: nat)
    requires forall k | sp <= k < sp + n :: IsDecByte(Byte(h, k))
    ensures After(h, sp, n) == sp + n && (forall j | 0 <= j < n :: DigitByte(h, sp, j) == Byte(h, sp + j))
    ensures Byte(h, sp + n) != DOT ==> DigitByte(h, sp, n) == Byte(h, sp + n)
  {
    if n > 0 { Contiguous(h, sp, n - 1); }
  }

  method SkipZeros(h: seq<nat>, p: nat) returns (q: nat)
    ensures q >= p && (forall k | p <= k < q :: Byte(h, k) == ZERO) && Byte(h, q) != ZERO
  {
    q := p;
    while Byte(h, q) == ZERO
      invariant q >= p && forall k | p <= k < q :: Byte(h, k) == ZERO
      decreases |h| - q
    {
      q := q + 1;
    }
  }

  method SkipSpaces(h: seq<nat>, p: nat) returns (q: nat)
    ensures q >= p && (!IsSpace(Byte(h, p)) ==> q == p)
  {
    q := p;
    while IsSpace(Byte(h, q))
      invariant q >= p && (!IsSpace(Byte(h, p)) ==> q == p)
      decreases |h| - q
    {
      q := q + 1;
    }
  }

  /** Leading spaces and a sign, then leading zeros. `ok` unless letters, a base prefix or a decimal point follow. */
  method ScanPrefix(h: seq<nat>, p: nat, ghost len: nat, ghost neg0: bool, ghost z: nat, ghost d: nat)
      returns (ok: bool, neg: bool, q: nat, sp: nat)
    ensures IntegerText(h, p, len, neg0, z, d) ==> ok && neg == neg0 && sp == p + len - d && sp - q == z && q >= p
  {
    q, neg, sp := p, false, p;
    ok := false;
    if !IsDecByte(Byte(h, q)) {
      q := SkipSpaces(h, q);
      if Byte(h, q) == 43 || Byte(h, q) == 45 {
        neg := Byte(h, q) == 45;
        q := q + 1;
      }
      if Byte(h, q) >= 65 { return; }
    }
    sp := q;
    if Byte(h, q) <= 48 {
      if Byte(h, q) == 48 && Byte(h, q + 1) in {88, 120, 66, 98} { return; }
      sp := SkipZeros(h, q);
      if IntegerText(h, p, len, neg0, z, d) { ZerosEnd(h, p + (if neg0 then 1 else 0), z, d, sp); }
      if Byte(h, sp) == DOT { return; }
    }
    ok := true;
  }

  /** An integer in units of the format's lowest power of two. */
  function Units(f: Format, n: nat): nat {
    NonNegative(n, Pow(2, f.low));
    n * Pow(2, f.low)
  }

  /** `lj_strscan_scan` with the number option on integer texts: `done` unless the text takes another path. */
  method ScanInteger(f: Format, h: seq<nat>, p: nat, len: nat, ghost neg0: bool, ghost z: nat, ghost d: nat)
      returns (done: bool, r: Double)
    requires f.bits >= 32
    ensures IntegerText(h, p, len, neg0, z, d) ==>
              (done <==> d < 10 || (d == 10 && Decimal(h, p + len - d, d) < SIGN32 + (if neg0 then 1 else 0)))
    ensures IntegerText(h, p, len, neg0, z, d) && done ==> r == Finite(neg0, Units(f, Decimal(h, p + len - d, d)))
  {
    done, r := false, NaN;
    var ok, neg, q, sp := ScanPrefix(h, p, len, neg0, z, d);
    if !ok { return; }
    var end, x, dig := ScanDigits(h, sp);
    if IntegerText(h, p, len, neg0, z, d) {
      DigitsEnd(h, sp, d, end);
      AccumulatedSmall(h, sp, dig, neg);
    }
    if Byte(h, end) != 0 || (end == sp && sp == q) || end < p + len { return; }
    if dig < 10 || (dig == 10 && Byte(h, sp) <= 50 && x < SIGN32 + if neg then 1 else 0) {
      done := true;
      r := Finite(neg, Units(f, x));
    }
  }

  /** The scan for zeros stops where the text's zeros end. */
  lemma ZerosEnd(h: seq<nat>, q: nat, z: nat, d: nat, sp: nat)
    requires q + z + d < |h| && h[q + z + d] == 0 && (d > 0 ==> h[q + z] != ZERO)
    requires forall k | q <= k < q + z :: h[k] == ZERO
    requires sp >= q && (forall k | q <= k < sp :: Byte(h, k) == ZERO) && Byte(h, sp) != ZERO
    ensures sp == q + z
  {
    assert sp >= q + z || Byte(h, sp) == ZERO;
    assert sp <= q + z || Byte(h, q + z) == ZERO;
  }

  lemma DigitsEnd(h: seq<nat>, sp: nat, d: nat, end: nat)
    requires sp + d < |h| && h[sp + d] == 0 && (forall k | sp <= k < sp + d :: IsDecByte(h[k]))
    requires end >= sp && (forall k | sp <= k < end :: IsDecByte(Byte(h, k))) && !IsDecByte(Byte(h, end))
    ensures end == sp + d
  {
    assert end >= sp + d || IsDecByte(Byte(h, end));
    assert end <= sp + d || IsDecByte(Byte(h, sp + d));
  }

  /** Ten digits fit 32 bits if the first is at most 2, and are past 2^31 if it is more. */
  lemma {:induction false} AccumulatedSmall(h: seq<nat>, sp: nat, dig: nat, neg: bool)
    requires (forall k | sp <= k < sp + dig :: IsDecByte(Byte(h, k))) && !IsDecByte(Byte(h, sp + dig))
    requires Byte(h, sp + dig) != DOT
    ensures dig < 10 ==> Decimal(h, sp, dig) < WORD32
    ensures dig == 10 && Byte(h, sp) <= 50 ==> Decimal(h, sp, dig) < WORD32
    ensures dig == 10 && Byte(h, sp) > 50 ==> Decimal(h, sp, dig) > SIGN32
  {
    Contiguous(h, sp, dig);
    var s := Values(h, sp, dig);
    ValuesIndex(h, sp, dig);
    NumeralBound(10, s);
    Tens();
    if dig < 10 {
      PowMono(10, dig, 9);
    } else if dig == 10 {
      assert s == [s[0]] + s[1..];
      NumeralPrepend(10, s[0], s[1..]);
      NumeralBound(10, s[1..]);
      assert NINES[9] == 999_999_999;
    }
  }

  // ----- the writer's texts -----

  /** The writer's digits denote the number. */
  lemma {:induction false} WrittenDigits(h: seq<nat>, sp: nat, n: nat, w: nat)
    requires sp + w <= |h| && h[sp..sp + w] == Digits(n, w) && n < Pow(10, w)
    ensures (forall k | sp <= k < sp + w :: IsDecByte(h[k])) && Decimal(h, sp, w) == n
  {
    DigitsBytes(n, w);
    assert forall k | sp <= k < sp + w :: h[k] == h[sp..sp + w][k - sp];
    if w == 0 {
      assert Values(h, sp, 0) == [];
    } else {
      assert h[sp..sp + w - 1] == h[sp..sp + w][..w - 1] == Digits(n / 10, w - 1);
      assert h[sp + w - 1] == h[sp..sp + w][w - 1] == 48 + n % 10;
      WrittenDigits(h, sp, n / 10, w - 1);
      LastWritten(h, sp, n, w);
    }
  }

  lemma {:induction false} LastWritten(h: seq<nat>, sp: nat, n: nat, w: nat)
    requires 0 < w && sp + w <= |h| && (forall k | sp <= k < sp + w :: IsDecByte(h[k]))
    requires Decimal(h, sp, w - 1) == n / 10 && h[sp + w - 1] == 48 + n % 10
    ensures Decimal(h, sp, w) == n
  {
    Contiguous(h, sp, w - 1);
    DecimalStep(h, sp, w - 1);
  }

  /** What `lj_strfmt_wint` writes for `k`, with a NUL after it, is an integer text of `k`. */
  lemma {:induction false} WrittenText(h: seq<nat>, p: nat, k: int, end: nat)
    requires 0 - SIGN32 <= k < SIGN32 && p <= end < |h| && h[end] == 0
    requires h[p..end] == (if k < 0 then [MINUS] else []) + Numerals(Abs(k))
    ensures var z := if k == 0 then 1 else 0; var d := if k == 0 then 0 else Len(Abs(k));
            && IntegerText(h, p, end - p, k < 0, z, d) && Decimal(h, end - d, d) == Abs(k)
            && (d < 10 || (d == 10 && Abs(k) < SIGN32 + if k < 0 then 1 else 0))
  {
    var n, sp := Abs(k), p + if k < 0 then 1 else 0;
    LenBounds(n);
    assert h[sp..end] == Numerals(n) by { assert h[sp..end] == h[p..end][sp - p..]; }
    assert k < 0 ==> h[p] == h[p..end][0];
    WrittenDigits(h, sp, n, Len(n));
    TenAtMost(n);
    if k == 0 {
      assert h[sp] == h[sp..end][0] == 48;
      assert Values(h, end, 0) == [];
    } else {
      FirstWritten(n);
      assert h[sp] == h[sp..end][0];
    }
  }

  lemma {:induction false} TenAtMost(n: nat)
    requires n <= SIGN32
    ensures Len(n) <= 10
  {
    LenBounds(n);
    Tens();
    if Len(n) > 10 { PowMono(10, 10, Len(n) - 1); }
  }

  lemma {:induction false} FirstWritten(n: nat)
    requires n > 0
    ensures Numerals(n)[0] != 48
  {
    LenBounds(n);
    var w := Len(n);
    DigitsPrefix(n, 1, w - 1);
    QuotientBound(n, Pow(10, w - 1), 1);
    QuotientBound(n, Pow(10, w - 1), 10);
    assert Digits(n / Pow(10, w - 1), 1) == [48 + n / Pow(10, w - 1) % 10];
  }

  /** Printing any 32-bit integer and reading it back yields the integer, by the fast path. */
  method PrintThenScan(f: Format, k: int) returns (done: bool, r: Double)
    requires f.bits >= 32 && 0 - SIGN32 <= k < SIGN32
    ensures done && r == Finite(k < 0, Units(f, Abs(k)))
  {
    var h := new nat[12];
    var p := Wint(h, 0, k);
    h[p] := 0;
    assert h[0..p] == h[..p];
    WrittenText(h[..], 0, k, p);
    done, r := ScanInteger(f, h[..], 0, p, k < 0, if k == 0 then 1 else 0, if k == 0 then 0 else Len(Abs(k)));
  }
}
