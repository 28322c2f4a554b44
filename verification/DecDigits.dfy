/** strscan.js: how `strscan_dec` packs the decimal digits of a text into base-100 digits. */
module DecDigits {
  import opened Exact
  import opened Positional
  import opened ScanText
  import opened DecRing

  /** Digits beyond this many only decide whether the rest is zero. */
  const MAXDIG: nat := 800

  /** The number the first `n` decimal digits from `p` denote. */
  function Decimal(h: seq<nat>, p: nat, n: nat): nat {
    Numeral(10, Values(h, p, n))
  }

  lemma DecimalStep(h: seq<nat>, p: nat, n: nat)
    requires IsDecByte(DigitByte(h, p, n))
    ensures Decimal(h, p, n + 1) == 10 * Decimal(h, p, n) + DigitByte(h, p, n) % 16
    ensures DigitByte(h, p, n) % 16 < 10
  {
    NumeralStep(10, h, p, n);
  }

  /** The digit bytes from `p`: `n` decimal digits, the first of them no zero. */
  predicate DigitRun(h: seq<nat>, p: nat, n: nat) {
    (forall k | 0 <= k < n :: IsDecByte(DigitByte(h, p, k))) && (n > 0 ==> DigitByte(h, p, 0) != ZERO)
  }

  /** Nothing was written from slot `n` on, in a ring that began blank. */
  ghost predicate Clear(a: seq<nat>, n: nat) {
    forall i | n <= i < |a| :: a[i] == 0
  }

  /** What has been read: `c` digits packed as `ds`, at the front of the array. */
  ghost predicate Packed(a: seq<nat>, ds: seq<nat>, h: seq<nat>, p0: nat, c: nat) {
    && |ds| <= |a| && a[..|ds|] == ds && Base100(ds) && Numeral(100, ds) == Decimal(h, p0, c)
    && (ds != [] ==> ds[0] > 0) && (c > 0 ==> ds != [])
  }

  lemma {:induction false} AppendDigit(a: seq<nat>, ds: seq<nat>, d: nat)
    requires |ds| < |a| && a[..|ds|] == ds
    ensures a[|ds| := d][..|ds| + 1] == ds + [d]
    ensures Numeral(100, ds + [d]) == 100 * Numeral(100, ds) + d
  {
    NumeralAppend(100, ds, d);
  }

  lemma PackPair(a: seq<nat>, ds: seq<nat>, h: seq<nat>, p0: nat, c: nat, d: nat, e: nat)
    requires Packed(a, ds, h, p0, c) && |ds| < |a| && IsDecByte(DigitByte(h, p0, c))
    requires IsDecByte(DigitByte(h, p0, c + 1))
    requires d == DigitByte(h, p0, c) % 16 && e == DigitByte(h, p0, c + 1) % 16 && (c == 0 ==> d > 0)
    requires c > 0 || ds == []
    ensures Packed(a[|ds| := 10 * d + e], ds + [10 * d + e], h, p0, c + 2)
  {
    DecimalPair(h, p0, c, d, e);
    AppendDigit(a, ds, 10 * d + e);
  }

  lemma DecimalPair(h: seq<nat>, p0: nat, c: nat, d: nat, e: nat)
    requires IsDecByte(DigitByte(h, p0, c)) && IsDecByte(DigitByte(h, p0, c + 1))
    requires d == DigitByte(h, p0, c) % 16 && e == DigitByte(h, p0, c + 1) % 16
    ensures d < 10 && e < 10 && Decimal(h, p0, c + 2) == 100 * Decimal(h, p0, c) + (10 * d + e)
  {
    DecimalStep(h, p0, c);
    DecimalStep(h, p0, c + 1);
  }

  /** One digit: a decimal point before it is stepped over. */
  method ReadDigit(h: seq<nat>, p0: nat, p: nat, ghost c: nat) returns (d: nat, q: nat)
    requires p == After(h, p0, c) && IsDecByte(DigitByte(h, p0, c))
    ensures d == DigitByte(h, p0, c) % 16 < 10 && q == After(h, p0, c + 1)
  {
    DecimalStep(h, p0, c);
    q := SkipDot(h, p);
    d := Byte(h, q) % 16;
    q := q + 1;
  }

  /** The digit that stands alone in front when the pairs would otherwise straddle the decimal point. */
  method PackFirst(h: seq<nat>, p0: nat, odd: bool, xi: array<Octet>) returns (p: nat, len: nat, ghost ds: seq<nat>)
    requires xi.Length == RING && DigitRun(h, p0, 1)
    modifies xi
    ensures len == |ds| == (if odd then 1 else 0) && p == After(h, p0, len) && Packed(xi[..], ds, h, p0, len)
    ensures Clear(old(xi[..]), 0) ==> Clear(xi[..], len)
  {
    p, len, ds := p0, 0, [];
    assert xi[..0] == [] && Values(h, p0, 0) == [];
    if odd {
      var d;
      d, p := ReadDigit(h, p0, p, 0);
      xi[0] := d;
      len, ds := 1, [d];
      DecimalStep(h, p0, 0);
      NumeralAppend(100, [], d);
      assert [] + [d] == [d];
    }
  }

  /** Two digits as one base-100 digit. */
  method PackNext(h: seq<nat>, p0: nat, p: nat, len: nat, xi: array<Octet>, ghost was: seq<nat>, ghost c: nat)
      returns (q: nat, ghost ds: seq<nat>)
    requires xi.Length == RING && |was| == len < RING && p == After(h, p0, c) && Packed(xi[..], was, h, p0, c)
    requires DigitRun(h, p0, c + 2) && (c == 0 ==> was == [])
    modifies xi
    ensures q == After(h, p0, c + 2) && |ds| == len + 1 && Packed(xi[..], ds, h, p0, c + 2)
    ensures Clear(old(xi[..]), len) ==> Clear(xi[..], len + 1)
  {
    var d, e;
    d, q := ReadDigit(h, p0, p, c);
    e, q := ReadDigit(h, p0, q, c + 1);
    PackPair(xi[..], was, h, p0, c, d, e);
    xi[len] := 10 * d + e;
    ds := was + [10 * d + e];
  }

  method PackPairs(h: seq<nat>, p0: nat, i0: nat, p1: nat, len0: nat, xi: array<Octet>, ghost ds0: seq<nat>,
      ghost c0: nat)
      returns (p: nat, i: nat, len: nat, ghost ds: seq<nat>, ghost c: nat)
    requires xi.Length == RING && c0 + i0 <= MAXDIG && c0 <= 1 && |ds0| == c0 == len0 && p1 == After(h, p0, c0)
    requires DigitRun(h, p0, c0 + i0) && Packed(xi[..], ds0, h, p0, c0)
    modifies xi
    ensures i == i0 % 2 && c == c0 + i0 - i && p == After(h, p0, c)
    ensures len == |ds| && 2 * len == c0 + c && Packed(xi[..], ds, h, p0, c)
    ensures Clear(old(xi[..]), len0) ==> Clear(xi[..], len)
  {
    p, i, len, ds, c := p1, i0, len0, ds0, c0;
    while i > 1
      invariant c + i == c0 + i0 && i % 2 == i0 % 2 && p == After(h, p0, c) && len == |ds| && 2 * len == c0 + c
      invariant Packed(xi[..], ds, h, p0, c) && (Clear(old(xi[..]), len0) ==> Clear(xi[..], len))
    {
      p, ds := PackNext(h, p0, p, len, xi, ds, c);
      len, i, c := len + 1, i - 2, c + 2;
    }
  }

  /** A trailing digit takes a zero beside it. */
  lemma PackLast(a: seq<nat>, ds: seq<nat>, h: seq<nat>, p0: nat, c: nat, d: nat)
    requires Packed(a, ds, h, p0, c) && |ds| < |a| && IsDecByte(DigitByte(h, p0, c)) && d == DigitByte(h, p0, c) % 16
    requires c == 0 ==> d > 0 && ds == []
    ensures Stored(a[|ds| := 10 * d], ds + [10 * d], 10 * Decimal(h, p0, c + 1))
  {
    DecimalStep(h, p0, c);
    AppendDigit(a, ds, 10 * d);
  }

  /** The base-100 digits `ds`, at the front of the array, denote `n > 0`. */
  ghost predicate Stored(a: seq<nat>, ds: seq<nat>, n: nat) {
    |ds| <= |a| && a[..|ds|] == ds && Base100(ds) && Numeral(100, ds) == n && ds != [] && ds[0] > 0
  }

  function ShiftedBy(x: nat, i: nat): nat { if i == 0 then x else 10 * x }

  lemma {:induction false} TenTimes(x: nat, i: nat)
    requires i < 2
    ensures x * Pow(10, i) == ShiftedBy(x, i)
  {
    assert Pow(10, 0) == 1 && Pow(10, 1) == 10;
  }

  /** A digit left over after the pairs. */
  method PackTrailing(h: seq<nat>, p0: nat, p1: nat, i: nat, len0: nat, xi: array<Octet>, ghost was: seq<nat>,
      ghost c: nat)
      returns (p: nat, len: nat, ghost ds: seq<nat>)
    requires xi.Length == RING && i < 2 && |was| == len0 < RING && p1 == After(h, p0, c)
    requires Packed(xi[..], was, h, p0, c)
    requires c + i > 0 && DigitRun(h, p0, c + i) && (c == 0 ==> was == [])
    modifies xi
    ensures p == After(h, p0, c + i) && len == |ds| == |was| + i
    ensures Stored(xi[..], ds, ShiftedBy(Decimal(h, p0, c + i), i))
    ensures Clear(old(xi[..]), len0) ==> Clear(xi[..], len)
  {
    p, len, ds := p1, len0, was;
    if i != 0 {
      var d;
      d, p := ReadDigit(h, p0, p, c);
      PackLast(xi[..], was, h, p0, c, d);
      xi[len] := 10 * d;
      len, ds := len + 1, was + [10 * d];
    }
  }

  /** All digits packed, at most 800 of them, on an even power of ten. */
  method Pack(h: seq<nat>, p0: nat, n: nat, ex: int, xi: array<Octet>)
      returns (p: nat, len: nat, e: int, ghost ds: seq<nat>)
    requires xi.Length == RING && 0 < n <= MAXDIG && DigitRun(h, p0, n)
    modifies xi
    ensures p == After(h, p0, n) && len == |ds| && 2 * len <= n + 2 && e == ex - ex % 2
    ensures Stored(xi[..], ds, ShiftedBy(Decimal(h, p0, n), ex % 2))
    ensures Clear(old(xi[..]), 0) ==> Clear(xi[..], len)
  {
    var odd := (ex - n) % 2 != 0;
    p, len, ds := PackFirst(h, p0, odd, xi);
    var i := if odd then n - 1 else n;
    ghost var c;
    Parity(ex, n, odd, i);
    p, i, len, ds, c := PackPairs(h, p0, i, p, len, xi, ds, len);
    p, len, ds := PackTrailing(h, p0, p, i, len, xi, ds, c);
    e := ex - i;
  }

  lemma Parity(ex: int, n: int, odd: bool, i: int)
    requires (odd <==> (ex - n) % 2 != 0) && i == if odd then n - 1 else n
    ensures i % 2 == ex % 2
  {}

  /** Whether one of `k` bytes after the first `c` digits is not the digit zero. */
  ghost predicate Excess(h: seq<nat>, p: nat, c: nat, k: nat) {
    exists j: nat :: c <= j < c + k && DigitByte(h, p, j) != ZERO
  }

  /** Looking for a digit that is not zero beyond the kept ones. */
  method FindExcess(h: seq<nat>, p0: nat, p1: nat, dig: nat, ghost c: nat) returns (any: bool)
    requires dig > MAXDIG && p1 == After(h, p0, c)
    ensures any <==> Excess(h, p0, c, dig - MAXDIG)
  {
    var p, d := p1, dig;
    ghost var j := 0;
    any := false;
    while true
      invariant d > MAXDIG && j + d == dig && p == After(h, p0, c + j)
      invariant forall k | c <= k < c + j :: DigitByte(h, p0, k) == ZERO
      decreases d
    {
      p := SkipDot(h, p);
      if Byte(h, p) != ZERO {
        assert DigitByte(h, p0, c + j) != ZERO;
        any := true;
        return;
      }
      p, d, j := p + 1, d - 1, j + 1;
      if d <= MAXDIG { break; }
    }
  }

  /** `n` with its lowest bit set. */
  function SetLowBit(n: nat): nat { if n % 2 == 0 then n + 1 else n }

  lemma SetLastDigit(a: seq<nat>, ds: seq<nat>, n: nat)
    requires Stored(a, ds, n)
    ensures SetLowBit(ds[|ds| - 1]) < 100
    ensures Stored(a[|ds| - 1 := SetLowBit(ds[|ds| - 1])], ds[|ds| - 1 := SetLowBit(ds[|ds| - 1])], SetLowBit(n))
  {
    var t := ds[..|ds| - 1];
    var d := SetLowBit(ds[|ds| - 1]);
    assert ds == t + [ds[|ds| - 1]] && ds[|ds| - 1 := d] == t + [d];
    NumeralAppend(100, t, d);
    NumeralAppend(100, t, ds[|ds| - 1]);
  }

  method PadOnce(xi: array<Octet>, len: nat, ghost was: seq<nat>, ghost n: nat) returns (ghost ds: seq<nat>)
    requires |was| == len < xi.Length && Stored(xi[..], was, n)
    modifies xi
    ensures |ds| == len + 1 && Stored(xi[..], ds, n * 100)
    ensures Clear(old(xi[..]), len) ==> Clear(xi[..], len + 1)
  {
    AppendDigit(xi[..], was, 0);
    xi[len] := 0;
    ds := was + [0];
  }

  /** The last digit stands for what does not fit. */
  method MarkExcess(xi: array<Octet>, len: nat, any: bool, ghost was: seq<nat>, ghost n: nat)
      returns (ghost ds: seq<nat>)
    requires |was| == len <= xi.Length && Stored(xi[..], was, n)
    modifies xi
    ensures |ds| == len && Stored(xi[..], ds, if any then SetLowBit(n) else n)
    ensures Clear(old(xi[..]), len) ==> Clear(xi[..], len)
  {
    ds := was;
    if any {
      SetLastDigit(xi[..], was, n);
      xi[len - 1] := SetLowBit(xi[len - 1]);
      ds := was[len - 1 := SetLowBit(was[len - 1])];
    }
  }

  /** The power of ten left after the zeros a short number takes. */
  function Padded(ex: int, dig: nat): (r: int)
    ensures r <= ex && r % 2 == ex % 2 && (r != ex && ex % 2 == 0 ==> r >= 0)
    decreases 20 - dig
  {
    if ex > 0 && dig <= 18 then Padded(ex - 2, dig + 2) else ex
  }

  /** Short numbers take zeros for their power of ten. */
  method Pad(xi: array<Octet>, len0: nat, ex0: int, dig0: nat, ghost ds0: seq<nat>, ghost n: nat)
      returns (len: nat, ex: int, dig: nat, ghost ds: seq<nat>, ghost n1: nat)
    requires xi.Length == RING && |ds0| == len0 && 2 * len0 <= MAXDIG + 2 && Stored(xi[..], ds0, n) && ex0 % 2 == 0
    requires dig0 <= 20 ==> n < Pow(10, dig0)
    modifies xi
    ensures len == |ds| && 2 * len <= 2 * len0 + Max(0, 20 - dig0) && Stored(xi[..], ds, n1)
    ensures ex == Padded(ex0, dig0) && ex % 2 == 0 && ex <= ex0 && (ex != ex0 ==> ex >= 0)
    ensures n1 == n * Pow(10, ex0 - ex)
    ensures dig <= 20 ==> n1 < Pow(10, dig)
    ensures Clear(old(xi[..]), len0) ==> Clear(xi[..], len)
  {
    len, ex, dig, ds, n1 := len0, ex0, dig0, ds0, n;
    assert Pow(10, 0) == 1;
    while ex > 0 && dig <= 18
      invariant len == |ds| && dig >= dig0 && ex <= ex0 && ex % 2 == 0 && (ex != ex0 ==> ex >= 0)
      invariant Padded(ex, dig) == Padded(ex0, dig0) && 2 * (len - len0) == dig - dig0 && (dig != dig0 ==> dig <= 20)
      invariant Stored(xi[..], ds, n1) && n1 == n * Pow(10, ex0 - ex) && (dig <= 20 ==> n1 < Pow(10, dig))
      invariant Clear(old(xi[..]), len0) ==> Clear(xi[..], len)
      decreases ex
    {
      TimesHundred(n, ex0 - ex, n1, dig);
      ds := PadOnce(xi, len, ds, n1);
      len, ex, dig, n1 := len + 1, ex - 2, dig + 2, n1 * 100;
    }
  }

  lemma TimesHundred(n: nat, k: nat, n1: nat, dig: nat)
    requires n1 == n * Pow(10, k)
    ensures n1 * 100 == n * Pow(10, k + 2) && (n1 < Pow(10, dig) ==> n1 * 100 < Pow(10, dig + 2))
  {
    PowAdd(10, k, 2);
    assert Pow(10, 1) == 10 && Pow(10, 2) == 10 * Pow(10, 1);
    Assoc(n, Pow(10, k), 100);
    PowAdd(10, dig, 2);
  }

  // ----- what the packing denotes -----

  function Kept(dig: nat): nat { Min(dig, MAXDIG) }

  /** The power of ten of the last kept digit. */
  function KeptPower(ex10: int, dig: nat): int { ex10 + dig - Kept(dig) }

  /** The even power of ten of the packed digits. */
  function PairPower(ex10: int, dig: nat): int { KeptPower(ex10, dig) - KeptPower(ex10, dig) % 2 }

  function FinalPower(ex10: int, dig: nat): int {
    var o := KeptPower(ex10, dig) % 2;
    if dig + o > MAXDIG then PairPower(ex10, dig) else Padded(PairPower(ex10, dig), dig + o)
  }

  /** The kept digits as a number on the power `PairPower`. */
  function PairNumber(h: seq<nat>, p: nat, ex10: int, dig: nat): nat {
    ShiftedBy(Decimal(h, p, Kept(dig)), KeptPower(ex10, dig) % 2)
  }

  /** The number the packed digits denote, on the power `PairPower`: the kept digits, and a lowest
      bit for what does not fit. With 800 digits and an odd power the bit is set by the byte after the digits. */
  ghost function Taken(h: seq<nat>, p: nat, ex10: int, dig: nat): nat {
    var o := KeptPower(ex10, dig) % 2;
    var n := PairNumber(h, p, ex10, dig);
    if dig + o > MAXDIG && Excess(h, p, Kept(dig), dig + o - MAXDIG) then SetLowBit(n) else n
  }

  /** The number the packed digits denote once padded, on the power `FinalPower`. */
  ghost function PackedNumber(h: seq<nat>, p: nat, ex10: int, dig: nat): nat {
    NonNegative(Taken(h, p, ex10, dig), Pow(10, PairPower(ex10, dig) - FinalPower(ex10, dig)));
    Taken(h, p, ex10, dig) * Pow(10, PairPower(ex10, dig) - FinalPower(ex10, dig))
  }

  lemma {:induction false} AllTaken(h: seq<nat>, p: nat, ex10: int, dig: nat, n: nat, k: nat, n1: nat)
    requires dig + KeptPower(ex10, dig) % 2 <= MAXDIG && n == PairNumber(h, p, ex10, dig)
    requires k == PairPower(ex10, dig) - FinalPower(ex10, dig) && n1 == n * Pow(10, k)
    ensures n1 == PackedNumber(h, p, ex10, dig)
  {
    assert Taken(h, p, ex10, dig) == n;
  }

  lemma {:induction false} ExcessTaken(h: seq<nat>, p: nat, ex10: int, dig: nat, n: nat, any: bool)
    requires var o := KeptPower(ex10, dig) % 2;
             dig + o > MAXDIG && n == PairNumber(h, p, ex10, dig) && any == Excess(h, p, Kept(dig), dig + o - MAXDIG)
    ensures PackedNumber(h, p, ex10, dig) == if any then SetLowBit(n) else n
  {
    assert Pow(10, 0) == 1;
  }

  lemma PairPowers(ex10: int, dig: nat)
    ensures PairPower(ex10, dig) % 2 == 0
    ensures dig + KeptPower(ex10, dig) % 2 > MAXDIG ==> FinalPower(ex10, dig) == PairPower(ex10, dig)
  {}

  method Fill(h: seq<nat>, p0: nat, ex10: int, dig0: nat, xi: array<Octet>)
      returns (len: nat, ex: int, dig: nat, ghost ds: seq<nat>, ghost n: nat)
    requires xi.Length == RING && dig0 > 0 && DigitRun(h, p0, dig0)
    modifies xi
    ensures len == |ds| && 2 * len <= Max(Kept(dig0), 20) + 2 && Stored(xi[..], ds, n) && ex % 2 == 0
    ensures ex == FinalPower(ex10, dig0) && n == PackedNumber(h, p0, ex10, dig0)
    ensures dig <= 20 ==> n < Pow(10, dig)
    ensures Clear(old(xi[..]), 0) ==> Clear(xi[..], len)
  {
    var i, e := dig0, ex10;
    if i > MAXDIG {
      e := e + (i - MAXDIG);
      i := MAXDIG;
    }
    assert i == Kept(dig0) && e == KeptPower(ex10, dig0);
    var p;
    p, len, ex, ds := Pack(h, p0, i, e, xi);
    dig := dig0 + e % 2;
    PairPowers(ex10, dig0);
    if dig > MAXDIG {
      ds, n := Cut(h, p0, p, ex10, dig0, dig, xi, len, ds);
      dig := MAXDIG;
    } else {
      len, ex, dig, ds, n := Stretch(h, p0, ex10, dig0, xi, len, ex, dig, ds);
    }
  }

  /** Everything fits: a short number takes zeros for its power of ten. */
  method Stretch(h: seq<nat>, p0: nat, ex10: int, dig0: nat, xi: array<Octet>, len0: nat, ex0: int, dig1: nat,
      ghost was: seq<nat>)
      returns (len: nat, ex: int, dig: nat, ghost ds: seq<nat>, ghost n: nat)
    requires xi.Length == RING && dig1 == dig0 + KeptPower(ex10, dig0) % 2 <= MAXDIG && DigitRun(h, p0, dig0)
    requires |was| == len0 && 2 * len0 <= dig0 + 2 && Stored(xi[..], was, PairNumber(h, p0, ex10, dig0))
    requires ex0 == PairPower(ex10, dig0)
    modifies xi
    ensures len == |ds| && 2 * len <= Max(dig0, 20) + 2 && Stored(xi[..], ds, n) && ex % 2 == 0
    ensures ex == FinalPower(ex10, dig0) && n == PackedNumber(h, p0, ex10, dig0)
    ensures dig <= 20 ==> n < Pow(10, dig)
    ensures Clear(old(xi[..]), len0) ==> Clear(xi[..], len)
  {
    ghost var whole := PairNumber(h, p0, ex10, dig0);
    DecimalBound(h, p0, dig0, KeptPower(ex10, dig0) % 2);
    len, ex, dig, ds, n := Pad(xi, len0, ex0, dig1, was, whole);
    AllTaken(h, p0, ex10, dig0, whole, ex0 - ex, n);
  }

  /** What does not fit, folded into the last digit. */
  method Cut(h: seq<nat>, p0: nat, p: nat, ex10: int, dig0: nat, dig: nat, xi: array<Octet>, len: nat,
      ghost was: seq<nat>)
      returns (ghost ds: seq<nat>, ghost n: nat)
    requires dig == dig0 + KeptPower(ex10, dig0) % 2 > MAXDIG && p == After(h, p0, Kept(dig0))
    requires |was| == len <= xi.Length && Stored(xi[..], was, PairNumber(h, p0, ex10, dig0))
    modifies xi
    ensures |ds| == len && Stored(xi[..], ds, n) && n == PackedNumber(h, p0, ex10, dig0)
    ensures Clear(old(xi[..]), len) ==> Clear(xi[..], len)
  {
    var any := FindExcess(h, p0, p, dig, Kept(dig0));
    n := PairNumber(h, p0, ex10, dig0);
    ExcessTaken(h, p0, ex10, dig0, n, any);
    ds := MarkExcess(xi, len, any, was, n);
    n := if any then SetLowBit(n) else n;
  }

  lemma DecimalBound(h: seq<nat>, p: nat, n: nat, o: nat)
    requires DigitRun(h, p, n)
    requires o < 2
    ensures ShiftedBy(Decimal(h, p, n), o) < Pow(10, n + o)
  {
    TenTimes(Decimal(h, p, n), o);
    ValuesIndex(h, p, n);
    NumeralBound(10, Values(h, p, n));
    PowAdd(10, n, o);
    MulStrict(Pow(10, o), Decimal(h, p, n), Pow(10, n));
  }
}
