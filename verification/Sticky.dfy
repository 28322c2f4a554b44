/** A long value cut to its leading bits, with the rest folded into the lowest ones, rounds like the long value. */
module Sticky {
  import opened Exact
  import opened Ieee
  import opened Fpu

  /** `y` holds the blocks of 2^j of `n / 2^k`, and is a multiple of the block exactly if `n` is. */
  ghost predicate Folds(n: nat, k: nat, y: nat, j: nat) {
    y / Pow(2, j) == n / Pow(2, k + j) && (y % Pow(2, j) == 0 <==> n % Pow(2, k + j) == 0)
  }

  lemma FoldRounds(f: Format, n: nat, k: nat, y: nat, j: nat, e: int)
    requires Folds(n, k, y, j) && BitLen(y) > f.bits + j
    ensures RoundUnits(f, Num(f, y, e + k), Den(f, e + k)) == RoundUnits(f, Num(f, n, e), Den(f, e))
  {
    BitLenShift(y, j);
    BitLenShift(n, k + j);
    var s := Max(BitLen(y) - f.bits, 0 - f.low - e - k);
    FoldHalfEven(n, k, y, j, s);
    ShiftRoundsBy(f, n, e, s + k);
    ShiftRoundsBy(f, y, e + k, s);
  }

  lemma FoldHalfEven(n: nat, k: nat, y: nat, j: nat, s: nat)
    requires Folds(n, k, y, j) && s > j
    ensures HalfEven(y, Pow(2, s)) == HalfEven(n, Pow(2, s + k))
  {
    var t := Pow(2, s - j - 1);
    PowAdd(2, j, s - j);
    PowAdd(2, k + j, s - j);
    HalfEvenBlocks(y, Pow(2, j), t);
    HalfEvenBlocks(n, Pow(2, k + j), t);
  }
}
