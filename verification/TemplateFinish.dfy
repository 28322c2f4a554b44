/** tpl/prov.go, `Finish`: a file's spans mapped through the removal of "<no value>" from its text. */
module TemplateFinish {
  import opened Template
  import opened TemplateSpans

  const N: nat := |NO_VALUE|

  predicate OccursAt(raw: string, i: int) {
    0 <= i && i + N <= |raw| && raw[i..i + N] == NO_VALUE
  }

  /** Where "<no value>" is removed: the occurrences from `i` on, leftmost first, none overlapping the one before. */
  function Cuts(raw: string, i: nat): seq<nat>
    decreases |raw| - i
  {
    if i >= |raw| then []
    else if OccursAt(raw, i) then [i] + Cuts(raw, i + N)
    else Cuts(raw, i + 1)
  }

  predicate InCut(cuts: seq<nat>, k: int) {
    exists j :: 0 <= j < |cuts| && cuts[j] <= k < cuts[j] + N
  }

  /** The bytes of `[a, b)` that are not removed. */
  function Kept(raw: string, cuts: seq<nat>, a: nat, b: nat): string
    requires b <= |raw|
    decreases b - a
  {
    if a >= b then [] else (if InCut(cuts, a) then [] else [raw[a]]) + Kept(raw, cuts, a + 1, b)
  }

  /** How many bytes before `x` are removed: each cut counts as far as it lies before `x`. */
  function Removed(cuts: seq<nat>, x: int): nat {
    if cuts == [] then 0
    else (if cuts[0] + N <= x then N else if cuts[0] < x then x - cuts[0] else 0) + Removed(cuts[1..], x)
  }

  function Shift(cuts: seq<nat>, x: int): int { x - Removed(cuts, x) }

  // ----- cuts -----

  /** Each cut ends before the next begins. */
  predicate Separated(cuts: seq<nat>, from: int) {
    cuts == [] || (from <= cuts[0] && Separated(cuts[1..], cuts[0] + N))
  }

  lemma {:induction false} CutsSeparated(raw: string, i: nat)
    ensures Separated(Cuts(raw, i), i)
    decreases |raw| - i
  {
    if i < |raw| {
      if OccursAt(raw, i) {
        CutsSeparated(raw, i + N);
        assert Cuts(raw, i)[1..] == Cuts(raw, i + N);
      } else {
        CutsSeparated(raw, i + 1);
      }
    }
  }

  lemma {:induction false} SeparatedAbove(cuts: seq<nat>, from: int, x: int)
    requires Separated(cuts, from) && x < from
    ensures !InCut(cuts, x) && Removed(cuts, x + 1) == 0 && Removed(cuts, x) == 0
  {
    if cuts != [] {
      SeparatedAbove(cuts[1..], cuts[0] + N, x);
      InCutSplit(cuts, x);
    }
  }

  lemma InCutSplit(cuts: seq<nat>, x: int)
    requires cuts != []
    ensures InCut(cuts, x) <==> cuts[0] <= x < cuts[0] + N || InCut(cuts[1..], x)
  {
    if InCut(cuts[1..], x) {
      var j :| 0 <= j < |cuts[1..]| && cuts[1..][j] <= x < cuts[1..][j] + N;
      assert cuts[j + 1] <= x < cuts[j + 1] + N;
    }
    if InCut(cuts, x) && !(cuts[0] <= x < cuts[0] + N) {
      var j :| 0 <= j < |cuts| && cuts[j] <= x < cuts[j] + N;
      assert cuts[1..][j - 1] == cuts[j];
    }
  }

  /** One byte further, one more is removed exactly if it lies in a cut. */
  lemma {:induction false} RemovedStep(cuts: seq<nat>, from: int, x: int)
    requires Separated(cuts, from)
    ensures Removed(cuts, x + 1) == Removed(cuts, x) + if InCut(cuts, x) then 1 else 0
  {
    if cuts != [] {
      InCutSplit(cuts, x);
      if x < cuts[0] + N {
        SeparatedAbove(cuts[1..], cuts[0] + N, x);
      } else {
        RemovedStep(cuts[1..], cuts[0] + N, x);
      }
    }
  }

  lemma {:induction false} NothingRemoved(cuts: seq<nat>)
    ensures Removed(cuts, 0) == 0
  {
    if cuts != [] { NothingRemoved(cuts[1..]); }
  }

  /** The shifted offset is how many bytes are kept before it. */
  lemma {:induction false} ShiftCounts(raw: string, cuts: seq<nat>, from: int, a: nat, b: nat)
    requires Separated(cuts, from) && a <= b <= |raw|
    ensures |Kept(raw, cuts, a, b)| == Shift(cuts, b) - Shift(cuts, a)
    decreases b - a
  {
    if a < b {
      RemovedStep(cuts, from, a);
      ShiftCounts(raw, cuts, from, a + 1, b);
    }
  }

  lemma {:induction false} KeptSplit(raw: string, cuts: seq<nat>, a: nat, b: nat, c: nat)
    requires a <= b <= c <= |raw|
    ensures Kept(raw, cuts, a, c) == Kept(raw, cuts, a, b) + Kept(raw, cuts, b, c)
    decreases b - a
  {
    if a < b { KeptSplit(raw, cuts, a + 1, b, c); }
  }

  // ----- the text kept is the text replaced -----

  lemma {:induction false} CutRun(raw: string, cuts: seq<nat>, i: nat, a: nat)
    requires i <= a <= i + N <= |raw| && i in cuts
    ensures Kept(raw, cuts, a, i + N) == []
    decreases i + N - a
  {
    if a < i + N {
      var j :| 0 <= j < |cuts| && cuts[j] == i;
      assert InCut(cuts, a);
      CutRun(raw, cuts, i, a + 1);
    }
  }

  lemma {:induction false} PrefixOccurs(raw: string, i: nat)
    requires i <= |raw|
    ensures NO_VALUE <= raw[i..] <==> OccursAt(raw, i)
  {
    if i + N <= |raw| { assert raw[i..][..N] == raw[i..i + N]; }
  }

  /** From a scan position on -- every earlier cut is over -- the bytes kept are those `ReplaceAll` leaves. */
  lemma {:induction false} KeptIsClean(raw: string, before: seq<nat>, i: nat)
    requires i <= |raw| && forall j | 0 <= j < |before| :: before[j] + N <= i
    ensures Kept(raw, before + Cuts(raw, i), i, |raw|) == Clean(raw, i)
    decreases |raw| - i
  {
    var cuts := before + Cuts(raw, i);
    if i < |raw| {
      PrefixOccurs(raw, i);
      if OccursAt(raw, i) {
        assert cuts == (before + [i]) + Cuts(raw, i + N);
        assert cuts[|before|] == i;
        CutRun(raw, cuts, i, i);
        KeptSplit(raw, cuts, i, i + N, |raw|);
        KeptIsClean(raw, before + [i], i + N);
      } else {
        CutsSeparated(raw, i + 1);
        SeparatedAbove(Cuts(raw, i + 1), i + 1, i);
        NotInEither(before, Cuts(raw, i + 1), i);
        KeptIsClean(raw, before, i + 1);
      }
    }
  }

  lemma NotInEither(a: seq<nat>, b: seq<nat>, k: int)
    requires (forall j | 0 <= j < |a| :: a[j] + N <= k) && !InCut(b, k)
    ensures !InCut(a + b, k)
  {
    forall j | 0 <= j < |a + b|
      ensures !((a + b)[j] <= k < (a + b)[j] + N)
    {
      if j >= |a| { assert (a + b)[j] == b[j - |a|]; }
    }
  }

  // ----- Finish -----

  /** `strings.Index` from `i` on. */
  method IndexFrom(raw: string, i: nat) returns (j: int)
    requires i <= |raw|
    ensures j == -1 ==> Cuts(raw, i) == []
    ensures j != -1 ==> i <= j && OccursAt(raw, j) && Cuts(raw, i) == [j] + Cuts(raw, j + N)
  {
    j := i;
    while j < |raw|
      invariant i <= j <= |raw| && Cuts(raw, i) == Cuts(raw, j)
    {
      if OccursAt(raw, j) { return; }
      j := j + 1;
    }
    j := -1;
  }

  method FindCuts(raw: string) returns (cuts: seq<nat>)
    ensures cuts == Cuts(raw, 0)
  {
    cuts := [];
    var i := 0;
    while true
      invariant 0 <= i <= |raw| && cuts + Cuts(raw, i) == Cuts(raw, 0)
      decreases |raw| - i
    {
      var j := IndexFrom(raw, i);
      if j < 0 { return; }
      assert cuts + ([j] + Cuts(raw, j + N)) == cuts + [j] + Cuts(raw, j + N);
      cuts := cuts + [j];
      i := j + N;
    }
  }

  method ShiftOffset(cuts: seq<nat>, x: int) returns (y: int)
    ensures y == Shift(cuts, x)
  {
    var d, k := 0, 0;
    while k < |cuts|
      invariant 0 <= k <= |cuts| && d + Removed(cuts[k..], x) == Removed(cuts, x)
    {
      assert cuts[k..][1..] == cuts[k + 1..];
      var c := cuts[k];
      if c + N <= x {
        d := d + N;
      } else if c < x {
        d := d + (x - c);
      }
      k := k + 1;
    }
    y := x - d;
  }

  /** The offsets of the spans lie in the text. */
  predicate InText(spans: seq<Span>, raw: string) {
    forall k | 0 <= k < |spans| :: spans[k].start <= spans[k].end <= |raw|
  }

  /** The span's text in the result is its raw text without the removed bytes. */
  ghost predicate MapsTo(raw: string, text: string, was: Span, now: Span) {
    && was.start <= was.end <= |raw| && now.start <= now.end <= |text| && was.loc == now.loc && was.kind == now.kind
        && was.values == now.values
    && text[now.start..now.end] == Kept(raw, Cuts(raw, 0), was.start, was.end)
  }

  lemma {:induction false} ShiftedText(raw: string, a: nat, b: nat)
    requires a <= b <= |raw|
    ensures var cuts, text := Cuts(raw, 0), Clean(raw, 0);
            0 <= Shift(cuts, a) <= Shift(cuts, b) <= |text|
                && text[Shift(cuts, a)..Shift(cuts, b)] == Kept(raw, cuts, a, b)
  {
    var cuts := Cuts(raw, 0);
    KeptIsClean(raw, [], 0);
    assert [] + cuts == cuts;
    KeptSplit(raw, cuts, 0, a, |raw|);
    KeptSplit(raw, cuts, a, b, |raw|);
    KeptLength(raw, a);
    CutsSeparated(raw, 0);
    ShiftCounts(raw, cuts, 0, a, b);
    Middle(Kept(raw, cuts, 0, a), Kept(raw, cuts, a, b), Kept(raw, cuts, b, |raw|));
  }

  lemma Middle(a: string, b: string, c: string)
    ensures (a + (b + c))[|a|..|a| + |b|] == b
  {}

  lemma {:induction false} KeptLength(raw: string, a: nat)
    requires a <= |raw|
    ensures |Kept(raw, Cuts(raw, 0), 0, a)| == Shift(Cuts(raw, 0), a)
  {
    CutsSeparated(raw, 0);
    NothingRemoved(Cuts(raw, 0));
    ShiftCounts(raw, Cuts(raw, 0), 0, 0, a);
  }

  /** The spans' offsets shifted, nothing else of them changed. */
  ghost predicate Shifted(cuts: seq<nat>, was: seq<Span>, now: seq<Span>) {
    |was| == |now| && forall k | 0 <= k < |was| :: ShiftedSpan(cuts, was[k], now[k])
  }

  ghost predicate ShiftedSpan(cuts: seq<nat>, was: Span, now: Span) {
    now.start == Shift(cuts, was.start) && now.end == Shift(cuts, was.end) && was.loc == now.loc && was.kind == now.kind
        && was.values == now.values
  }

  method ShiftSpans(spans: array<Span>, raw: string, cuts: seq<nat>)
    requires InText(spans[..], raw) && cuts == Cuts(raw, 0)
    modifies spans
    ensures Shifted(cuts, old(spans[..]), spans[..])
  {
    ghost var was := spans[..];
    var k := 0;
    while k < spans.Length
      invariant 0 <= k <= spans.Length && spans[k..] == was[k..] && Shifted(cuts, was[..k], spans[..k])
    {
      assert spans[k..][0] == was[k..][0];
      var sp := spans[k];
      var a := ShiftOffset(cuts, sp.start);
      var b := ShiftOffset(cuts, sp.end);
      ShiftedText(raw, sp.start, sp.end);
      spans[k] := sp.(start := a, end := b);
      k := k + 1;
    }
  }

  /** `Finish`: the spans shifted in place, and the text as the engine emits it. */
  method Finish(spans: array<Span>, raw: string) returns (text: string)
    requires InText(spans[..], raw)
    modifies spans
    ensures text == Clean(raw, 0)
    ensures forall k | 0 <= k < spans.Length :: MapsTo(raw, text, old(spans[..])[k], spans[..][k])
    ensures Tiles(old(spans[..]), 0, |raw|) ==> Tiles(spans[..], 0, |text|)
  {
    ghost var was := spans[..];
    var cuts := FindCuts(raw);
    text := Clean(raw, 0);
    ShiftSpans(spans, raw, cuts);
    SpansMapped(raw, was, spans[..]);
  }

  lemma {:induction false} SpansMapped(raw: string, was: seq<Span>, now: seq<Span>)
    requires InText(was, raw) && Shifted(Cuts(raw, 0), was, now)
    ensures forall k | 0 <= k < |was| :: MapsTo(raw, Clean(raw, 0), was[k], now[k])
    ensures Tiles(was, 0, |raw|) ==> Tiles(now, 0, |Clean(raw, 0)|)
  {
    forall k | 0 <= k < |was|
      ensures MapsTo(raw, Clean(raw, 0), was[k], now[k])
    {
      assert ShiftedSpan(Cuts(raw, 0), was[k], now[k]);
      ShiftedText(raw, was[k].start, was[k].end);
    }
    FinishedEnds(raw);
    if Tiles(was, 0, |raw|) { StillTiles(raw, was, now, 0, |raw|); }
  }

  lemma {:induction false} StillTiles(raw: string, was: seq<Span>, now: seq<Span>, start: nat, end: nat)
    requires Shifted(Cuts(raw, 0), was, now) && Tiles(was, start, end) && InText(was, raw)
    ensures Tiles(now, Shift(Cuts(raw, 0), start), Shift(Cuts(raw, 0), end))
  {
    if was != [] {
      assert ShiftedSpan(Cuts(raw, 0), was[0], now[0]);
      ShiftedText(raw, was[0].start, was[0].end);
      StillTiles(raw, was[1..], now[1..], was[0].end, end);
    }
  }

  /** The emitted text is what the ends of the raw text shift to: spans that tiled the one tile the other. */
  lemma {:induction false} FinishedEnds(raw: string)
    ensures Shift(Cuts(raw, 0), 0) == 0 && Shift(Cuts(raw, 0), |raw|) == |Clean(raw, 0)|
  {
    NothingRemoved(Cuts(raw, 0));
    KeptIsClean(raw, [], 0);
    assert [] + Cuts(raw, 0) == Cuts(raw, 0);
    KeptLength(raw, |raw|);
  }
}
