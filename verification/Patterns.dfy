/** lstrmatch.js: what Lua patterns mean -- items, classes, and all the results of a match in the order of preference
    (Lua 5.1 manual, section 5.4.1). */
module Patterns {
  import opened Exact
  import opened Bits

  /** A byte of the heap; outside it reads zero. */
  function At(h: seq<nat>, i: int): nat {
    if 0 <= i < |h| then h[i] else 0
  }

  const MAX_CAPTURES: nat := 32
  const OPENED: int := -1
  const POSITION: int := -2

  datatype Capture = Capture(init: int, len: int)

  datatype Error = TooManyCaptures | InvalidPatternCapture | UnbalancedPattern | EndsWithEscape | MissingBracket
                 | MissingFrontierSet | InvalidCaptureIndex | UnfinishedCapture | TooComplex | InvalidReplacement

  datatype Outcome = Done(end: int, caps: seq<Capture>) | Failed(error: Error)

  /** The heap, and the subject's first byte and end in it. */
  datatype Subject = Subject(h: seq<nat>, init: int, end: int)

  // ----- character classes -----

  /** `lj_char_bits`: control 1, space 2, punctuation 4, digit 8, hexadecimal 16, upper 32, lower 64, identifier 128. */
  function CharBits(c: nat): nat {
    if c < 9 then 1 else if c < 14 then 3 else if c < 32 then 1 else if c == 32 then 2
    else if c < 48 then 4 else if c < 58 then 152 else if c < 65 then 4
    else if c < 71 then 176 else if c < 91 then 160 else if c < 95 then 4 else if c == 95 then 132
        else if c == 96 then 4
    else if c < 103 then 208 else if c < 123 then 192 else if c < 127 then 4 else if c == 127 then 1 else 128
  }

  predicate IsDigit(c: nat) { 48 <= c <= 57 }

  /** The bits a class letter asks for, by its place in the alphabet. */
  const CLASS_MAP: seq<nat> := [0, 96, 0, 1, 8, 0, 0, 108, 0, 0, 0, 0, 64, 0, 0, 0, 4, 0, 0, 2, 0, 32, 0, 104, 16, 0, 0,
      0, 0, 0, 0, 0]

  /** `match_class`: byte `c` against the escape `%cl`. */
  predicate MatchClass(c: nat, cl: nat) {
    if 64 <= cl < 128 && CLASS_MAP[cl % 32] != 0 then (And(CharBits(c), CLASS_MAP[cl % 32]) != 0) == (cl / 32 % 2 == 1)
    else if cl == 122 then c == 0
    else if cl == 90 then c != 0
    else cl == c
  }

  datatype Element = Class(cl: nat) | Range(lo: nat, hi: nat)

  predicate Accepts(e: Element, c: nat) {
    match e
    case Class(cl) => MatchClass(c, cl)
    case Range(lo, hi) => lo <= c <= hi
  }

  /** The members a bracketed set lists between `p` and its closing bracket `ec`. */
  function Elements(h: seq<nat>, p: int, ec: int): seq<Element>
    decreases ec - p
  {
    if p >= ec then []
    else if At(h, p) == 37 then [Class(At(h, p + 1))] + Elements(h, p + 2, ec)
    else if At(h, p + 1) == 45 && p + 2 < ec then [Range(At(h, p), At(h, p + 2))] + Elements(h, p + 3, ec)
    else [Range(At(h, p), At(h, p))] + Elements(h, p + 1, ec)
  }

  predicate Listed(es: seq<Element>, c: nat) {
    exists k :: 0 <= k < |es| && Accepts(es[k], c)
  }

  /** The set that begins at `p` with its bracket and ends with the one at `ec`. */
  predicate InSet(h: seq<nat>, c: nat, p: int, ec: int) {
    if At(h, p + 1) == 94 then !Listed(Elements(h, p + 2, ec), c) else Listed(Elements(h, p + 1, ec), c)
  }

  /** `singlematch`: byte `c` against the single-character item at `p` that ends before `ep`. */
  predicate SingleMatch(h: seq<nat>, c: nat, p: int, ep: int) {
    if At(h, p) == 46 then true
    else if At(h, p) == 37 then MatchClass(c, At(h, p + 1))
    else if At(h, p) == 91 then InSet(h, c, p, ep - 1)
    else At(h, p) == c
  }

  // ----- items -----

  datatype ItemEnd = EndAt(ep: int) | Bad(error: Error)

  /** Where the set whose first member is at `q` ends. */
  function SetEnd(h: seq<nat>, q: int): (r: ItemEnd)
    ensures r.EndAt? ==> q + 1 < r.ep
    ensures r.Bad? ==> r.error == MissingBracket
    decreases |h| - q
  {
    if At(h, q) == 0 then Bad(MissingBracket)
    else
      var n := if At(h, q) == 37 && At(h, q + 1) != 0 then q + 2 else q + 1;
      if At(h, n) == 93 then EndAt(n + 1) else SetEnd(h, n)
  }

  /** Where the single-character item at `p` ends. */
  function ClassEnd(h: seq<nat>, p: int): (r: ItemEnd)
    ensures r.EndAt? ==> p < r.ep
    ensures r.Bad? ==> r.error == EndsWithEscape || r.error == MissingBracket
  {
    if At(h, p) == 37 then if At(h, p + 1) == 0 then Bad(EndsWithEscape) else EndAt(p + 2)
    else if At(h, p) == 91 then SetEnd(h, if At(h, p + 1) == 94 then p + 2 else p + 1)
    else EndAt(p + 1)
  }

  datatype Item = Stop | EndAnchor | Open(next: int, what: int) | Close | Balance | Frontier(ep: int)
      | BackReference(l: int)
                | Single(ep: int) | Malformed(error: Error)

  function SingleItem(h: seq<nat>, p: int): Item {
    match ClassEnd(h, p)
    case Bad(error) => Malformed(error)
    case EndAt(ep) => Single(ep)
  }

  /** The pattern item at `p`. */
  function ItemAt(h: seq<nat>, p: int): Item {
    var c, d := At(h, p), At(h, p + 1);
    if c == 40 then if d == 41 then Open(p + 2, POSITION) else Open(p + 1, OPENED)
    else if c == 41 then Close
    else if c == 37 && d == 98 then if At(h, p + 2) == 0 || At(h, p + 3) == 0 then Malformed(UnbalancedPattern)
        else Balance
    else if c == 37 && d == 102 then
      if At(h, p + 2) != 91 then Malformed(MissingFrontierSet)
      else (match ClassEnd(h, p + 2) case Bad(error) => Malformed(error) case EndAt(ep) => Frontier(ep))
    else if c == 37 && IsDigit(d) then BackReference(d - 49)
    else if c == 0 then Stop
    else if c == 36 && d == 0 then EndAnchor
    else SingleItem(h, p)
  }

  // ----- the parts of a match -----

  /** The end of the balanced text: `cont` openings `b` still wait for their `e` from `s` on. */
  function Balanced(x: Subject, s: int, b: nat, e: nat, cont: nat): (r: int)
    requires cont > 0
    ensures r == -1 || (s < r <= x.end)
    decreases x.end - s
  {
    if s >= x.end then -1
    else if At(x.h, s) == e then if cont == 1 then s + 1 else Balanced(x, s + 1, b, e, cont - 1)
    else Balanced(x, s + 1, b, e, if At(x.h, s) == b then cont + 1 else cont)
  }

  /** `%b`: the end of the balanced text at `s`, or -1. */
  function BalanceEnd(x: Subject, s: int, p: int): (r: int)
    ensures r == -1 || s < r
  {
    if At(x.h, s) != At(x.h, p) then -1 else Balanced(x, s + 1, At(x.h, p), At(x.h, p + 1), 1)
  }

  /** `%f`: the byte before is outside the set, this one inside. */
  predicate AtFrontier(x: Subject, s: int, p: int, ep: int) {
    !InSet(x.h, if s == x.init then 0 else At(x.h, s - 1), p, ep - 1) && InSet(x.h, At(x.h, s), p, ep - 1)
  }

  /** The last capture still open, or -1. */
  function LastOpen(caps: seq<Capture>): (l: int)
    ensures -1 <= l < |caps| && (l >= 0 ==> caps[l].len == OPENED)
  {
    if caps == [] then -1
    else if caps[|caps| - 1].len == OPENED then |caps| - 1
    else LastOpen(caps[..|caps| - 1])
  }

  /** `n` bytes at `a` and at `b` agree; a negative count compares nothing. */
  predicate Same(h: seq<nat>, a: int, b: int, n: int) {
    forall k | a <= k < a + n :: At(h, k) == At(h, k - a + b)
  }

  /** How many bytes from `s` on match the single item. */
  function Run(x: Subject, s: int, p: int, ep: int): nat
    decreases x.end - s
  {
    if s < x.end && SingleMatch(x.h, At(x.h, s), p, ep) then 1 + Run(x, s + 1, p, ep) else 0
  }

  // ----- all results -----

  /** What is left of the heap from `p` on. */
  function Left(h: seq<nat>, p: int): nat { Max(0, |h| - p) }

  /** Every result of matching the pattern at `p` against the subject at `s`, the preferred ones first. */
  function All(x: Subject, s: int, p: int, caps: seq<Capture>): seq<Outcome>
    decreases Left(x.h, p), 2, 0
  {
    match ItemAt(x.h, p)
    case Malformed(error) => [Failed(error)]
    case Stop => [Done(s, caps)]
    case EndAnchor => if s == x.end then [Done(s, caps)] else []
    case Open(next, what) =>
      if |caps| >= MAX_CAPTURES then [Failed(TooManyCaptures)] else All(x, s, next, caps + [Capture(s, what)])
    case Close =>
      var l := LastOpen(caps);
      if l < 0 then [Failed(InvalidPatternCapture)]
          else All(x, s, p + 1, caps[l := Capture(caps[l].init, s - caps[l].init)])
    case Balance => var e := BalanceEnd(x, s, p + 2); if e == -1 then [] else All(x, e, p + 4, caps)
    case Frontier(ep) => if AtFrontier(x, s, p + 2, ep) then All(x, s, ep, caps) else []
    case BackReference(l) =>
      if l < 0 || l >= |caps| || caps[l].len == OPENED then [Failed(InvalidCaptureIndex)]
      else if x.end - s >= caps[l].len && Same(x.h, caps[l].init, s, caps[l].len)
          then All(x, s + caps[l].len, p + 2, caps)
      else []
    case Single(ep) => AllSingle(x, s, p, ep, caps)
  }

  /** A single-character item, optional or repeated. */
  function AllSingle(x: Subject, s: int, p: int, ep: int, caps: seq<Capture>): seq<Outcome>
    requires At(x.h, p) != 0 && p < ep
    decreases Left(x.h, p), 1, 0
  {
    var m := s < x.end && SingleMatch(x.h, At(x.h, s), p, ep);
    var rep := At(x.h, ep);
    if rep == 63 then (if m then All(x, s + 1, ep + 1, caps) else []) + All(x, s, ep + 1, caps)
    else if rep == 42 then Longest(x, s, ep, caps, Run(x, s, p, ep))
    else if rep == 43 then if m then Longest(x, s + 1, ep, caps, Run(x, s + 1, p, ep)) else []
    else if rep == 45 then Shortest(x, s, ep, caps, Run(x, s, p, ep))
    else if m then All(x, s + 1, ep, caps) else []
  }

  /** After `i` repetitions, then after one fewer, and so on. */
  function Longest(x: Subject, s: int, ep: int, caps: seq<Capture>, i: nat): seq<Outcome>
    decreases Left(x.h, ep + 1), 3, i
  {
    All(x, s + i, ep + 1, caps) + if i == 0 then [] else Longest(x, s, ep, caps, i - 1)
  }

  /** After no repetition, then after one, up to `n`. */
  function Shortest(x: Subject, s: int, ep: int, caps: seq<Capture>, n: nat): seq<Outcome>
    decreases Left(x.h, ep + 1), 3, n
  {
    All(x, s, ep + 1, caps) + if n == 0 then [] else Shortest(x, s + 1, ep, caps, n - 1)
  }
}
