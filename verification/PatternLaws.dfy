/** What each item of a pattern matches, read off the pattern's bytes (Lua 5.1 manual, section 5.4.1). */
module PatternLaws {
  import opened Patterns
  import opened PatternClasses

  /** The bytes `bs` stand at `p`. */
  predicate Stands(h: seq<nat>, p: int, bs: seq<nat>) {
    forall k | 0 <= k < |bs| :: At(h, p + k) == bs[k]
  }

  lemma StandsTail(h: seq<nat>, p: int, a: seq<nat>, b: seq<nat>)
    requires Stands(h, p, a + b)
    ensures Stands(h, p, a) && Stands(h, p + |a|, b)
  {
    assert forall k | 0 <= k < |a| :: (a + b)[k] == a[k];
    forall k | 0 <= k < |b|
      ensures At(h, p + |a| + k) == b[k]
    {
      assert At(h, p + (|a| + k)) == (a + b)[|a| + k];
    }
  }

  // ----- sets -----

  /** A member of a set as it is written. */
  datatype Member = Byte(c: nat) | Span(lo: nat, hi: nat) | Escape(cl: nat)

  function Spelling(m: Member): seq<nat> {
    match m
    case Byte(c) => [c]
    case Span(lo, hi) => [lo, 45, hi]
    case Escape(cl) => [37, cl]
  }

  function Spelled(ms: seq<Member>): seq<nat> {
    if ms == [] then [] else Spelling(ms[0]) + Spelled(ms[1..])
  }

  predicate Means(m: Member, c: nat) {
    match m
    case Byte(b) => c == b
    case Span(lo, hi) => lo <= c <= hi
    case Escape(cl) => MatchClass(c, cl)
  }

  /** The members can be read back: `]` alone only at the front, `-` only at the front or the end, and `%` never. */
  predicate Readable(ms: seq<Member>, first: bool) {
    ms == [] || (ReadableMember(ms[0], first, |ms| == 1) && Readable(ms[1..], false))
  }

  predicate ReadableMember(m: Member, first: bool, last: bool) {
    match m
    case Byte(c) => c != 0 && c != 37 && (c == 93 ==> first) && (c == 45 ==> first || last)
    case Span(lo, hi) => lo != 0 && lo != 37 && lo != 45 && (lo == 93 ==> first) && hi != 0 && hi != 37 && hi != 93
    case Escape(cl) => cl != 0
  }

  lemma {:induction false} SpelledOne(h: seq<nat>, q: int, ms: seq<Member>)
    requires ms != [] && Stands(h, q, Spelled(ms) + [93])
    ensures Stands(h, q, Spelling(ms[0])) && Stands(h, q + |Spelling(ms[0])|, Spelled(ms[1..]) + [93])
    ensures |Spelled(ms)| == |Spelling(ms[0])| + |Spelled(ms[1..])|
  {
    var a, b := Spelling(ms[0]), Spelled(ms[1..]) + [93];
    assert Spelled(ms) + [93] == a + b;
    StandsTail(h, q, a, b);
  }

  /** What begins the rest of a set. */
  lemma {:induction false} NextByte(h: seq<nat>, q: int, ms: seq<Member>)
    requires Readable(ms, false) && Stands(h, q, Spelled(ms) + [93])
    ensures At(h, q) == 93 <==> ms == []
    ensures At(h, q) == 45 ==> |ms| == 1 && |Spelled(ms)| == 1
  {
    if ms == [] {
      assert Spelled(ms) + [93] == [93];
      assert At(h, q + 0) == [93][0];
    } else {
      SpelledOne(h, q, ms);
      assert At(h, q + 0) == Spelling(ms[0])[0];
      if |ms| == 1 { assert Spelled(ms[1..]) == []; }
    }
  }

  lemma {:induction false} EndOfSet(h: seq<nat>, q: int, ms: seq<Member>, first: bool)
    requires ms != [] && Readable(ms, first) && Stands(h, q, Spelled(ms) + [93])
    ensures SetEnd(h, q) == EndAt(q + |Spelled(ms)| + 1)
    decreases |ms|
  {
    SpelledOne(h, q, ms);
    var m, n := ms[0], q + |Spelling(ms[0])|;
    NextByte(h, n, ms[1..]);
    assert At(h, q + 0) == Spelling(m)[0];
    if !m.Byte? { assert At(h, q + 1) == Spelling(m)[1]; }
    if m.Span? {
      assert At(h, q + 2) == Spelling(m)[2];
      assert SetEnd(h, q) == SetEnd(h, q + 1) == SetEnd(h, q + 2);
    }
    if |ms| > 1 { EndOfSet(h, n, ms[1..], false); } else { assert Spelled(ms[1..]) == []; }
  }

  function Listing(ms: seq<Member>): (es: seq<Element>)
    ensures |es| == |ms|
  {
    seq(|ms|, i requires 0 <= i < |ms| => ElementOf(ms[i]))
  }

  function ElementOf(m: Member): Element {
    match m
    case Byte(c) => Range(c, c)
    case Span(lo, hi) => Range(lo, hi)
    case Escape(cl) => Class(cl)
  }

  lemma {:induction false} MembersListed(h: seq<nat>, q: int, ms: seq<Member>, first: bool)
    requires Readable(ms, first) && Stands(h, q, Spelled(ms) + [93])
    ensures Elements(h, q, q + |Spelled(ms)|) == Listing(ms)
    decreases |ms|
  {
    if ms != [] {
      SpelledOne(h, q, ms);
      var m, n := ms[0], q + |Spelling(ms[0])|;
      NextByte(h, n, ms[1..]);
      MembersListed(h, n, ms[1..], false);
      assert Listing(ms) == [ElementOf(m)] + Listing(ms[1..]);
      assert At(h, q + 0) == Spelling(m)[0];
      if !m.Byte? { assert At(h, q + 1) == Spelling(m)[1]; }
      if m.Span? { assert At(h, q + 2) == Spelling(m)[2]; }
    }
  }

  lemma ListedMeans(ms: seq<Member>, c: nat)
    ensures Listed(Listing(ms), c) <==> exists k :: 0 <= k < |ms| && Means(ms[k], c)
  {
    var es := Listing(ms);
    forall k | 0 <= k < |ms|
      ensures Accepts(es[k], c) <==> Means(ms[k], c)
    {
      assert es[k] == ElementOf(ms[k]);
    }
  }

  function Front(neg: bool): seq<nat> { if neg then [91, 94] else [91] }

  /** A set as it is written. */
  function SetText(neg: bool, ms: seq<Member>): seq<nat> {
    Front(neg) + (Spelled(ms) + [93])
  }

  lemma {:induction false} SetFront(h: seq<nat>, p: int, neg: bool, ms: seq<Member>) returns (q: int)
    requires ms != [] && Stands(h, p, SetText(neg, ms)) && (neg || Spelled(ms)[0] != 94)
    ensures q == (if neg then p + 2 else p + 1) && q + |Spelled(ms)| + 1 == p + |SetText(neg, ms)|
    ensures At(h, p) == 91 && (At(h, p + 1) == 94 <==> neg) && Stands(h, q, Spelled(ms) + [93])
  {
    var rest := Spelled(ms) + [93];
    StandsTail(h, p, Front(neg), rest);
    q := p + |Front(neg)|;
    FrontBytes(h, p, neg);
    if !neg { assert At(h, q + 0) == rest[0]; }
  }

  lemma FrontBytes(h: seq<nat>, p: int, neg: bool)
    requires Stands(h, p, Front(neg))
    ensures At(h, p) == 91 && (neg ==> At(h, p + 1) == 94)
  {
    assert At(h, p + 0) == Front(neg)[0];
    if neg { assert At(h, p + 1) == Front(neg)[1]; }
  }

  lemma {:induction false} SetItem(h: seq<nat>, p: int, neg: bool, q: int, ec: int, c: nat)
    requires At(h, p) == 91 && (At(h, p + 1) == 94 <==> neg) && q == (if neg then p + 2 else p + 1)
    ensures ClassEnd(h, p) == SetEnd(h, q)
    ensures SingleMatch(h, c, p, ec + 1) <==> neg != Listed(Elements(h, q, ec), c)
  {}

  /** A set ends with its bracket and accepts the bytes its members mean, or after `^` the others. */
  lemma {:induction false} SetMeaning(h: seq<nat>, p: int, neg: bool, ms: seq<Member>, c: nat)
    requires ms != [] && Readable(ms, true) && Stands(h, p, SetText(neg, ms))
    requires neg || Spelled(ms)[0] != 94
    ensures ClassEnd(h, p) == EndAt(p + |SetText(neg, ms)|)
    ensures SingleMatch(h, c, p, p + |SetText(neg, ms)|) <==> neg != exists k :: 0 <= k < |ms| && Means(ms[k], c)
  {
    var q := SetFront(h, p, neg, ms);
    SetItem(h, p, neg, q, q + |Spelled(ms)|, c);
    EndOfSet(h, q, ms, true);
    MembersListed(h, q, ms, true);
    ListedMeans(ms, c);
  }

  // ----- one byte -----

  /** `.` accepts every byte, `%` and a byte what the escape means, and any other byte itself. */
  lemma OneByte(h: seq<nat>, p: int, c: nat)
    requires At(h, p) != 91 && (At(h, p) == 37 ==> At(h, p + 1) != 0)
    ensures ClassEnd(h, p) == EndAt(if At(h, p) == 37 then p + 2 else p + 1)
    ensures At(h, p) == 46 ==> SingleMatch(h, c, p, p + 1)
    ensures At(h, p) == 37 ==> (SingleMatch(h, c, p, p + 2) <==> MatchClass(c, At(h, p + 1)))
    ensures At(h, p) != 46 && At(h, p) != 37 ==> (SingleMatch(h, c, p, p + 1) <==> c == At(h, p))
  {}

  /** At `p` stands an item for one byte, up to `ep`. */
  predicate ForOneByte(h: seq<nat>, p: int, ep: int) {
    && ClassEnd(h, p) == EndAt(ep)
    && At(h, p) != 0 && At(h, p) != 40 && At(h, p) != 41
    && (At(h, p) == 37 ==> At(h, p + 1) != 98 && At(h, p + 1) != 102 && !(48 <= At(h, p + 1) <= 57))
    && (At(h, p) == 36 ==> At(h, p + 1) != 0)
  }

  lemma OneByteItem(x: Subject, s: int, p: int, ep: int, caps: seq<Capture>)
    requires ForOneByte(x.h, p, ep)
    ensures p < ep && All(x, s, p, caps) == AllSingle(x, s, p, ep, caps)
  {
    assert ItemAt(x.h, p) == Single(ep);
  }

  /** The byte at `s` is in the subject and the item accepts it. */
  predicate Taken(x: Subject, s: int, p: int, ep: int) {
    s < x.end && SingleMatch(x.h, At(x.h, s), p, ep)
  }

  /** Of the bytes from `s` on, the first `n` are taken and the one after them is not. */
  predicate Greatest(x: Subject, s: int, p: int, ep: int, n: nat) {
    !Taken(x, s + n, p, ep) && forall k | s <= k < s + n :: Taken(x, k, p, ep)
  }

  lemma GreatestRest(x: Subject, s: int, p: int, ep: int, n: nat)
    requires n > 0 && Greatest(x, s, p, ep, n)
    ensures Taken(x, s, p, ep) && Greatest(x, s + 1, p, ep, n - 1)
  {}

  lemma {:induction false} RunIsGreatest(x: Subject, s: int, p: int, ep: int, n: nat)
    requires Greatest(x, s, p, ep, n)
    ensures Run(x, s, p, ep) == n
    decreases n
  {
    if n > 0 {
      GreatestRest(x, s, p, ep, n);
      RunIsGreatest(x, s + 1, p, ep, n - 1);
    }
  }

  // ----- repetitions -----

  /** The lists of results one after the other. */
  function Flat(lists: seq<seq<Outcome>>): seq<Outcome> {
    if lists == [] then [] else lists[0] + Flat(lists[1..])
  }

  /** The results of the rest of the pattern at `from`, `from - 1` and so on, `n` places in all. */
  function Down(x: Subject, from: int, p: int, caps: seq<Capture>, n: nat): seq<seq<Outcome>> {
    seq(n, i requires 0 <= i < n => All(x, from - i, p, caps))
  }

  /** And at `from`, `from + 1` and so on. */
  function Up(x: Subject, from: int, p: int, caps: seq<Capture>, n: nat): seq<seq<Outcome>> {
    seq(n, i requires 0 <= i < n => All(x, from + i, p, caps))
  }

  lemma {:induction false} LongestIsDown(x: Subject, s: int, ep: int, caps: seq<Capture>, i: nat)
    ensures Longest(x, s, ep, caps, i) == Flat(Down(x, s + i, ep + 1, caps, i + 1))
    decreases i
  {
    var down := Down(x, s + i, ep + 1, caps, i + 1);
    if i > 0 {
      LongestIsDown(x, s, ep, caps, i - 1);
      assert down[1..] == Down(x, s + (i - 1), ep + 1, caps, i);
    } else {
      assert down[1..] == [];
    }
  }

  lemma {:induction false} ShortestIsUp(x: Subject, s: int, ep: int, caps: seq<Capture>, n: nat)
    ensures Shortest(x, s, ep, caps, n) == Flat(Up(x, s, ep + 1, caps, n + 1))
    decreases n
  {
    var up := Up(x, s, ep + 1, caps, n + 1);
    if n > 0 {
      ShortestIsUp(x, s + 1, ep, caps, n - 1);
      assert up[1..] == Up(x, s + 1, ep + 1, caps, n);
    } else {
      assert up[1..] == [];
    }
  }

  /** `*` takes as many bytes as there are, then one fewer, down to none. */
  lemma {:induction false} Star(x: Subject, s: int, p: int, ep: int, caps: seq<Capture>, n: nat)
    requires ForOneByte(x.h, p, ep) && At(x.h, ep) == 42 && Greatest(x, s, p, ep, n)
    ensures All(x, s, p, caps) == Flat(Down(x, s + n, ep + 1, caps, n + 1))
  {
    OneByteItem(x, s, p, ep, caps);
    RunIsGreatest(x, s, p, ep, n);
    LongestIsDown(x, s, ep, caps, n);
  }

  lemma {:induction false} OneThenMore(x: Subject, s: int, p: int, ep: int, caps: seq<Capture>, n: nat)
    requires ForOneByte(x.h, p, ep) && At(x.h, ep) == 43 && Greatest(x, s, p, ep, n)
    ensures n > 0 ==> All(x, s, p, caps) == Longest(x, s + 1, ep, caps, n - 1)
    ensures n == 0 ==> All(x, s, p, caps) == []
  {
    OneByteItem(x, s, p, ep, caps);
    if n > 0 {
      GreatestRest(x, s, p, ep, n);
      RunIsGreatest(x, s + 1, p, ep, n - 1);
    }
  }

  lemma LongestFrom(x: Subject, s: int, t: int, ep: int, caps: seq<Capture>, n: nat)
    requires n > 0 && t == s + n
    ensures Longest(x, s + 1, ep, caps, n - 1) == Flat(Down(x, t, ep + 1, caps, n))
  {
    LongestIsDown(x, s + 1, ep, caps, n - 1);
    assert s + 1 + (n - 1) == t;
  }

  /** `+` takes as many bytes as there are, then one fewer, down to one. */
  lemma {:induction false} Plus(x: Subject, s: int, p: int, ep: int, caps: seq<Capture>, n: nat)
    requires ForOneByte(x.h, p, ep) && At(x.h, ep) == 43 && Greatest(x, s, p, ep, n)
    ensures All(x, s, p, caps) == Flat(Down(x, s + n, ep + 1, caps, n))
  {
    OneThenMore(x, s, p, ep, caps, n);
    if n > 0 { LongestFrom(x, s, s + n, ep, caps, n); }
  }

  /** `-` takes no byte, then one, up to as many as there are. */
  lemma {:induction false} Minus(x: Subject, s: int, p: int, ep: int, caps: seq<Capture>, n: nat)
    requires ForOneByte(x.h, p, ep) && At(x.h, ep) == 45 && Greatest(x, s, p, ep, n)
    ensures All(x, s, p, caps) == Flat(Up(x, s, ep + 1, caps, n + 1))
  {
    OneByteItem(x, s, p, ep, caps);
    RunIsGreatest(x, s, p, ep, n);
    ShortestIsUp(x, s, ep, caps, n);
  }

  /** `?` takes the byte if it can, then none. */
  lemma {:induction false} Optional(x: Subject, s: int, p: int, ep: int, caps: seq<Capture>)
    requires ForOneByte(x.h, p, ep) && At(x.h, ep) == 63
    ensures Taken(x, s, p, ep) ==> All(x, s, p, caps) == All(x, s + 1, ep + 1, caps) + All(x, s, ep + 1, caps)
    ensures !Taken(x, s, p, ep) ==> All(x, s, p, caps) == All(x, s, ep + 1, caps)
  {
    OneByteItem(x, s, p, ep, caps);
    assert [] + All(x, s, ep + 1, caps) == All(x, s, ep + 1, caps);
  }

  /** Without a repetition the item takes one byte. */
  lemma {:induction false} Once(x: Subject, s: int, p: int, ep: int, caps: seq<Capture>)
    requires ForOneByte(x.h, p, ep) && At(x.h, ep) !in {42, 43, 45, 63}
    ensures All(x, s, p, caps) == if Taken(x, s, p, ep) then All(x, s + 1, ep, caps) else []
  {
    OneByteItem(x, s, p, ep, caps);
  }

  // ----- balanced text and frontiers -----

  /** How many openings `b` before `k` still wait for their `e`, the one at `s` among them. */
  function Height(h: seq<nat>, b: nat, e: nat, s: int, k: int): int
    decreases k - s
  {
    if k <= s + 1 then 1
    else Height(h, b, e, s, k - 1) + if At(h, k - 1) == e then -1 else if At(h, k - 1) == b then 1 else 0
  }

  /** Some opening before each `k` up to `to` still waits. */
  predicate Waiting(h: seq<nat>, b: nat, e: nat, s: int, to: int) {
    forall k | s < k <= to :: Height(h, b, e, s, k) > 0
  }

  lemma {:induction false} BalancedIsFirst(x: Subject, s: int, t: int, b: nat, e: nat, j: int)
    requires s < j <= t < x.end && Height(x.h, b, e, s, t + 1) == 0
    requires Waiting(x.h, b, e, s, t)
    ensures Balanced(x, j, b, e, Height(x.h, b, e, s, j)) == t + 1
    decreases t - j
  {
    assert Height(x.h, b, e, s, j) > 0;
    if j < t { BalancedIsFirst(x, s, t, b, e, j + 1); }
  }

  lemma {:induction false} NeverBalanced(x: Subject, s: int, b: nat, e: nat, j: int)
    requires s < j && Waiting(x.h, b, e, s, x.end)
    requires Height(x.h, b, e, s, j) > 0
    ensures Balanced(x, j, b, e, Height(x.h, b, e, s, j)) == -1
    decreases x.end - j
  {
    if j < x.end {
      assert Height(x.h, b, e, s, j + 1) > 0;
      NeverBalanced(x, s, b, e, j + 1);
    }
  }

  /** `%bxy`: the text from an `x` up to the `y` after which, for the first time, every `x` has its `y`. */
  lemma {:induction false} BalancedText(x: Subject, s: int, p: int, caps: seq<Capture>, t: int)
    requires At(x.h, p) == 37 && At(x.h, p + 1) == 98 && At(x.h, p + 2) != 0 && At(x.h, p + 3) != 0
    requires At(x.h, s) == At(x.h, p + 2) && s < t < x.end
    requires Height(x.h, At(x.h, p + 2), At(x.h, p + 3), s, t + 1) == 0
    requires Waiting(x.h, At(x.h, p + 2), At(x.h, p + 3), s, t)
    ensures All(x, s, p, caps) == All(x, t + 1, p + 4, caps)
  {
    BalancedIsFirst(x, s, t, At(x.h, p + 2), At(x.h, p + 3), s + 1);
    assert ItemAt(x.h, p) == Item.Balance;
  }

  /** And nothing where there is no such text. */
  lemma {:induction false} NoBalancedText(x: Subject, s: int, p: int, caps: seq<Capture>)
    requires At(x.h, p) == 37 && At(x.h, p + 1) == 98 && At(x.h, p + 2) != 0 && At(x.h, p + 3) != 0
    requires At(x.h, s) != At(x.h, p + 2)
      || Waiting(x.h, At(x.h, p + 2), At(x.h, p + 3), s, x.end)
    ensures All(x, s, p, caps) == []
  {
    if At(x.h, s) == At(x.h, p + 2) { NeverBalanced(x, s, At(x.h, p + 2), At(x.h, p + 3), s + 1); }
    assert ItemAt(x.h, p) == Item.Balance;
  }

  /** `%f[set]`: between a byte outside the set -- a NUL before the subject -- and one inside. */
  lemma {:induction false} FrontierLaw(x: Subject, s: int, p: int, ep: int, caps: seq<Capture>)
    requires At(x.h, p) == 37 && At(x.h, p + 1) == 102 && At(x.h, p + 2) == 91 && ClassEnd(x.h, p + 2) == EndAt(ep)
    ensures
      var before := if s == x.init then 0 else At(x.h, s - 1);
      All(x, s, p, caps) == if !SingleMatch(x.h, before, p + 2, ep) && SingleMatch(x.h, At(x.h, s), p + 2, ep)
        then All(x, s, ep, caps) else []
  {
    assert ItemAt(x.h, p) == Frontier(ep);
  }

  // ----- ends and captures -----

  /** The end of the pattern matches as it is, `$` before it at the end of the subject only. */
  lemma {:induction false} Ends(x: Subject, s: int, p: int, caps: seq<Capture>)
    ensures At(x.h, p) == 0 ==> All(x, s, p, caps) == [Done(s, caps)]
    ensures At(x.h, p) == 36 && At(x.h, p + 1) == 0 ==>
              All(x, s, p, caps) == if s == x.end then [Done(s, caps)] else []
  {}

  /** `(` opens a capture and `()` notes the place; there are at most 32. */
  lemma {:induction false} Opens(x: Subject, s: int, p: int, caps: seq<Capture>)
    requires At(x.h, p) == 40
    ensures |caps| >= 32 ==> All(x, s, p, caps) == [Failed(TooManyCaptures)]
    ensures |caps| < 32 && At(x.h, p + 1) == 41 ==> All(x, s, p, caps) == All(x, s, p + 2, caps + [Capture(s, -2)])
    ensures |caps| < 32 && At(x.h, p + 1) != 41 ==> All(x, s, p, caps) == All(x, s, p + 1, caps + [Capture(s, -1)])
  {}

  /** `)` gives the last capture still open the bytes since its start. */
  lemma {:induction false} Closes(x: Subject, s: int, p: int, caps: seq<Capture>, l: nat)
    requires At(x.h, p) == 41 && l < |caps| && caps[l].len == -1 && forall k | l < k < |caps| :: caps[k].len != -1
    ensures All(x, s, p, caps) == All(x, s, p + 1, caps[l := Capture(caps[l].init, s - caps[l].init)])
  {
    LastOpenIs(caps, l);
  }

  lemma {:induction false} LastOpenIs(caps: seq<Capture>, l: nat)
    requires l < |caps| && caps[l].len == -1 && forall k | l < k < |caps| :: caps[k].len != -1
    ensures LastOpen(caps) == l
    decreases |caps|
  {
    if l < |caps| - 1 { LastOpenIs(caps[..|caps| - 1], l); }
  }

  /** A `)` too many is an error. */
  lemma {:induction false} ClosesNothing(x: Subject, s: int, p: int, caps: seq<Capture>)
    requires At(x.h, p) == 41 && forall k | 0 <= k < |caps| :: caps[k].len != -1
    ensures All(x, s, p, caps) == [Failed(InvalidPatternCapture)]
  {}

  /** `%1` to `%9` match the bytes of a closed capture again. */
  lemma {:induction false} Again(x: Subject, s: int, p: int, caps: seq<Capture>, i: int)
    requires At(x.h, p) == 37 && At(x.h, p + 1) == 48 + i && 0 <= i <= 9
    ensures i == 0 || i > |caps| || caps[i - 1].len == -1 ==> All(x, s, p, caps) == [Failed(InvalidCaptureIndex)]
    ensures 1 <= i <= |caps| && caps[i - 1].len >= 0 ==>
              var c := caps[i - 1];
              All(x, s, p, caps) == if s + c.len <= x.end && BytesAt(x.h, c.init, c.len) == BytesAt(x.h, s, c.len)
                then All(x, s + c.len, p + 2, caps) else []
  {
    assert ItemAt(x.h, p) == BackReference(i - 1);
    if 1 <= i <= |caps| && caps[i - 1].len >= 0 { SameBytesAt(x.h, caps[i - 1].init, s, caps[i - 1].len); }
  }

  /** The `n` bytes at `at`. */
  function BytesAt(h: seq<nat>, at: int, n: nat): seq<nat> {
    seq<nat>(n, k requires 0 <= k < n => At(h, at + k))
  }

  lemma {:induction false} SameBytesAt(h: seq<nat>, a: int, b: int, n: nat)
    ensures Same(h, a, b, n) <==> BytesAt(h, a, n) == BytesAt(h, b, n)
  {
    var u, v := BytesAt(h, a, n), BytesAt(h, b, n);
    if Same(h, a, b, n) {
      forall k | 0 <= k < n
        ensures u[k] == v[k]
      {
        assert At(h, a + k) == At(h, a + k - a + b);
      }
    }
    if u == v {
      forall k | a <= k < a + n
        ensures At(h, k) == At(h, k - a + b)
      {
        assert u[k - a] == v[k - a];
      }
    }
  }

  // ----- malformed patterns -----

  /** A set without its bracket before the pattern's end. */
  lemma {:induction false} Unclosed(h: seq<nat>, q: int, z: int)
    requires q <= z && At(h, z) == 0 && forall k | q < k < z :: At(h, k) != 93
    ensures SetEnd(h, q) == Bad(MissingBracket)
    decreases z - q
  {
    if At(h, q) != 0 {
      var n := if At(h, q) == 37 && At(h, q + 1) != 0 then q + 2 else q + 1;
      assert n <= z;
      assert At(h, n) != 93;
      Unclosed(h, n, z);
    }
  }

  /** What is not a pattern, and its error. */
  lemma {:induction false} NoPattern(x: Subject, s: int, p: int, caps: seq<Capture>)
    ensures At(x.h, p) == 37 && At(x.h, p + 1) == 0 ==> All(x, s, p, caps) == [Failed(EndsWithEscape)]
    ensures At(x.h, p) == 37 && At(x.h, p + 1) == 98 && (At(x.h, p + 2) == 0 || At(x.h, p + 3) == 0) ==>
              All(x, s, p, caps) == [Failed(UnbalancedPattern)]
    ensures At(x.h, p) == 37 && At(x.h, p + 1) == 102 && At(x.h, p + 2) != 91 ==>
              All(x, s, p, caps) == [Failed(MissingFrontierSet)]
  {}

  lemma {:induction false} NoSet(x: Subject, s: int, p: int, caps: seq<Capture>, z: int)
    requires At(x.h, p) == 91 && p < z && At(x.h, z) == 0
    requires forall k | p + 2 <= k < z :: At(x.h, k) != 93
    ensures All(x, s, p, caps) == [Failed(MissingBracket)]
  {
    Unclosed(x.h, if At(x.h, p + 1) == 94 then p + 2 else p + 1, z);
  }
}
