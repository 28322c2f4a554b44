/** lstrmatch.js: the backtracking matcher over its mutable state, against the list of all results. */
module LStrMatch {
  import opened Patterns

  /** A match found its end, found none, or raised an error. */
  datatype Result = Found(end: int) | NotFound | Raised(error: Error)

  /** The deepest nesting of `match` calls. */
  const MAX_DEPTH: nat := 200

  // ----- the loops that only read -----

  method FindSetEnd(h: seq<nat>, p0: int) returns (r: ItemEnd)
    ensures r == SetEnd(h, p0)
  {
    var p := p0;
    while true
      invariant SetEnd(h, p) == SetEnd(h, p0)
      decreases |h| - p
    {
      if At(h, p) == 0 { return Bad(MissingBracket); }
      p := p + 1;
      if At(h, p - 1) == 37 && At(h, p) != 0 { p := p + 1; }
      if At(h, p) == 93 { return EndAt(p + 1); }
    }
  }

  /** `classend` */
  method FindClassEnd(h: seq<nat>, p0: int) returns (r: ItemEnd)
    ensures r == ClassEnd(h, p0)
  {
    var p := p0 + 1;
    if At(h, p0) == 37 {
      if At(h, p) == 0 { return Bad(EndsWithEscape); }
      return EndAt(p + 1);
    }
    if At(h, p0) == 91 {
      if At(h, p) == 94 { p := p + 1; }
      r := FindSetEnd(h, p);
      return;
    }
    return EndAt(p);
  }

  lemma ListedCons(e: Element, rest: seq<Element>, c: nat)
    ensures Listed([e] + rest, c) <==> Accepts(e, c) || Listed(rest, c)
  {
    var es := [e] + rest;
    if Accepts(e, c) { assert Accepts(es[0], c); }
    if k :| 0 <= k < |rest| && Accepts(rest[k], c) { assert Accepts(es[k + 1], c); }
  }

  /** `matchbracketclass`: the first member that accepts the byte decides. */
  method MatchBracketClass(h: seq<nat>, c: nat, p0: int, ec: int) returns (r: bool)
    ensures r == InSet(h, c, p0, ec)
  {
    var sig, p := true, p0;
    if At(h, p + 1) == 94 {
      sig, p := false, p + 1;
    }
    p := p + 1;
    ghost var listed := Listed(Elements(h, p, ec), c);
    while p < ec
      invariant Listed(Elements(h, p, ec), c) == listed
      decreases ec - p
    {
      if At(h, p) == 37 {
        ListedCons(Class(At(h, p + 1)), Elements(h, p + 2, ec), c);
        p := p + 1;
        if MatchClass(c, At(h, p)) { return sig; }
      } else if At(h, p + 1) == 45 && p + 2 < ec {
        ListedCons(Range(At(h, p), At(h, p + 2)), Elements(h, p + 3, ec), c);
        p := p + 2;
        if At(h, p - 2) <= c && c <= At(h, p) { return sig; }
      } else {
        ListedCons(Range(At(h, p), At(h, p)), Elements(h, p + 1, ec), c);
        if At(h, p) == c { return sig; }
      }
      p := p + 1;
    }
    r := !sig;
  }

  /** `singlematch` */
  method MatchSingle(h: seq<nat>, c: nat, p: int, ep: int) returns (r: bool)
    ensures r == SingleMatch(h, c, p, ep)
  {
    if At(h, p) == 46 { return true; }
    if At(h, p) == 37 { return MatchClass(c, At(h, p + 1)); }
    if At(h, p) == 91 {
      r := MatchBracketClass(h, c, p, ep - 1);
      return;
    }
    r := At(h, p) == c;
  }

  /** `matchbalance` */
  method MatchBalance(x: Subject, s0: int, p: int) returns (r: Result)
    ensures At(x.h, p) == 0 || At(x.h, p + 1) == 0 ==> r == Raised(UnbalancedPattern)
    ensures At(x.h, p) != 0 && At(x.h, p + 1) != 0 ==> r == if BalanceEnd(x, s0, p) == -1 then NotFound
        else Found(BalanceEnd(x, s0, p))
  {
    if At(x.h, p) == 0 || At(x.h, p + 1) == 0 { return Raised(UnbalancedPattern); }
    if At(x.h, s0) != At(x.h, p) { return NotFound; }
    var b, e, cont, s := At(x.h, p), At(x.h, p + 1), 1, s0 + 1;
    while s < x.end
      invariant cont > 0 && Balanced(x, s, b, e, cont) == BalanceEnd(x, s0, p)
      decreases x.end - s
    {
      if At(x.h, s) == e {
        cont := cont - 1;
        if cont == 0 { return Found(s + 1); }
      } else if At(x.h, s) == b {
        cont := cont + 1;
      }
      s := s + 1;
    }
    return NotFound;
  }

  // ----- the matcher -----

  /** The first of all results, when there is one. */
  ghost predicate Answers(r: Result, all: seq<Outcome>, caps: seq<Capture>) {
    match r
    case Found(e) => all != [] && all[0] == Done(e, caps)
    case NotFound => all == []
    case Raised(error) => error == TooComplex || (all != [] && all[0] == Failed(error))
  }

  class MatchState {
    const x: Subject
    var level: nat
    var depth: nat
    var capture: seq<Capture>

    constructor (x: Subject)
      ensures this.x == x && Valid() && level == 0 && depth == 0
    {
      this.x, level, depth := x, 0, 0;
      capture := seq(MAX_CAPTURES, _ => Capture(0, 0));
    }

    ghost predicate Valid()
      reads this
    {
      level <= MAX_CAPTURES == |capture|
    }

    /** The captures begun. */
    ghost function Caps(): (c: seq<Capture>)
      requires Valid()
      reads this
    {
      capture[..level]
    }

    /** `capture_to_close` */
    method CaptureToClose() returns (l: int)
      requires Valid()
      ensures l == LastOpen(Caps())
    {
      l := level - 1;
      assert capture[..level][..l + 1] == Caps();
      while l >= 0
        invariant -1 <= l < level && LastOpen(capture[..l + 1]) == LastOpen(Caps())
      {
        if capture[l].len == OPENED { return; }
        assert capture[..l + 1][..l] == capture[..l];
        l := l - 1;
      }
    }

    /** `match_capture` */
    method MatchCapture(s: int, l: int) returns (r: Result)
      requires Valid()
      ensures l < 0 || l >= level || capture[l].len == OPENED ==> r == Raised(InvalidCaptureIndex)
      ensures 0 <= l < level && capture[l].len != OPENED ==>
                r == if x.end - s >= capture[l].len && Same(x.h, capture[l].init, s, capture[l].len)
                    then Found(s + capture[l].len) else NotFound
    {
      if l < 0 || l >= level || capture[l].len == OPENED { return Raised(InvalidCaptureIndex); }
      var len := capture[l].len;
      if x.end - s < len { return NotFound; }
      var i := 0;
      while i < len
        invariant 0 <= i && (len >= 0 ==> i <= len) && forall k | capture[l].init <= k < capture[l].init + i ::
            At(x.h, k) == At(x.h, k - capture[l].init + s)
      {
        if At(x.h, capture[l].init + i) != At(x.h, s + i) {
          assert At(x.h, capture[l].init + i) != At(x.h, capture[l].init + i - capture[l].init + s);
          return NotFound;
        }
        i := i + 1;
      }
      return Found(s + len);
    }

    /** `start_capture`: the capture is taken back when the rest does not match. */
    method StartCapture(s: int, p: int, what: int) returns (r: Result)
      requires Valid()
      modifies this
      decreases Left(x.h, p), 4
      ensures Valid() && (!r.Raised? ==> depth == old(depth))
      ensures old(level) >= MAX_CAPTURES ==> r == Raised(TooManyCaptures)
      ensures old(level) < MAX_CAPTURES ==> Answers(r, All(x, s, p, old(Caps()) + [Capture(s, what)]), Caps())
      ensures r.NotFound? ==> Caps() == old(Caps())
      ensures r == Raised(TooComplex) ==> old(depth) + Left(x.h, p) >= MAX_DEPTH
    {
      if level >= MAX_CAPTURES { return Raised(TooManyCaptures); }
      capture := capture[level := Capture(s, what)];
      level := level + 1;
      assert Caps() == old(Caps()) + [Capture(s, what)];
      r := Match(s, p);
      if r.NotFound? {
        level := level - 1;
        assert Caps() == capture[..level + 1][..level];
      }
    }

    /** `end_capture`: the capture is opened again when the rest does not match. */
    method EndCapture(s: int, p: int) returns (r: Result)
      requires Valid()
      modifies this
      decreases Left(x.h, p), 4
      ensures Valid() && (!r.Raised? ==> depth == old(depth))
      ensures var l := LastOpen(old(Caps()));
              if l < 0 then r == Raised(InvalidPatternCapture)
              else Answers(r, All(x, s, p, old(Caps())[l := Capture(old(Caps())[l].init, s - old(Caps())[l].init)]),
                  Caps())
      ensures r.NotFound? ==> Caps() == old(Caps())
      ensures r == Raised(TooComplex) ==> old(depth) + Left(x.h, p) >= MAX_DEPTH
    {
      var l := CaptureToClose();
      if l < 0 { return Raised(InvalidPatternCapture); }
      ghost var was := Caps();
      capture := capture[l := Capture(capture[l].init, s - capture[l].init)];
      assert Caps() == was[l := Capture(was[l].init, s - was[l].init)];
      r := Match(s, p);
      if r.NotFound? {
        capture := capture[l := Capture(capture[l].init, OPENED)];
        assert Caps() == was;
      }
    }

    /** The first loop of `max_expand`: how many bytes from `s` on the item accepts. */
    method CountRun(s: int, p: int, ep: int) returns (i: nat)
      ensures i == Run(x, s, p, ep)
    {
      i := 0;
      while s + i < x.end
        invariant i + Run(x, s + i, p, ep) == Run(x, s, p, ep)
        decreases x.end - (s + i)
      {
        var m := MatchSingle(x.h, At(x.h, s + i), p, ep);
        if !m { break; }
        i := i + 1;
      }
    }

    /** `max_expand`: as many repetitions as there are, then fewer. */
    method MaxExpand(s: int, p: int, ep: int) returns (r: Result)
      requires Valid()
      modifies this
      decreases Left(x.h, ep + 1), 4
      ensures Valid() && (!r.Raised? ==> depth == old(depth))
      ensures Answers(r, Longest(x, s, ep, old(Caps()), Run(x, s, p, ep)), Caps())
      ensures r.NotFound? ==> Caps() == old(Caps())
      ensures r == Raised(TooComplex) ==> old(depth) + Left(x.h, ep + 1) >= MAX_DEPTH
    {
      var i: int := CountRun(s, p, ep);
      ghost var all := Longest(x, s, ep, Caps(), i);
      while true
        invariant i >= 0 && Valid() && Caps() == old(Caps()) && depth == old(depth)
        invariant Longest(x, s, ep, Caps(), i) == all
        decreases i
      {
        r := Match(s + i, ep + 1);
        if !r.NotFound? { return; }
        i := i - 1;
        if i < 0 { return; }
      }
    }

    /** `min_expand`: no repetition, then one more at a time. */
    method MinExpand(s0: int, p: int, ep: int) returns (r: Result)
      requires Valid()
      modifies this
      decreases Left(x.h, ep + 1), 4
      ensures Valid() && (!r.Raised? ==> depth == old(depth))
      ensures Answers(r, Shortest(x, s0, ep, old(Caps()), Run(x, s0, p, ep)), Caps())
      ensures r.NotFound? ==> Caps() == old(Caps())
      ensures r == Raised(TooComplex) ==> old(depth) + Left(x.h, ep + 1) >= MAX_DEPTH
    {
      var s := s0;
      while true
        invariant Valid() && Caps() == old(Caps()) && depth == old(depth)
        invariant Shortest(x, s, ep, Caps(), Run(x, s, p, ep)) == Shortest(x, s0, ep, Caps(), Run(x, s0, p, ep))
        decreases x.end - s
      {
        r := Match(s, ep + 1);
        if !r.NotFound? { return; }
        if s >= x.end { return; }
        var m := MatchSingle(x.h, At(x.h, s), p, ep);
        if !m { return; }
        s := s + 1;
      }
    }

    /** `match`: the first of all results of the pattern at `p` on the subject at `s`, with the captures it leaves. A
        failed match leaves the captures as they were; a finished one restores the depth. */
    method Match(s0: int, p0: int) returns (r: Result)
      requires Valid()
      modifies this
      decreases Left(x.h, p0), 3
      ensures Valid() && (!r.Raised? ==> depth == old(depth))
      ensures Answers(r, All(x, s0, p0, old(Caps())), Caps())
      ensures r.NotFound? ==> Caps() == old(Caps())
      ensures r == Raised(TooComplex) ==> old(depth) + Left(x.h, p0) >= MAX_DEPTH
    {
      depth := depth + 1;
      if depth > MAX_DEPTH { return Raised(TooComplex); }
      var s, p := s0, p0;
      while true
        invariant Valid() && Caps() == old(Caps()) && depth == old(depth) + 1 && p >= p0
        invariant All(x, s, p, Caps()) == All(x, s0, p0, Caps())
        decreases Left(x.h, p)
      {
        var again;
        r, again, s, p := Step(s, p);
        if !again { break; }
      }
      if !r.Raised? { depth := depth - 1; }
    }

    /** One turn of the loop of `match`: the item at `p` decides, or leads on to another item. */
    method Step(s0: int, p0: int) returns (r: Result, again: bool, s: int, p: int)
      requires Valid()
      modifies this
      decreases Left(x.h, p0), 2
      ensures Valid() && (!r.Raised? ==> depth == old(depth))
      ensures again ==>
          !r.Raised? && Caps() == old(Caps()) && All(x, s, p, Caps()) == All(x, s0, p0, Caps())
          && p > p0 && At(x.h, p0) != 0
      ensures !again ==> Answers(r, All(x, s0, p0, old(Caps())), Caps())
      ensures r.NotFound? ==> Caps() == old(Caps())
      ensures r == Raised(TooComplex) ==> old(depth) + Left(x.h, p0) > MAX_DEPTH
    {
      again, s, p := false, s0, p0;
      var c, d := At(x.h, p), At(x.h, p + 1);
      if c == 40 || c == 41 {
        r := StepCapture(s, p);
      } else if c == 37 && (d == 98 || d == 102 || IsDigit(d)) {
        r, again, s, p := StepEscape(s, p);
      } else if c == 0 {
        r := Found(s);
      } else if c == 36 && d == 0 {
        r := if s != x.end then NotFound else Found(s);
      } else {
        r, again, s, p := StepSingle(s, p);
      }
    }

    /** A parenthesis. */
    method StepCapture(s: int, p: int) returns (r: Result)
      requires Valid() && (At(x.h, p) == 40 || At(x.h, p) == 41)
      modifies this
      decreases Left(x.h, p), 0
      ensures Valid() && (!r.Raised? ==> depth == old(depth))
      ensures Answers(r, All(x, s, p, old(Caps())), Caps())
      ensures r.NotFound? ==> Caps() == old(Caps())
      ensures r == Raised(TooComplex) ==> old(depth) + Left(x.h, p) > MAX_DEPTH
    {
      if At(x.h, p) == 40 {
        if At(x.h, p + 1) == 41 {
          r := StartCapture(s, p + 2, POSITION);
        } else {
          r := StartCapture(s, p + 1, OPENED);
        }
      } else {
        r := EndCapture(s, p + 1);
      }
    }

    /** The escapes that are no class. */
    method StepEscape(s0: int, p0: int) returns (r: Result, again: bool, s: int, p: int)
      requires Valid() && At(x.h, p0) == 37
      requires At(x.h, p0 + 1) == 98 || At(x.h, p0 + 1) == 102 || IsDigit(At(x.h, p0 + 1))
      ensures again ==> !r.Raised? && All(x, s, p, Caps()) == All(x, s0, p0, Caps()) && p > p0
      ensures !again ==> Answers(r, All(x, s0, p0, Caps()), Caps()) && r != Raised(TooComplex)
    {
      again, s, p := false, s0, p0;
      var d := At(x.h, p + 1);
      if d == 98 {
        r := MatchBalance(x, s, p + 2);
        if r.Found? { again, s, p := true, r.end, p + 4; }
      } else if d == 102 {
        r, again, p := StepFrontier(s, p);
      } else {
        r, again, s, p := StepBackReference(s, p);
      }
    }

    method StepBackReference(s0: int, p0: int) returns (r: Result, again: bool, s: int, p: int)
      requires Valid() && At(x.h, p0) == 37 && IsDigit(At(x.h, p0 + 1))
      ensures again ==> !r.Raised? && All(x, s, p, Caps()) == All(x, s0, p0, Caps()) && p > p0
      ensures !again ==> Answers(r, All(x, s0, p0, Caps()), Caps()) && r != Raised(TooComplex)
    {
      again, s, p := false, s0, p0;
      var l: int := At(x.h, p + 1) - 49;
      assert ItemAt(x.h, p) == BackReference(l);
      r := MatchCapture(s, l);
      if r.Found? { again, s, p := true, r.end, p + 2; }
    }

    /** `%f`, which reads but changes nothing. */
    method StepFrontier(s: int, p0: int) returns (r: Result, again: bool, p: int)
      requires Valid() && At(x.h, p0) == 37 && At(x.h, p0 + 1) == 102
      ensures again ==> r.NotFound? && All(x, s, p, Caps()) == All(x, s, p0, Caps()) && p > p0
      ensures !again ==> Answers(r, All(x, s, p0, Caps()), Caps()) && r != Raised(TooComplex)
    {
      r, again, p := NotFound, false, p0 + 2;
      if At(x.h, p) != 91 { return Raised(MissingFrontierSet), false, p; }
      var e := FindClassEnd(x.h, p);
      if e.Bad? {
        return Raised(e.error), false, p;
      }
      var previous := if s == x.init then 0 else At(x.h, s - 1);
      var before := MatchBracketClass(x.h, previous, p, e.ep - 1);
      if before { return; }
      var here := MatchBracketClass(x.h, At(x.h, s), p, e.ep - 1);
      if !here { return; }
      return NotFound, true, e.ep;
    }

    /** A single-character item and its repetition. */
    method StepSingle(s0: int, p0: int) returns (r: Result, again: bool, s: int, p: int)
      requires Valid() && ItemAt(x.h, p0) == SingleItem(x.h, p0) && At(x.h, p0) != 0
      modifies this
      decreases Left(x.h, p0), 1
      ensures Valid() && (!r.Raised? ==> depth == old(depth))
      ensures again ==> !r.Raised? && Caps() == old(Caps()) && All(x, s, p, Caps()) == All(x, s0, p0, Caps()) && p > p0
      ensures !again ==> Answers(r, All(x, s0, p0, old(Caps())), Caps())
      ensures r.NotFound? ==> Caps() == old(Caps())
      ensures r == Raised(TooComplex) ==> old(depth) + Left(x.h, p0) > MAX_DEPTH
    {
      r, again, s, p := NotFound, false, s0, p0;
      var e := FindClassEnd(x.h, p);
      if e.Bad? {
        return Raised(e.error), false, s, p;
      }
      r, again, s, p := StepItem(s0, p0, e.ep);
    }

    /** The item up to `ep`, with what follows it. */
    method StepItem(s0: int, p0: int, ep: int) returns (r: Result, again: bool, s: int, p: int)
      requires Valid() && At(x.h, p0) != 0 && p0 < ep
      modifies this
      decreases Left(x.h, p0), 0
      ensures Valid() && (!r.Raised? ==> depth == old(depth))
      ensures again ==> !r.Raised? && Caps() == old(Caps()) && p > p0
      ensures again ==> All(x, s, p, Caps()) == AllSingle(x, s0, p0, ep, old(Caps()))
      ensures !again ==> Answers(r, AllSingle(x, s0, p0, ep, old(Caps())), Caps())
      ensures r.NotFound? ==> Caps() == old(Caps())
      ensures r == Raised(TooComplex) ==> old(depth) + Left(x.h, p0) > MAX_DEPTH
    {
      r, again, s, p := NotFound, false, s0, p0;
      var m := s < x.end;
      if m { m := MatchSingle(x.h, At(x.h, s), p, ep); }
      var rep := At(x.h, ep);
      if rep == 63 {
        if m {
          r := Match(s + 1, ep + 1);
          if !r.NotFound? { return; }
        }
        again, p := true, ep + 1;
      } else if rep in {42, 43, 45} {
        r := Repeat(rep, m, s, p, ep);
      } else if m {
        again, s, p := true, s + 1, ep;
      }
    }

    /** The three repetitions. */
    method Repeat(rep: nat, m: bool, s: int, p: int, ep: int) returns (r: Result)
      requires Valid() && At(x.h, p) != 0 && p < ep && rep == At(x.h, ep) && rep in {42, 43, 45}
      requires m == (s < x.end && SingleMatch(x.h, At(x.h, s), p, ep))
      modifies this
      decreases Left(x.h, ep + 1), 5
      ensures Valid() && (!r.Raised? ==> depth == old(depth))
      ensures Answers(r, AllSingle(x, s, p, ep, old(Caps())), Caps())
      ensures r.NotFound? ==> Caps() == old(Caps())
      ensures r == Raised(TooComplex) ==> old(depth) + Left(x.h, ep + 1) >= MAX_DEPTH
    {
      r := NotFound;
      if rep == 42 {
        r := MaxExpand(s, p, ep);
      } else if rep == 43 {
        if m { r := MaxExpand(s + 1, p, ep); }
      } else {
        r := MinExpand(s, p, ep);
      }
    }
  }
}
