/** Where a match can end and what its captures hold: bounds that follow from the list of all results. */
module PatternBounds {
  import opened Patterns

  /** The items from `p` on refer back to no position capture; `positions` tells which captures begun so far are. */
  ghost predicate NoPositionReference(h: seq<nat>, p: int, positions: seq<bool>)
    decreases Left(h, p)
  {
    match ItemAt(h, p)
    case Malformed(_) => true
    case Stop => true
    case EndAnchor => true
    case Open(next, what) => NoPositionReference(h, next, positions + [what == POSITION])
    case Close => NoPositionReference(h, p + 1, positions)
    case Balance => NoPositionReference(h, p + 4, positions)
    case Frontier(ep) => NoPositionReference(h, ep, positions)
    case BackReference(l) => (0 <= l < |positions| ==> !positions[l]) && NoPositionReference(h, p + 2, positions)
    case Single(ep) => NoPositionReference(h, if At(h, ep) in {63, 42, 43, 45} then ep + 1 else ep, positions)
  }

  function Positions(caps: seq<Capture>): seq<bool> {
    seq(|caps|, i requires 0 <= i < |caps| => caps[i].len == POSITION)
  }

  /** A capture begins in the part matched so far; a closed one ends in it too. */
  predicate CaptureWithin(x: Subject, s: int, c: Capture) {
    x.init <= c.init <= s && (c.len == OPENED || c.len == POSITION || (c.len >= 0 && c.init + c.len <= s))
  }

  predicate CapturesWithin(x: Subject, s: int, caps: seq<Capture>) {
    forall k | 0 <= k < |caps| :: CaptureWithin(x, s, caps[k])
  }

  predicate OutcomeWithin(x: Subject, s: int, o: Outcome) {
    o.Done? ==> s <= o.end <= x.end && CapturesWithin(x, o.end, o.caps)
  }

  predicate Within(x: Subject, s: int, os: seq<Outcome>) {
    forall k | 0 <= k < |os| :: OutcomeWithin(x, s, os[k])
  }

  lemma WithinLater(x: Subject, s: int, t: int, os: seq<Outcome>)
    requires s <= t && Within(x, t, os)
    ensures Within(x, s, os)
  {
    forall k | 0 <= k < |os|
      ensures OutcomeWithin(x, s, os[k])
    {
      assert OutcomeWithin(x, t, os[k]);
    }
  }

  lemma CapturesLater(x: Subject, s: int, t: int, caps: seq<Capture>)
    requires s <= t && CapturesWithin(x, s, caps)
    ensures CapturesWithin(x, t, caps)
  {
    forall k | 0 <= k < |caps|
      ensures CaptureWithin(x, t, caps[k])
    {
      assert CaptureWithin(x, s, caps[k]);
    }
  }

  /** Without a reference to a position capture a match ends between its start and the subject's end, and its captures
      lie in what it matched. */
  lemma {:induction false} MatchWithin(x: Subject, s: int, p: int, caps: seq<Capture>)
    requires x.init <= s <= x.end && CapturesWithin(x, s, caps) && NoPositionReference(x.h, p, Positions(caps))
    ensures Within(x, s, All(x, s, p, caps))
    decreases Left(x.h, p), 2, 0
  {
    match ItemAt(x.h, p)
    case Open(next, what) =>
      if |caps| < MAX_CAPTURES {
        OpenWithin(x, s, what, caps);
        MatchWithin(x, s, next, caps + [Capture(s, what)]);
      }
    case Close =>
      var l := LastOpen(caps);
      if l >= 0 {
        CloseWithin(x, s, l, caps);
        MatchWithin(x, s, p + 1, caps[l := Capture(caps[l].init, s - caps[l].init)]);
      }
    case Balance =>
      var e := BalanceEnd(x, s, p + 2);
      if e != -1 { StepWithin(x, s, e, p + 4, caps); }
    case Frontier(ep) =>
      if AtFrontier(x, s, p + 2, ep) { MatchWithin(x, s, ep, caps); }
    case BackReference(l) =>
      if 0 <= l < |caps| && caps[l].len != OPENED && x.end - s >= caps[l].len {
        assert !Positions(caps)[l];
        assert CaptureWithin(x, s, caps[l]);
        StepWithin(x, s, s + caps[l].len, p + 2, caps);
      }
    case Single(ep) => SingleWithin(x, s, p, ep, caps);
    case _ =>
  }

  lemma {:induction false} StepWithin(x: Subject, s: int, t: int, p: int, caps: seq<Capture>)
    requires x.init <= s <= t <= x.end && CapturesWithin(x, s, caps) && NoPositionReference(x.h, p, Positions(caps))
    ensures Within(x, s, All(x, t, p, caps))
    decreases Left(x.h, p), 3, 0
  {
    CapturesLater(x, s, t, caps);
    MatchWithin(x, t, p, caps);
    WithinLater(x, s, t, All(x, t, p, caps));
  }

  lemma OpenWithin(x: Subject, s: int, what: int, caps: seq<Capture>)
    requires x.init <= s && CapturesWithin(x, s, caps) && (what == OPENED || what == POSITION)
    ensures CapturesWithin(x, s, caps + [Capture(s, what)])
    ensures Positions(caps + [Capture(s, what)]) == Positions(caps) + [what == POSITION]
  {}

  lemma CloseWithin(x: Subject, s: int, l: nat, caps: seq<Capture>)
    requires l < |caps| && caps[l].len == OPENED && CapturesWithin(x, s, caps)
    ensures var now := caps[l := Capture(caps[l].init, s - caps[l].init)];
        CapturesWithin(x, s, now) && Positions(now) == Positions(caps)
  {
    assert CaptureWithin(x, s, caps[l]);
  }

  lemma {:induction false} SingleWithin(x: Subject, s: int, p: int, ep: int, caps: seq<Capture>)
    requires x.init <= s <= x.end && CapturesWithin(x, s, caps) && At(x.h, p) != 0 && p < ep
    requires NoPositionReference(x.h, if At(x.h, ep) in {63, 42, 43, 45} then ep + 1 else ep, Positions(caps))
    ensures Within(x, s, AllSingle(x, s, p, ep, caps))
    decreases Left(x.h, p), 1, 0
  {
    var m := s < x.end && SingleMatch(x.h, At(x.h, s), p, ep);
    var rep := At(x.h, ep);
    if rep == 63 {
      MatchWithin(x, s, ep + 1, caps);
      if m { StepWithin(x, s, s + 1, ep + 1, caps); }
    } else if rep == 42 {
      RunEnds(x, s, p, ep);
      LongestWithin(x, s, s, ep, caps, Run(x, s, p, ep));
    } else if rep == 43 {
      if m {
        RunEnds(x, s + 1, p, ep);
        LongestWithin(x, s, s + 1, ep, caps, Run(x, s + 1, p, ep));
      }
    } else if rep == 45 {
      RunEnds(x, s, p, ep);
      ShortestWithin(x, s, s, ep, caps, Run(x, s, p, ep));
    } else if m {
      StepWithin(x, s, s + 1, ep, caps);
    }
  }

  lemma {:induction false} RunEnds(x: Subject, s: int, p: int, ep: int)
    requires s <= x.end
    ensures s + Run(x, s, p, ep) <= x.end
    decreases x.end - s
  {
    if s < x.end && SingleMatch(x.h, At(x.h, s), p, ep) { RunEnds(x, s + 1, p, ep); }
  }

  lemma {:induction false} LongestWithin(x: Subject, s: int, t: int, ep: int, caps: seq<Capture>, i: nat)
    requires x.init <= s <= t && t + i <= x.end && CapturesWithin(x, s, caps)
    requires NoPositionReference(x.h, ep + 1, Positions(caps))
    ensures Within(x, s, Longest(x, t, ep, caps, i))
    decreases Left(x.h, ep + 1), 4, i
  {
    StepWithin(x, s, t + i, ep + 1, caps);
    if i > 0 { LongestWithin(x, s, t, ep, caps, i - 1); }
  }

  lemma {:induction false} ShortestWithin(x: Subject, s: int, t: int, ep: int, caps: seq<Capture>, n: nat)
    requires x.init <= s <= t && t + n <= x.end && CapturesWithin(x, s, caps)
    requires NoPositionReference(x.h, ep + 1, Positions(caps))
    ensures Within(x, s, Shortest(x, t, ep, caps, n))
    decreases Left(x.h, ep + 1), 4, n
  {
    StepWithin(x, s, t, ep + 1, caps);
    if n > 0 { ShortestWithin(x, s, t + 1, ep, caps, n - 1); }
  }

  /** A reference to a position capture reads its mark as a length: it always holds, and steps two bytes back. */
  lemma PositionReferenceStepsBack(x: Subject, s: int, p: int, caps: seq<Capture>, l: nat)
    requires ItemAt(x.h, p) == BackReference(l) && l < |caps| && caps[l].len == POSITION && s <= x.end
    ensures All(x, s, p, caps) == All(x, s - 2, p + 2, caps)
  {}

  /** The pattern `()%1` ends two bytes before its start. */
  lemma PositionReferenceExample(x: Subject, s: int, p: int)
    requires At(x.h, p) == 40 && At(x.h, p + 1) == 41 && At(x.h, p + 2) == 37 && At(x.h, p + 3) == 49
    requires At(x.h, p + 4) == 0 && s <= x.end
    ensures All(x, s, p, []) == [Done(s - 2, [Capture(s, POSITION)])] && !NoPositionReference(x.h, p, [])
  {
    PositionReferenceStepsBack(x, s, p + 2, [Capture(s, POSITION)], 0);
    assert [] + [Capture(s, POSITION)] == [Capture(s, POSITION)];
    assert ItemAt(x.h, p) == Open(p + 2, POSITION) && ItemAt(x.h, p + 4) == Stop;
  }

  // ----- no match passes the end, whatever the references -----

  predicate NotBeyond(x: Subject, os: seq<Outcome>) {
    forall k | 0 <= k < |os| :: os[k].Done? ==> os[k].end <= x.end
  }

  lemma {:induction false} MatchNotBeyond(x: Subject, s: int, p: int, caps: seq<Capture>)
    requires s <= x.end
    ensures NotBeyond(x, All(x, s, p, caps))
    decreases Left(x.h, p), 2, 0
  {
    match ItemAt(x.h, p)
    case Open(next, what) => if |caps| < MAX_CAPTURES { MatchNotBeyond(x, s, next, caps + [Capture(s, what)]); }
    case Close =>
      var l := LastOpen(caps);
      if l >= 0 { MatchNotBeyond(x, s, p + 1, caps[l := Capture(caps[l].init, s - caps[l].init)]); }
    case Balance =>
      var e := BalanceEnd(x, s, p + 2);
      if e != -1 { MatchNotBeyond(x, e, p + 4, caps); }
    case Frontier(ep) => if AtFrontier(x, s, p + 2, ep) { MatchNotBeyond(x, s, ep, caps); }
    case BackReference(l) =>
      if 0 <= l < |caps| && x.end - s >= caps[l].len { MatchNotBeyond(x, s + caps[l].len, p + 2, caps); }
    case Single(ep) => SingleNotBeyond(x, s, p, ep, caps);
    case _ =>
  }

  lemma {:induction false} SingleNotBeyond(x: Subject, s: int, p: int, ep: int, caps: seq<Capture>)
    requires s <= x.end && At(x.h, p) != 0 && p < ep
    ensures NotBeyond(x, AllSingle(x, s, p, ep, caps))
    decreases Left(x.h, p), 1, 0
  {
    var m := s < x.end && SingleMatch(x.h, At(x.h, s), p, ep);
    var rep := At(x.h, ep);
    if rep == 63 {
      MatchNotBeyond(x, s, ep + 1, caps);
      if m { MatchNotBeyond(x, s + 1, ep + 1, caps); }
    } else if rep == 42 {
      RunEnds(x, s, p, ep);
      LongestNotBeyond(x, s, ep, caps, Run(x, s, p, ep));
    } else if rep == 43 {
      if m {
        RunEnds(x, s + 1, p, ep);
        LongestNotBeyond(x, s + 1, ep, caps, Run(x, s + 1, p, ep));
      }
    } else if rep == 45 {
      RunEnds(x, s, p, ep);
      ShortestNotBeyond(x, s, ep, caps, Run(x, s, p, ep));
    } else if m {
      MatchNotBeyond(x, s + 1, ep, caps);
    }
  }

  lemma {:induction false} LongestNotBeyond(x: Subject, s: int, ep: int, caps: seq<Capture>, i: nat)
    requires s + i <= x.end
    ensures NotBeyond(x, Longest(x, s, ep, caps, i))
    decreases Left(x.h, ep + 1), 3, i
  {
    MatchNotBeyond(x, s + i, ep + 1, caps);
    if i > 0 { LongestNotBeyond(x, s, ep, caps, i - 1); }
  }

  lemma {:induction false} ShortestNotBeyond(x: Subject, s: int, ep: int, caps: seq<Capture>, n: nat)
    requires s + n <= x.end
    ensures NotBeyond(x, Shortest(x, s, ep, caps, n))
    decreases Left(x.h, ep + 1), 3, n
  {
    MatchNotBeyond(x, s, ep + 1, caps);
    if n > 0 { ShortestNotBeyond(x, s + 1, ep, caps, n - 1); }
  }
}
