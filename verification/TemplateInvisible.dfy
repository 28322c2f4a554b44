/** Executing the arms the values did not take changes nothing a render shows. */
module TemplateInvisible {
  import opened Template
  import opened TemplateRun

  // ----- reads by the arm that made them -----

  /** The read was made directly under these guards, not in an arm explored deeper inside. */
  predicate IsMine(r: Read, guards: seq<string>) {
    if guards == [] then !r.untaken else r.untaken && r.guard == guards[|guards| - 1]
  }

  function Mine(log: seq<Read>, guards: seq<string>): seq<Read> {
    if log == [] then []
    else Mine(log[..|log| - 1], guards) + if IsMine(log[|log| - 1], guards) then [log[|log| - 1]] else []
  }

  /** Every read is either made directly under the guards or marked untaken under a guard that is none of them. */
  predicate Marked(log: seq<Read>, guards: seq<string>) {
    forall k | 0 <= k < |log| :: IsMine(log[k], guards) || (log[k].untaken && log[k].guard !in guards)
  }

  lemma {:induction false} MineConcat(a: seq<Read>, b: seq<Read>, guards: seq<string>)
    ensures Mine(a + b, guards) == Mine(a, guards) + Mine(b, guards)
  {
    if b == [] {
      assert a + b == a;
    } else {
      assert (a + b)[..|a + b| - 1] == a + b[..|b| - 1];
      MineConcat(a, b[..|b| - 1], guards);
    }
  }

  lemma {:induction false} AllMine(log: seq<Read>, guards: seq<string>)
    requires forall k | 0 <= k < |log| :: IsMine(log[k], guards)
    ensures Mine(log, guards) == log && Marked(log, guards)
  {
    if log != [] {
      AllMine(log[..|log| - 1], guards);
    }
  }

  lemma {:induction false} NoneMine(log: seq<Read>, guards: seq<string>)
    requires forall k | 0 <= k < |log| :: !IsMine(log[k], guards)
    ensures Mine(log, guards) == []
  {
    if log != [] {
      NoneMine(log[..|log| - 1], guards);
    }
  }

  lemma {:induction false} MarkedReads(cs: seq<Chain>, guards: seq<string>)
    ensures Mine(MarkReads(cs, guards), guards) == MarkReads(cs, guards) && Marked(MarkReads(cs, guards), guards)
  {
    AllMine(MarkReads(cs, guards), guards);
  }

  /** What is added to the record without any read of the arm's own. */
  predicate Quiet(more: Record, guards: seq<string>) {
    Mine(more.log, guards) == [] && Marked(more.log, guards)
  }

  /** The reads under one more guard are none of the arm's own. */
  lemma {:induction false} DeeperIsQuiet(log: seq<Read>, guards: seq<string>, guard: string)
    requires Marked(log, guards + [guard]) && guard !in guards
    ensures Mine(log, guards) == [] && Marked(log, guards)
  {
    forall k | 0 <= k < |log|
      ensures !IsMine(log[k], guards) && log[k].untaken && log[k].guard !in guards
    {
      assert IsMine(log[k], guards + [guard]) || log[k].guard !in guards + [guard];
    }
    NoneMine(log, guards);
  }

  // ----- the render with exploration and without -----

  /** The same stop, stack, text and spans; and the second's reads are the first's own ones. */
  predicate Unseen(r: Run, plain: Run, guards: seq<string>) {
    && r.stop == plain.stop && r.vars == plain.vars && r.text == plain.text && r.spans == plain.spans
    && Mine(r.record.log, guards) == plain.record.log && Marked(r.record.log, guards)
    && plain.record.arms == [] && plain.record.explored == []
  }

  lemma {:induction false} UnseenAfter(r: Run, plain: Run, s: Run, then0: Run, guards: seq<string>)
    requires Unseen(r, plain, guards) && Unseen(s, then0, guards)
    ensures Unseen(After(r, s), After(plain, then0), guards)
  {
    MineConcat(r.record.log, s.record.log, guards);
  }

  lemma {:induction false} UnseenAlso(r: Run, plain: Run, more: Record, guards: seq<string>)
    requires Unseen(r, plain, guards) && Quiet(more, guards)
    ensures Unseen(Also(r, more), plain, guards) && Unseen(Also(r, more), Also(plain, EMPTY), guards)
  {
    MineConcat(r.record.log, more.log, guards);
    assert plain.record.log + [] == plain.record.log;
  }

  lemma {:induction false} UnseenRecorded(cs: seq<Chain>, r: Run, plain: Run, guards: seq<string>)
    requires Unseen(r, plain, guards)
    ensures Unseen(Recorded(ReadRecord(cs, guards), r), Recorded(ReadRecord(cs, guards), plain), guards)
  {
    MarkedReads(cs, guards);
    MineConcat(MarkReads(cs, guards), r.record.log, guards);
  }

  /** An arm's entry in the record. */
  lemma {:induction false} UnseenArm(arm: Record, r: Run, plain: Run, guards: seq<string>)
    requires Unseen(r, plain, guards) && arm.log == []
    ensures Unseen(Recorded(arm, r), Recorded(EMPTY, plain), guards)
  {
    assert [] + r.record.log == r.record.log && [] + plain.record.log == plain.record.log;
  }

  lemma {:induction false} QuietJoin(a: Record, b: Record, guards: seq<string>)
    requires Quiet(a, guards) && Quiet(b, guards)
    ensures Quiet(Join(a, b), guards)
  {
    MineConcat(a.log, b.log, guards);
  }

  function Plain(w: World): World { w.(branches := false) }

  lemma {:induction false} ExploreQuiet(w: World, x: Place, guard: string, dot: Value, list: Block, vars: seq<Variable>)
    requires Guarded(x.guards) && x.depth <= MAX_DEPTH
    ensures Quiet(ExploreBlock(w, x, guard, dot, list, vars), x.guards)
    decreases MAX_DEPTH - x.depth, list, 1
  {
    if Explores(w, x, guard) {
      var r := RunBlock(w, list, Inside(x, dot, guard), vars);
      BlockInvisible(w, list, Inside(x, dot, guard), vars);
      DeeperIsQuiet(r.record.log, x.guards, guard);
      QuietJoin(r.record, ExploredBy(guard, r), x.guards);
    }
  }

  lemma {:induction false} ExploreListQuiet(w: World, x: Place, guard: string, dot: Value, list: Option<Block>,
      vars: seq<Variable>)
    requires Guarded(x.guards) && x.depth <= MAX_DEPTH
    ensures Quiet(Explore(w, x, guard, dot, list, vars), x.guards)
    decreases MAX_DEPTH - x.depth, list
  {
    if list.Some? { ExploreQuiet(w, x, guard, dot, list.value, vars); }
  }

  /** A list of nodes runs the same with exploration as without, at any depth of guards. */
  lemma {:induction false} BlockInvisible(w: World, b: Block, x: Place, vars: seq<Variable>)
    requires Guarded(x.guards) && x.depth <= MAX_DEPTH
    ensures Unseen(RunBlock(w, b, x, vars), RunBlock(Plain(w), b, x, vars), x.guards)
    decreases MAX_DEPTH - x.depth, b, 0
  {
    match b
    case Nil =>
    case Cons(n, rest) =>
      NodeInvisible(w, n, x, vars);
      var r, plain := RunNode(w, n, x, vars), RunNode(Plain(w), n, x, vars);
      if r.stop.Normal? {
        BlockInvisible(w, rest, x.(at := x.at + |r.text|), r.vars);
        UnseenAfter(r, plain, RunBlock(w, rest, x.(at := x.at + |r.text|), r.vars),
            RunBlock(Plain(w), rest, x.(at := x.at + |r.text|), r.vars), x.guards);
      }
  }

  lemma {:induction false} ActionInvisible(w: World, loc: string, p: Pipe, x: Place, vars: seq<Variable>)
    ensures Unseen(RunAction(w, loc, p, x, vars), RunAction(Plain(w), loc, p, x, vars), x.guards)
  {
    var chains, r := Pipeline(w, p, x.dot, vars).chains, RunAction(w, loc, p, x, vars);
    assert r == RunAction(Plain(w), loc, p, x, vars);
    var bare := r.(record := EMPTY);
    UnseenRecorded(chains, bare, bare, x.guards);
    assert Join(ReadRecord(chains, x.guards), EMPTY) == ReadRecord(chains, x.guards);
  }

  lemma {:induction false} NodeInvisible(w: World, n: Node, x: Place, vars: seq<Variable>)
    requires Guarded(x.guards) && x.depth <= MAX_DEPTH
    ensures Unseen(RunNode(w, n, x, vars), RunNode(Plain(w), n, x, vars), x.guards)
    decreases MAX_DEPTH - x.depth, n, 4
  {
    match n
    case Text(_, _) =>
    case Comment =>
    case Break(_) =>
    case Continue(_) =>
    case Action(loc, p) => ActionInvisible(w, loc, p, x, vars);
    case If(_, _, _, _) => ChoiceInvisible(w, n, x, vars);
    case With(_, _, _, _) => ChoiceInvisible(w, n, x, vars);
    case Range(_, _, _, _) => RangeInvisible(w, n, x, vars);
    case Call(_, _, _) => CallInvisible(w, n, x, vars);
  }

  lemma {:induction false} ChoiceInvisible(w: World, n: Node, x: Place, vars: seq<Variable>)
    requires (n.If? || n.With?) && Guarded(x.guards) && x.depth <= MAX_DEPTH
    ensures Unseen(RunChoice(w, n, x, vars), RunChoice(Plain(w), n, x, vars), x.guards)
    decreases MAX_DEPTH - x.depth, n, 1
  {
    var e := Pipeline(w, n.pipe, x.dot, vars);
    assert e == Pipeline(Plain(w), n.pipe, x.dot, vars) && Truth(w, e.result) == Truth(Plain(w), e.result);
    match Truth(w, e.result)
    case None =>
      UnseenRecorded(e.chains, Popped(Halt(Failing(Complaint(e.result)), e.vars), |vars|),
          Popped(Halt(Failing(Complaint(e.result)), e.vars), |vars|), x.guards);
    case Some(true) =>
      ThenInvisible(w, n, e.result.value, x, e.vars);
      UnseenRecorded(e.chains, Popped(TakeThen(w, n, e.result.value, x, e.vars), |vars|),
          Popped(TakeThen(Plain(w), n, e.result.value, x, e.vars), |vars|), x.guards);
    case Some(false) =>
      ElseInvisible(w, n, e.result.value, x, e.vars);
      UnseenRecorded(e.chains, Popped(TakeElse(w, n, e.result.value, x, e.vars), |vars|),
          Popped(TakeElse(Plain(w), n, e.result.value, x, e.vars), |vars|), x.guards);
  }

  lemma {:induction false} ThenInvisible(w: World, n: Node, v: Value, x: Place, vars: seq<Variable>)
    requires (n.If? || n.With?) && Guarded(x.guards) && x.depth <= MAX_DEPTH
    ensures Unseen(TakeThen(w, n, v, x, vars), TakeThen(Plain(w), n, v, x, vars), x.guards)
    decreases MAX_DEPTH - x.depth, n, 0
  {
    var y := x.(dot := DotIn(n, x, v));
    var r, plain := RunBlock(w, n.list, y, vars), RunBlock(Plain(w), n.list, y, vars);
    BlockInvisible(w, n.list, y, vars);
    var more := Explore(w, x, Guard(n.loc, Kind(n), n.pipe, "else"), x.dot, n.elseList, r.vars);
    ExploreListQuiet(w, x, Guard(n.loc, Kind(n), n.pipe, "else"), x.dot, n.elseList, r.vars);
    UnseenAlso(r, plain, more, x.guards);
    NoExploring(Plain(w), x, Guard(n.loc, Kind(n), n.pipe, "else"), x.dot, n.elseList, plain.vars);
    var arm := ArmRecord(w, x, n.loc, Kind(n), n.pipe, "then", n.elseList.Some?, v);
    if r.stop.Normal? {
      UnseenArm(arm, Also(r, more), Also(plain, EMPTY), x.guards);
    } else {
      UnseenArm(arm, r, plain, x.guards);
    }
  }

  lemma {:induction false} ElseInvisible(w: World, n: Node, v: Value, x: Place, vars: seq<Variable>)
    requires (n.If? || n.With?) && Guarded(x.guards) && x.depth <= MAX_DEPTH
    ensures Unseen(TakeElse(w, n, v, x, vars), TakeElse(Plain(w), n, v, x, vars), x.guards)
    decreases MAX_DEPTH - x.depth, n, 0
  {
    var r := if n.elseList.Some? then RunBlock(w, n.elseList.value, x, vars) else Halt(Normal, vars);
    var plain := if n.elseList.Some? then RunBlock(Plain(w), n.elseList.value, x, vars) else Halt(Normal, vars);
    if n.elseList.Some? { BlockInvisible(w, n.elseList.value, x, vars); }
    var guard := Guard(n.loc, Kind(n), n.pipe, "then");
    var more := ExploreBlock(w, x, guard, DotIn(n, x, v), n.list, r.vars);
    ExploreQuiet(w, x, guard, DotIn(n, x, v), n.list, r.vars);
    UnseenAlso(r, plain, more, x.guards);
    NoExploring(Plain(w), x, guard, DotIn(n, x, v), Some(n.list), plain.vars);
    var arm := ArmRecord(w, x, n.loc, Kind(n), n.pipe,
        if n.elseList.Some? then "else" else "none", n.elseList.Some?, v);
    if r.stop.Normal? {
      UnseenArm(arm, Also(r, more), Also(plain, EMPTY), x.guards);
    } else {
      UnseenArm(arm, r, plain, x.guards);
    }
  }

  lemma {:induction false} IterateInvisible(w: World, n: Node, items: seq<(Value, Value)>, x: Place,
      vars: seq<Variable>)
    requires n.Range? && Guarded(x.guards) && x.depth <= MAX_DEPTH && (!n.pipe.assign ==> |vars| >= |n.pipe.decl|)
    ensures Unseen(Iterate(w, n, items, x, vars), Iterate(Plain(w), n, items, x, vars), x.guards)
    decreases MAX_DEPTH - x.depth, n, 1, |items|, 0
  {
    if items != [] {
      IterationInvisible(w, n, items[0].0, items[0].1, x, vars);
      IterateStep(w, n, items, x, vars);
      IterateStep(Plain(w), n, items, x, vars);
      MoreInvisible(w, n, items[1..], x, RunIteration(w, n, items[0].0, items[0].1, x, vars),
                    RunIteration(Plain(w), n, items[0].0, items[0].1, x, vars));
    }
  }

  lemma {:induction false} MoreInvisible(w: World, n: Node, items: seq<(Value, Value)>, x: Place, r: Run, plain: Run)
    requires n.Range? && Guarded(x.guards) && x.depth <= MAX_DEPTH && (!n.pipe.assign ==> |r.vars| >= |n.pipe.decl|)
    requires Unseen(r, plain, x.guards)
    ensures !n.pipe.assign ==> |plain.vars| >= |n.pipe.decl|
    ensures Unseen(ThenMore(w, n, items, x, r), ThenMore(Plain(w), n, items, x, plain), x.guards)
    decreases MAX_DEPTH - x.depth, n, 1, |items|, 1
  {
    if r.stop.Normal? || r.stop.Continuing? {
      var z := x.(at := x.at + |r.text|);
      IterateInvisible(w, n, items, z, r.vars);
      UnseenAfter(r, plain, Iterate(w, n, items, z, r.vars), Iterate(Plain(w), n, items, z, r.vars), x.guards);
    }
  }

  lemma {:induction false} IterationInvisible(w: World, n: Node, index: Value, elem: Value, x: Place,
      vars: seq<Variable>)
    requires n.Range? && Guarded(x.guards) && x.depth <= MAX_DEPTH && (!n.pipe.assign ==> |vars| >= |n.pipe.decl|)
    ensures Unseen(RunIteration(w, n, index, elem, x, vars), RunIteration(Plain(w), n, index, elem, x, vars), x.guards)
    decreases MAX_DEPTH - x.depth, n, 0
  {
    BlockInvisible(w, n.list, x.(dot := elem), SetLoop(n.pipe, vars, index, elem).0);
  }

  lemma {:induction false} ItemsInvisible(w: World, n: Node, v: Value, x: Place, vars: seq<Variable>)
    requires n.Range? && Guarded(x.guards) && x.depth <= MAX_DEPTH && (!n.pipe.assign ==> |vars| >= |n.pipe.decl|)
    ensures RunItems(w, n, v, x, vars).1 == RunItems(Plain(w), n, v, x, vars).1
    ensures Unseen(RunItems(w, n, v, x, vars).0, RunItems(Plain(w), n, v, x, vars).0, x.guards)
    decreases MAX_DEPTH - x.depth, n, 2
  {
    match w.host.items(v, |n.pipe.decl|)
    case None =>
    case Some(items) =>
      if items != [] {
        IterateInvisible(w, n, items, x, vars);
      } else if n.elseList.Some? {
        BlockInvisible(w, n.elseList.value, x, vars);
      }
  }

  lemma {:induction false} RangeInvisible(w: World, n: Node, x: Place, vars: seq<Variable>)
    requires n.Range? && Guarded(x.guards) && x.depth <= MAX_DEPTH
    ensures Unseen(RunRange(w, n, x, vars), RunRange(Plain(w), n, x, vars), x.guards)
    decreases MAX_DEPTH - x.depth, n, 3
  {
    var e := Pipeline(w, n.pipe, x.dot, vars);
    assert e == Pipeline(Plain(w), n.pipe, x.dot, vars);
    match e.result
    case Fails(message) =>
      UnseenRecorded(e.chains, Halt(Failing(message), e.vars[..|vars|]), Halt(Failing(message), e.vars[..|vars|]),
          x.guards);
    case Yields(v) =>
      ItemsInvisible(w, n, v, x, e.vars);
      var done, plain := Popped(RunItems(w, n, v, x, e.vars).0, |vars|),
          Popped(RunItems(Plain(w), n, v, x, e.vars).0, |vars|);
      TailInvisible(w, n, v, x, done, plain, RunItems(w, n, v, x, e.vars).1);
      UnseenRecorded(e.chains, RangeTail(w, n, v, x, done, RunItems(w, n, v, x, e.vars).1),
                     RangeTail(Plain(w), n, v, x, plain, RunItems(w, n, v, x, e.vars).1), x.guards);
  }

  /** What `walkRange` adds after the range itself. */
  lemma {:induction false} TailInvisible(w: World, n: Node, v: Value, x: Place, done: Run, plain: Run, iterated: bool)
    requires n.Range? && Guarded(x.guards) && x.depth <= MAX_DEPTH && Unseen(done, plain, x.guards)
    ensures Unseen(RangeTail(w, n, v, x, done, iterated), RangeTail(Plain(w), n, v, x, plain, iterated), x.guards)
    decreases MAX_DEPTH - x.depth, n, 1
  {
    var guard := Guard(n.loc, "range", n.pipe, if iterated then "else" else "body");
    var arm := ArmRecord(w, x, n.loc, "range", n.pipe, if iterated then "body" else "empty", n.elseList.Some?, v);
    var unbound := Unbound(w, done.vars, n.pipe.decl);
    var more := if iterated then Explore(w, x, guard, x.dot, n.elseList, done.vars)
                else ExploreBlock(w, x, guard, w.host.nothing, n.list, unbound);
    if iterated {
      ExploreListQuiet(w, x, guard, x.dot, n.elseList, done.vars);
      NoExploring(Plain(w), x, guard, x.dot, n.elseList, plain.vars);
    } else {
      ExploreQuiet(w, x, guard, w.host.nothing, n.list, unbound);
      SameUnbound(w, plain.vars, n.pipe.decl);
      NoExploring(Plain(w), x, guard, w.host.nothing, Some(n.list), unbound);
    }
    QuietJoin(arm, more, x.guards);
    UnseenAlso(done, plain, Join(arm, more), x.guards);
    assert Join(EMPTY, EMPTY) == EMPTY;
  }

  lemma {:induction false} SameUnbound(w: World, vars: seq<Variable>, names: seq<string>)
    ensures Unbound(Plain(w), vars, names) == Unbound(w, vars, names)
    decreases |names|
  {
    if names != [] { SameUnbound(w, vars + [Variable(names[0], w.host.nothing)], names[1..]); }
  }

  lemma {:induction false} CallInvisible(w: World, n: Node, x: Place, vars: seq<Variable>)
    requires n.Call? && Guarded(x.guards) && x.depth <= MAX_DEPTH
    ensures Unseen(RunCall(w, n, x, vars), RunCall(Plain(w), n, x, vars), x.guards)
    decreases MAX_DEPTH - x.depth, n, 0
  {
    if n.name in w.templates && x.depth < MAX_DEPTH {
      var e := if n.arg.Some? then Pipeline(w, n.arg.value, x.dot, vars) else Piped(vars, [], Yields(w.host.nothing));
      assert n.arg.Some? ==> e == Pipeline(Plain(w), n.arg.value, x.dot, vars);
      match e.result
      case Fails(message) => UnseenRecorded(e.chains, Halt(Failing(message), e.vars), Halt(Failing(message), e.vars),
          x.guards);
      case Yields(v) =>
        var b, y := w.templates[n.name], x.(dot := v, depth := x.depth + 1);
        BlockInvisible(w, b, y, [Variable("$", v)]);
        var r, plain := RunBlock(w, b, y, [Variable("$", v)]), RunBlock(Plain(w), b, y, [Variable("$", v)]);
        UnseenRecorded(e.chains, r.(vars := e.vars), plain.(vars := e.vars), x.guards);
        assert RunCall(w, n, x, vars) == Recorded(ReadRecord(e.chains, x.guards), r.(vars := e.vars));
    }
  }

  // ----- the main results -----

  /** The reads not marked untaken. */
  function Taken(log: seq<Read>): seq<Read> { Mine(log, []) }

  /** A render with the untaken arms executed has the output, the spans, the variables and the taken reads of one
      without, stops as it does, and marks every other read untaken. */
  lemma {:induction false} ExplorationInvisible(w: World, root: Block, data: Value)
    ensures var r, plain := Render(w, root, data), Render(Plain(w), root, data);
            && r.stop == plain.stop && r.vars == plain.vars && r.text == plain.text && r.spans == plain.spans
            && Taken(r.record.log) == plain.record.log
            && (forall k | 0 <= k < |plain.record.log| :: !plain.record.log[k].untaken)
  {
    BlockInvisible(w, root, Place(data, 0, [], true, 0), [Variable("$", data)]);
    MineTaken(Render(w, root, data).record.log);
  }

  lemma {:induction false} MineTaken(log: seq<Read>)
    ensures forall k | 0 <= k < |Mine(log, [])| :: !Mine(log, [])[k].untaken
  {
    if log != [] { MineTaken(log[..|log| - 1]); }
  }

  /** The reads an explored arm makes itself -- those it makes without further exploration -- carry its guard; those of
      arms explored deeper inside carry a guard that is none of the ones around it. */
  lemma {:induction false} InnermostGuard(w: World, x: Place, guard: string, dot: Value, list: Block,
      vars: seq<Variable>)
    requires Guarded(x.guards) && x.depth <= MAX_DEPTH && Explores(w, x, guard)
    ensures var log := ExploreBlock(w, x, guard, dot, list, vars).log;
            && Guarded(x.guards + [guard])
            && Mine(log, x.guards + [guard]) == RunBlock(Plain(w), list, Inside(x, dot, guard), vars).record.log
            && (forall k | 0 <= k < |log| :: log[k].untaken && log[k].guard !in x.guards)
  {
    var log := RunBlock(w, list, Inside(x, dot, guard), vars).record.log;
    BlockInvisible(w, list, Inside(x, dot, guard), vars);
    assert log + [] == log;
    forall k | 0 <= k < |log|
      ensures log[k].untaken && log[k].guard !in x.guards
    {
      assert IsMine(log[k], x.guards + [guard]) || log[k].guard !in x.guards + [guard];
    }
  }
}
