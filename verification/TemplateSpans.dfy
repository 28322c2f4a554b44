/** The spans of a render tile its output, and still do once the engine has removed "<no value>" from it. */
module TemplateSpans {
  import opened Template
  import opened TemplateRun

  /** The spans follow one another without gap or overlap from `start` to `end`. */
  predicate Tiles(spans: seq<Span>, start: int, end: int) {
    if spans == [] then start == end
    else spans[0].start == start && spans[0].start <= spans[0].end && Tiles(spans[1..], spans[0].end, end)
  }

  lemma {:induction false} TilesConcat(a: seq<Span>, b: seq<Span>, start: int, mid: int, end: int)
    requires Tiles(a, start, mid) && Tiles(b, mid, end)
    ensures Tiles(a + b, start, end)
  {
    if a == [] {
      assert a + b == b;
    } else {
      assert (a + b)[1..] == a[1..] + b;
      TilesConcat(a[1..], b, a[0].end, mid, end);
    }
  }

  /** What a counted execution writes is tiled; an uncounted one has no spans. */
  predicate Tiled(r: Run, x: Place) {
    if x.counting then Tiles(r.spans, x.at, x.at + |r.text|) else r.spans == []
  }

  lemma {:induction false} TiledAfter(r: Run, s: Run, x: Place)
    requires Tiled(r, x) && Tiled(s, x.(at := x.at + |r.text|))
    ensures Tiled(After(r, s), x)
  {
    if x.counting { TilesConcat(r.spans, s.spans, x.at, x.at + |r.text|, x.at + |r.text| + |s.text|); }
  }

  lemma {:induction false} BlockTiled(w: World, b: Block, x: Place, vars: seq<Variable>)
    requires Guarded(x.guards) && x.depth <= MAX_DEPTH
    ensures Tiled(RunBlock(w, b, x, vars), x)
    decreases MAX_DEPTH - x.depth, b, 0
  {
    match b
    case Nil =>
    case Cons(n, rest) =>
      var r := RunNode(w, n, x, vars);
      NodeTiled(w, n, x, vars);
      if r.stop.Normal? {
        BlockTiled(w, rest, x.(at := x.at + |r.text|), r.vars);
        TiledAfter(r, RunBlock(w, rest, x.(at := x.at + |r.text|), r.vars), x);
      }
  }

  lemma {:induction false} NodeTiled(w: World, n: Node, x: Place, vars: seq<Variable>)
    requires Guarded(x.guards) && x.depth <= MAX_DEPTH
    ensures Tiled(RunNode(w, n, x, vars), x)
    decreases MAX_DEPTH - x.depth, n, 3
  {
    match n
    case Text(loc, text) => OneSpan(x, RunNode(w, n, x, vars));
    case Comment =>
    case Break(_) =>
    case Continue(_) =>
    case Action(loc, p) => ActionTiled(w, loc, p, x, vars);
    case If(_, _, _, _) => ChoiceTiled(w, n, x, vars);
    case With(_, _, _, _) => ChoiceTiled(w, n, x, vars);
    case Range(_, _, _, _) => RangeTiled(w, n, x, vars);
    case Call(_, _, _) => CallTiled(w, n, x, vars);
  }

  lemma OneSpan(x: Place, r: Run)
    requires if x.counting then |r.spans| == 1 && r.spans[0].start == x.at && r.spans[0].end == x.at + |r.text|
        else r.spans == []
    ensures Tiled(r, x)
  {
    if x.counting { assert r.spans[1..] == []; }
  }

  lemma {:induction false} ActionTiled(w: World, loc: string, p: Pipe, x: Place, vars: seq<Variable>)
    ensures Tiled(RunAction(w, loc, p, x, vars), x)
  {
    var r := RunAction(w, loc, p, x, vars);
    if r.stop.Normal? { OneSpan(x, r); }
  }

  lemma {:induction false} ChoiceTiled(w: World, n: Node, x: Place, vars: seq<Variable>)
    requires (n.If? || n.With?) && Guarded(x.guards) && x.depth <= MAX_DEPTH
    ensures Tiled(RunChoice(w, n, x, vars), x)
    decreases MAX_DEPTH - x.depth, n, 1
  {
    var e := Pipeline(w, n.pipe, x.dot, vars);
    if Truth(w, e.result).Some? { ArmsTiled(w, n, e.result.value, x, e.vars); }
  }

  lemma {:induction false} ArmsTiled(w: World, n: Node, v: Value, x: Place, vars: seq<Variable>)
    requires (n.If? || n.With?) && Guarded(x.guards) && x.depth <= MAX_DEPTH
    ensures Tiled(TakeThen(w, n, v, x, vars), x) && Tiled(TakeElse(w, n, v, x, vars), x)
    decreases MAX_DEPTH - x.depth, n, 0
  {
    BlockTiled(w, n.list, x.(dot := DotIn(n, x, v)), vars);
    if n.elseList.Some? { BlockTiled(w, n.elseList.value, x, vars); }
  }

  lemma {:induction false} IterateTiled(w: World, n: Node, items: seq<(Value, Value)>, x: Place, vars: seq<Variable>)
    requires n.Range? && Guarded(x.guards) && x.depth <= MAX_DEPTH && (!n.pipe.assign ==> |vars| >= |n.pipe.decl|)
    ensures Tiled(Iterate(w, n, items, x, vars), x)
    decreases MAX_DEPTH - x.depth, n, 0, |items|
  {
    if items != [] {
      var r := RunIteration(w, n, items[0].0, items[0].1, x, vars);
      BlockTiled(w, n.list, x.(dot := items[0].1), SetLoop(n.pipe, vars, items[0].0, items[0].1).0);
      IterateStep(w, n, items, x, vars);
      if r.stop.Normal? || r.stop.Continuing? {
        IterateTiled(w, n, items[1..], x.(at := x.at + |r.text|), r.vars);
        TiledAfter(r, Iterate(w, n, items[1..], x.(at := x.at + |r.text|), r.vars), x);
      }
    }
  }

  lemma {:induction false} ItemsTiled(w: World, n: Node, v: Value, x: Place, vars: seq<Variable>)
    requires n.Range? && Guarded(x.guards) && x.depth <= MAX_DEPTH && (!n.pipe.assign ==> |vars| >= |n.pipe.decl|)
    ensures Tiled(RunItems(w, n, v, x, vars).0, x)
    decreases MAX_DEPTH - x.depth, n, 1
  {
    match w.host.items(v, |n.pipe.decl|)
    case None =>
    case Some(items) =>
      if items != [] {
        IterateTiled(w, n, items, x, vars);
      } else if n.elseList.Some? {
        BlockTiled(w, n.elseList.value, x, vars);
      }
  }

  lemma {:induction false} RangeTiled(w: World, n: Node, x: Place, vars: seq<Variable>)
    requires n.Range? && Guarded(x.guards) && x.depth <= MAX_DEPTH
    ensures Tiled(RunRange(w, n, x, vars), x)
    decreases MAX_DEPTH - x.depth, n, 2
  {
    var e := Pipeline(w, n.pipe, x.dot, vars);
    if e.result.Yields? { ItemsTiled(w, n, e.result.value, x, e.vars); }
  }

  lemma {:induction false} CallTiled(w: World, n: Node, x: Place, vars: seq<Variable>)
    requires n.Call? && Guarded(x.guards) && x.depth <= MAX_DEPTH
    ensures Tiled(RunCall(w, n, x, vars), x)
    decreases MAX_DEPTH - x.depth, n, 0
  {
    if n.name in w.templates && x.depth < MAX_DEPTH {
      var e := if n.arg.Some? then Pipeline(w, n.arg.value, x.dot, vars) else Piped(vars, [], Yields(w.host.nothing));
      if e.result.Yields? {
        BlockTiled(w, w.templates[n.name], x.(dot := e.result.value, depth := x.depth + 1),
            [Variable("$", e.result.value)]);
      }
    }
  }

  /** The spans of a render, explored arms and templates within templates included, cover its output byte by byte --
      also as far as a render that fails gets. */
  lemma SpansTile(w: World, root: Block, data: Value)
    ensures var r := Render(w, root, data); Tiles(r.spans, 0, |r.text|)
  {
    BlockTiled(w, root, Place(data, 0, [], true, 0), [Variable("$", data)]);
  }
}
