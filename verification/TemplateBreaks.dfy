/** tpl/exec.go: which breaks end which range. The recover in `walkRange1` covers its else arm, so a break there ends at
    the range it stands in the else arm of, not at the loop around it. */
module TemplateBreaks {
  import opened Template
  import opened TemplateRun

  // ----- where a break goes -----

  /** An if or with passes on the break of the arm its condition picks, and makes none. */
  lemma {:induction false} ChoiceBreaks(w: World, n: Node, x: Place, vars: seq<Variable>)
    requires (n.If? || n.With?) && Guarded(x.guards) && x.depth <= MAX_DEPTH
    ensures
      var e := Pipeline(w, n.pipe, x.dot, vars);
      RunNode(w, n, x, vars).stop.Breaking? <==>
      match Truth(w, e.result)
      case None => false
      case Some(true) => RunBlock(w, n.list, x.(dot := DotIn(n, x, e.result.value)), e.vars).stop.Breaking?
      case Some(false) => n.elseList.Some? && RunBlock(w, n.elseList.value, x, e.vars).stop.Breaking?
  {
    assert RunNode(w, n, x, vars) == RunChoice(w, n, x, vars);
    var e := Pipeline(w, n.pipe, x.dot, vars);
    if Truth(w, e.result) == Some(true) {
      var v := e.result.value;
      assert TakeThen(w, n, v, x, e.vars).stop == RunBlock(w, n.list, x.(dot := DotIn(n, x, v)), e.vars).stop;
    } else if Truth(w, e.result) == Some(false) {
      assert TakeElse(w, n, e.result.value, x, e.vars).stop
          == if n.elseList.Some? then RunBlock(w, n.elseList.value, x, e.vars).stop else Normal;
    }
  }

  /** The `k`-th iteration, from where the ones before it left off. */
  function Iteration(w: World, n: Node, items: seq<(Value, Value)>, x: Place, vars: seq<Variable>, k: nat): (r: Run)
    requires n.Range? && Guarded(x.guards) && x.depth <= MAX_DEPTH && (!n.pipe.assign ==> |vars| >= |n.pipe.decl|)
    requires k < |items|
    decreases k
  {
    var r := RunIteration(w, n, items[0].0, items[0].1, x, vars);
    if k == 0 then r else Iteration(w, n, items[1..], x.(at := x.at + |r.text|), r.vars, k - 1)
  }

  predicate GoesOn(r: Run) { r.stop.Normal? || r.stop.Continuing? }

  /** The iterations break off at the `k`-th, after `k` that did not. */
  ghost predicate BreaksAt(w: World, n: Node, items: seq<(Value, Value)>, x: Place, vars: seq<Variable>, k: nat)
    requires n.Range? && Guarded(x.guards) && x.depth <= MAX_DEPTH && (!n.pipe.assign ==> |vars| >= |n.pipe.decl|)
  {
    && k < |items|
    && Iteration(w, n, items, x, vars, k).stop.Breaking?
    && forall j: nat | j < k :: GoesOn(Iteration(w, n, items, x, vars, j))
  }

  /** A loop stops at a break if and only if an iteration it reaches breaks. */
  lemma {:induction false} IterateBreaks(w: World, n: Node, items: seq<(Value, Value)>, x: Place, vars: seq<Variable>)
    requires n.Range? && Guarded(x.guards) && x.depth <= MAX_DEPTH && (!n.pipe.assign ==> |vars| >= |n.pipe.decl|)
    ensures Iterate(w, n, items, x, vars).stop.Breaking? <==> exists k: nat :: BreaksAt(w, n, items, x, vars, k)
    decreases |items|
  {
    if items != [] {
      IterateStep(w, n, items, x, vars);
      var r := Iteration(w, n, items, x, vars, 0);
      var y, rest := x.(at := x.at + |r.text|), items[1..];
      if r.stop.Breaking? {
        assert BreaksAt(w, n, items, x, vars, 0);
      } else if GoesOn(r) {
        IterateBreaks(w, n, rest, y, r.vars);
        LaterBreaks(w, n, items, x, vars, r, rest, y);
      }
    }
  }

  lemma {:induction false} LaterBreaks(w: World, n: Node, items: seq<(Value, Value)>, x: Place, vars: seq<Variable>,
      r: Run, rest: seq<(Value, Value)>, y: Place)
    requires n.Range? && Guarded(x.guards) && x.depth <= MAX_DEPTH && (!n.pipe.assign ==> |vars| >= |n.pipe.decl|)
    requires items != [] && r == Iteration(w, n, items, x, vars, 0) && GoesOn(r)
    requires rest == items[1..] && y == x.(at := x.at + |r.text|)
    ensures (exists k: nat :: BreaksAt(w, n, items, x, vars, k))
       <==> exists k: nat :: BreaksAt(w, n, rest, y, r.vars, k)
  {
    forall k: nat | k < |rest|
      ensures Iteration(w, n, items, x, vars, k + 1) == Iteration(w, n, rest, y, r.vars, k)
    {}
    if k: nat :| BreaksAt(w, n, items, x, vars, k) {
      forall j: nat | j < k - 1 ensures GoesOn(Iteration(w, n, rest, y, r.vars, j)) {
        assert GoesOn(Iteration(w, n, items, x, vars, j + 1));
      }
      assert BreaksAt(w, n, rest, y, r.vars, k - 1);
    }
    if k: nat :| BreaksAt(w, n, rest, y, r.vars, k) {
      forall j: nat | j < k + 1 ensures GoesOn(Iteration(w, n, items, x, vars, j)) {
        if j > 0 { assert GoesOn(Iteration(w, n, rest, y, r.vars, j - 1)); }
      }
      assert BreaksAt(w, n, items, x, vars, k + 1);
    }
  }

  /** An iteration breaks if and only if its body does. */
  lemma {:induction false} IterationBreaks(w: World, n: Node, index: Value, elem: Value, x: Place, vars: seq<Variable>)
    requires n.Range? && Guarded(x.guards) && x.depth <= MAX_DEPTH && (!n.pipe.assign ==> |vars| >= |n.pipe.decl|)
    ensures
      var (now, ok) := SetLoop(n.pipe, vars, index, elem);
      RunIteration(w, n, index, elem, x, vars).stop.Breaking?
      <==> ok && RunBlock(w, n.list, x.(dot := elem), now).stop.Breaking?
  {}

  // ----- the else arm of a range -----

  /** With nothing to iterate over a range stops as its else arm does, if and only if that does not break: a break there
      is swallowed. */
  lemma {:induction false} ElseBreakSwallowed(w: World, n: Node, x: Place, vars: seq<Variable>)
    requires n.Range? && n.elseList.Some? && Guarded(x.guards) && x.depth <= MAX_DEPTH
    requires
      var e := Pipeline(w, n.pipe, x.dot, vars);
      e.result.Yields? && w.host.items(e.result.value, |n.pipe.decl|) == Some([])
    ensures
      var r := RunBlock(w, n.elseList.value, x, Pipeline(w, n.pipe, x.dot, vars).vars);
      && (RunNode(w, n, x, vars).stop == r.stop <==> !r.stop.Breaking?)
      && (r.stop.Breaking? ==> RunNode(w, n, x, vars).stop == Normal)
  {
    var e := Pipeline(w, n.pipe, x.dot, vars);
    var r := RunBlock(w, n.elseList.value, x, e.vars);
    assert RunItems(w, n, e.result.value, x, e.vars) == (Caught(r), false);
    var done := Popped(Caught(r), |vars|);
    assert RunRange(w, n, x, vars).stop == RangeTail(w, n, e.result.value, x, done, false).stop == Caught(r).stop;
    assert RunNode(w, n, x, vars) == RunRange(w, n, x, vars);
  }

  // ----- {{range two}}{{range none}}{{else}}{{break}}{{end}}b{{end}} -----

  /** Two elements to range over for 1, none for anything else. */
  function Sample(): World {
    World(Host((e, dot, seen) => Evaluation([], Yields(e)), v => Some(true),
               (v, k) => if v == 1 then Some([(0, 0), (1, 0)]) else Some([]),
               v => Some(""), v => "", 0), map[], false)
  }

  function Inner(): Node { Range("", Pipe("", 0, [], false), Nil, Some(Cons(Break(""), Nil))) }

  function Outer(): Node { Range("", Pipe("", 1, [], false), Cons(Inner(), Cons(Text("", "b"), Nil)), None) }

  lemma {:induction false} InnerEnds(x: Place, vars: seq<Variable>)
    requires Guarded(x.guards) && x.depth <= MAX_DEPTH
    ensures var r := RunNode(Sample(), Inner(), x, vars); r.stop == Normal && r.text == "" && r.vars == vars
  {
    var w, n := Sample(), Inner();
    var e := Pipeline(w, n.pipe, x.dot, vars);
    assert e == Piped(vars, [], Yields(0));
    assert RunItems(w, n, 0, x, vars) == (Caught(RunBlock(w, n.elseList.value, x, vars)), false);
    assert RunBlock(w, n.elseList.value, x, vars) == Halt(Breaking, vars);
    var done := Popped(RunItems(w, n, 0, x, vars).0, |vars|);
    assert vars[..|vars|] == vars && done == Halt(Normal, vars);
    TailWrites(w, n, 0, x, done, false);
    assert RunRange(w, n, x, vars).text == RangeTail(w, n, 0, x, done, false).text;
    assert RunNode(w, n, x, vars) == RunRange(w, n, x, vars);
  }

  /** What is explored after a range writes nothing. */
  lemma {:induction false} TailWrites(w: World, n: Node, v: Value, x: Place, done: Run, iterated: bool)
    requires n.Range? && Guarded(x.guards) && x.depth <= MAX_DEPTH
    ensures RangeTail(w, n, v, x, done, iterated).text == done.text
  {}

  lemma {:induction false} OneRound(index: Value, elem: Value, x: Place, vars: seq<Variable>)
    requires Guarded(x.guards) && x.depth <= MAX_DEPTH
    ensures var r := RunIteration(Sample(), Outer(), index, elem, x, vars); r.stop == Normal && r.text == "b"
  {
    var w, y := Sample(), x.(dot := elem);
    InnerEnds(y, vars);
    var text := Cons(Text("", "b"), Nil);
    assert RunBlock(w, text, y, vars).stop == Normal && RunBlock(w, text, y, vars).text == "b";
    assert SetLoop(Outer().pipe, vars, index, elem) == (vars, true);
  }

  lemma {:induction false} BothRounds(x: Place, vars: seq<Variable>, items: seq<(Value, Value)>)
    requires Guarded(x.guards) && x.depth <= MAX_DEPTH && |items| <= 2
    ensures
      var r := Iterate(Sample(), Outer(), items, x, vars);
      r.stop == Normal && r.text == if |items| == 0 then "" else if |items| == 1 then "b" else "bb"
    decreases |items|
  {
    if items != [] {
      var r := RunIteration(Sample(), Outer(), items[0].0, items[0].1, x, vars);
      OneRound(items[0].0, items[0].1, x, vars);
      BothRounds(x.(at := x.at + |r.text|), r.vars, items[1..]);
      IterateStep(Sample(), Outer(), items, x, vars);
    }
  }

  lemma {:induction false} OuterEnds(x: Place, vars: seq<Variable>)
    requires Guarded(x.guards) && x.depth <= MAX_DEPTH
    ensures var r := RunNode(Sample(), Outer(), x, vars); r.stop == Normal && r.text == "bb"
  {
    var w, n := Sample(), Outer();
    var items: seq<(Value, Value)> := [(0, 0), (1, 0)];
    BothRounds(x, vars, items);
    assert RunItems(w, n, 1, x, vars) == (Caught(Iterate(w, n, items, x, vars)), true);
    assert Pipeline(w, n.pipe, x.dot, vars) == Piped(vars, [], Yields(1));
    var done := Popped(RunItems(w, n, 1, x, vars).0, |vars|);
    TailWrites(w, n, 1, x, done, true);
    assert RunRange(w, n, x, vars).text == RangeTail(w, n, 1, x, done, true).text;
    assert RunNode(w, n, x, vars) == RunRange(w, n, x, vars);
  }

  /** The break is reached in each of the two rounds of the outer range, and ends neither. */
  lemma {:induction false} ElseBreakExample(root: Block, data: Value)
    requires root == Cons(Outer(), Nil)
    ensures var r := Render(Sample(), root, data); r.stop == Normal && r.text == "bb"
  {
    var x, vars := Place(data, 0, [], true, 0), [Variable("$", data)];
    OuterEnds(x, vars);
    var r := RunNode(Sample(), Outer(), x, vars);
    assert RunBlock(Sample(), Nil, x.(at := x.at + |r.text|), r.vars) == Halt(Normal, r.vars);
    assert r.text + "" == r.text;
  }
}
