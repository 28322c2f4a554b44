/** tpl/exec.go and prov.go: the executor over its mutable state. A panic is a `Stop` handed up; what a deferred
    function restores is restored on every way out. */
module TemplateExecutor {
  import opened Template
  import opened TemplateRun
  import TemplateSpans

  /** What an execution can change: the stack, what is written, what is recorded. */
  datatype Trace = Trace(vars: seq<Variable>, out: string, spans: seq<Span>, record: Record)

  /** The trace once the run has happened. */
  function Applied(t: Trace, r: Run): Trace {
    Trace(r.vars, t.out + r.text, t.spans + r.spans, Join(t.record, r.record))
  }

  /** A run that only records, and leaves the given stack. */
  function Quietly(more: Record, vars: seq<Variable>): Run { Run(Normal, vars, "", [], more) }

  lemma AppliedAfter(t: Trace, r: Run, s: Run)
    ensures Applied(Applied(t, r), s) == Applied(t, After(r, s))
  {
    assert t.out + r.text + s.text == t.out + (r.text + s.text);
    assert t.spans + r.spans + s.spans == t.spans + (r.spans + s.spans);
    assert Join(Join(t.record, r.record), s.record) == Join(t.record, Join(r.record, s.record));
  }

  lemma AppliedRecorded(t: Trace, more: Record, vars: seq<Variable>, r: Run)
    ensures Applied(Applied(t, Quietly(more, vars)), r) == Applied(t, Recorded(more, r))
  {
    AppliedAfter(t, Quietly(more, vars), r);
    assert "" + r.text == r.text && [] + r.spans == r.spans;
  }

  lemma AppliedAlso(t: Trace, r: Run, more: Record)
    ensures Applied(Applied(t, r), Quietly(more, r.vars)) == Applied(t, Also(r, more))
  {
    AppliedAfter(t, r, Quietly(more, r.vars));
    assert r.text + "" == r.text && r.spans + [] == r.spans;
  }

  lemma AppliedHalt(t: Trace, stop: Stop)
    ensures Applied(t, Halt(stop, t.vars)) == t
  {
    assert t.out + "" == t.out && t.spans + [] == t.spans && Join(t.record, EMPTY) == t.record;
  }

  /** The arm of an `if` or `with` its condition picks. */
  ghost function TakeArm(w: World, n: Node, o: Outcome, x: Place, vars: seq<Variable>): (r: Run)
    requires (n.If? || n.With?) && Guarded(x.guards) && x.depth <= MAX_DEPTH
    ensures |r.vars| >= |vars|
  {
    match Truth(w, o)
    case None => Halt(Failing(Complaint(o)), vars)
    case Some(true) => TakeThen(w, n, o.value, x, vars)
    case Some(false) => TakeElse(w, n, o.value, x, vars)
  }

  lemma {:induction false} ChoiceParts(w: World, n: Node, x: Place, vars: seq<Variable>)
    requires (n.If? || n.With?) && Guarded(x.guards) && x.depth <= MAX_DEPTH
    ensures
      var e := Pipeline(w, n.pipe, x.dot, vars);
      RunChoice(w, n, x, vars)
      == Recorded(ReadRecord(e.chains, x.guards), Popped(TakeArm(w, n, e.result, x, e.vars), |vars|))
  {}

  /** What exploring adds does not depend on the dot, nor on how much has been written. */
  lemma {:induction false} ExploreFrom(w: World, x: Place, y: Place, guard: string, dot: Value, list: Block,
      vars: seq<Variable>)
    requires Guarded(x.guards) && x.depth <= MAX_DEPTH && x.guards == y.guards && x.depth == y.depth
    ensures ExploreBlock(w, x, guard, dot, list, vars) == ExploreBlock(w, y, guard, dot, list, vars)
  {
    assert Inside(x, dot, guard) == Inside(y, dot, guard);
  }

  class Executor {
    const w: World

    /** The stack of variables, and the depth of templates. */
    var vars: seq<Variable>
    var depth: nat

    /** What has been written to the current writer; counted when it is the file's. */
    var out: string
    var counting: bool
    var n: nat

    /** The file's spans, and the values of the action being evaluated. */
    var spans: seq<Span>
    var cur: Option<seq<string>>

    /** The recorder's lists, and the untaken arms being explored. */
    var log: seq<Read>
    var arms: seq<Arm>
    var explored: seq<Explored>
    var guards: seq<string>

    constructor (w: World, data: Value)
      ensures this.w == w && Valid() && cur.None? && vars == [Variable("$", data)] && out == "" && spans == []
      ensures log == [] && arms == [] && explored == [] && Here(data) == Place(data, 0, [], true, 0)
    {
      this.w := w;
      vars, depth, out, counting, n, spans, cur := [Variable("$", data)], 0, "", true, 0, [], None;
      log, arms, explored, guards := [], [], [], [];
    }

    ghost predicate Valid()
      reads this
    {
      Guarded(guards) && depth <= MAX_DEPTH && (counting ==> n == |out|)
    }

    /** Where the executor stands, for the function that says what it does. */
    ghost function Here(dot: Value): Place
      reads this
    {
      Place(dot, depth, guards, counting, |out|)
    }

    ghost function State(): Trace
      reads this
    {
      Trace(vars, out, spans, Record(log, arms, explored))
    }

    /** The state is what the run makes of the old one; guards, depth and writer are as they were. */
    twostate predicate Did(r: Run)
      reads this
    {
      Valid() && State() == Applied(old(State()), r) && Settled()
    }

    twostate predicate Settled()
      reads this
    {
      guards == old(guards) && depth == old(depth) && counting == old(counting)
    }

    // ----- variables -----

    /** `setVar` */
    method SetVar(name: string, v: Value) returns (ok: bool)
      modifies this`vars
      ensures (vars, ok) == Bind(old(vars), [name], true, v)
    {
      var i := |vars| - 1;
      assert vars[..|vars|] == vars;
      while i >= 0
        invariant -1 <= i < |vars| && LastIndex(vars[..i + 1], name) == LastIndex(vars, name)
      {
        if vars[i].name == name {
          assert LastIndex(vars, name) == i;
          vars := vars[i := Variable(name, v)];
          return true;
        }
        assert vars[..i + 1][..i] == vars[..i];
        i := i - 1;
      }
      ok := false;
    }

    // ----- writing and recording -----

    method Write(text: string)
      requires Valid()
      modifies this`out, this`n
      ensures Valid() && out == old(out) + text
    {
      out := out + text;
      if counting { n := n + |text|; }
    }

    /** `recordRead` */
    method RecordRead(c: Chain)
      modifies this`log, this`cur
      ensures log == old(log) + [MarkRead(c, guards)]
      ensures cur == if old(cur).None? then None else Some(old(cur).value + [c.path])
    {
      var r := Read(c.path, c.loc, false, "");
      if |guards| > 0 { r := r.(untaken := true, guard := guards[|guards| - 1]); }
      log := log + [r];
      if cur.Some? { cur := Some(cur.value + [c.path]); }
    }

    /** The evaluator's reads, recorded in turn. */
    method RecordReads(cs: seq<Chain>)
      modifies this`log, this`cur
      ensures log == old(log) + MarkReads(cs, guards)
      ensures cur == if old(cur).None? then None else Some(old(cur).value + Paths(cs))
    {
      var k := 0;
      assert cur.Some? ==> cur.value + Paths(cs[..0]) == cur.value;
      while k < |cs|
        invariant 0 <= k <= |cs| && log == old(log) + MarkReads(cs[..k], guards)
        invariant cur == if old(cur).None? then None else Some(old(cur).value + Paths(cs[..k]))
      {
        RecordRead(cs[k]);
        assert MarkReads(cs[..k + 1], guards) == MarkReads(cs[..k], guards) + [MarkRead(cs[k], guards)];
        assert Paths(cs[..k + 1]) == Paths(cs[..k]) + [cs[k].path];
        assert cur.Some? ==> cur.value == old(cur).value + Paths(cs[..k + 1]);
        k := k + 1;
      }
      assert cs[..|cs|] == cs;
    }

    /** `evalPipeline` */
    method EvalPipeline(p: Pipe, dot: Value) returns (o: Outcome)
      requires Valid()
      modifies this`vars, this`log, this`cur
      ensures var e := Pipeline(w, p, dot, old(vars));
              o == e.result && Did(Quietly(ReadRecord(e.chains, guards), e.vars))
              && cur == if old(cur).None? then None else Some(old(cur).value + Paths(e.chains))
    {
      var e := w.host.eval(p.expr, dot, Visible(vars));
      RecordReads(e.chains);
      o := e.result;
      if o.Yields? {
        var ok := Declare(p.decl, p.assign, o.value);
        if !ok { o := Fails("undefined variable"); }
      }
    }

    method Declare(names: seq<string>, assign: bool, v: Value) returns (ok: bool)
      modifies this`vars
      ensures (vars, ok) == Bind(old(vars), names, assign, v)
    {
      var k := 0;
      while k < |names|
        invariant 0 <= k <= |names| && Bind(vars, names[k..], assign, v) == Bind(old(vars), names, assign, v)
      {
        assert names[k..][1..] == names[k + 1..];
        if assign {
          ok := SetVar(names[k], v);
          if !ok { return; }
        } else {
          vars := vars + [Variable(names[k], v)];
        }
        k := k + 1;
      }
      ok := true;
    }

    /** `arm` */
    method RecordArm(loc: string, kind: string, p: Pipe, taken: string, hasElse: bool, v: Value)
      requires Valid()
      modifies this`arms
      ensures Did(Quietly(ArmRecord(w, Here(v), loc, kind, p, taken, hasElse, v), vars))
    {
      if w.branches {
        arms := arms + [Arm(loc, kind, p.text, taken, hasElse, w.host.describe(v), |guards| > 0)];
      }
    }

    // ----- nodes -----

    method WalkAction(loc: string, p: Pipe, dot: Value) returns (stop: Stop)
      requires Valid() && cur.None?
      modifies this
      ensures var r := RunAction(w, loc, p, old(Here(dot)), old(vars)); stop == r.stop && Did(r)
      ensures !stop.Failing? ==> cur.None?
    {
      var start := n;
      if counting { cur := Some([]); }
      ghost var chains := Pipeline(w, p, dot, vars).chains;
      assert [] + Paths(chains) == Paths(chains);
      var o := EvalPipeline(p, dot);
      if o.Fails? { return Failing(o.message); }
      if p.decl == [] {
        var text := w.host.show(o.value);
        if text.None? { return Failing("can't print the value"); }
        Write(text.value);
      }
      if counting {
        spans := spans + [Span(start, n, loc, "action", cur.value)];
        cur := None;
      }
      stop := Normal;
    }

    method WalkText(loc: string, text: string)
      requires Valid()
      modifies this`out, this`n, this`spans
      ensures Did(Run(Normal, vars, text,
          if counting then [Span(|old(out)|, |old(out)| + |text|, loc, "text", [])] else [], EMPTY))
    {
      var start := n;
      Write(text);
      if counting {
        spans := spans + [Span(start, n, loc, "text", [])];
      }
    }

    /** `walk` on a list. */
    method Walk(b: Block, dot: Value) returns (stop: Stop)
      requires Valid() && cur.None?
      modifies this
      decreases MAX_DEPTH - depth, b, 0
      ensures var r := RunBlock(w, b, old(Here(dot)), old(vars)); stop == r.stop && Did(r)
      ensures !stop.Failing? ==> cur.None?
    {
      ghost var t, x := State(), Here(dot);
      if b.Nil? {
        AppliedHalt(t, Normal);
        stop := Normal;
      } else {
        ghost var r := RunNode(w, b.head, x, vars);
        stop := Walk1(b.head, dot);
        if stop.Normal? {
          assert Here(dot) == x.(at := x.at + |r.text|);
          AppliedAfter(t, r, RunBlock(w, b.tail, Here(dot), r.vars));
          stop := Walk(b.tail, dot);
        }
      }
    }

    method Walk1(node: Node, dot: Value) returns (stop: Stop)
      requires Valid() && cur.None?
      modifies this
      decreases MAX_DEPTH - depth, node, 4
      ensures var r := RunNode(w, node, old(Here(dot)), old(vars)); stop == r.stop && Did(r)
      ensures !stop.Failing? ==> cur.None?
    {
      stop := Normal;
      match node {
        case Text(loc, text) => WalkText(loc, text);
        case Comment => AppliedHalt(State(), Normal);
        case Break(_) => stop := Breaking; AppliedHalt(State(), stop);
        case Continue(_) => stop := Continuing; AppliedHalt(State(), stop);
        case Action(loc, p) => stop := WalkAction(loc, p, dot);
        case If(_, _, _, _) => stop := WalkIfOrWith(node, dot);
        case With(_, _, _, _) => stop := WalkIfOrWith(node, dot);
        case Range(_, _, _, _) => stop := WalkRange(node, dot);
        case Call(_, _, _) => stop := WalkTemplate(node, dot);
      }
    }

    /** `explore`: the arm runs inside its guard, into a buffer; whatever happens the executor is as before. */
    method Explore(guard: string, dot: Value, list: Block, pre: seq<string>)
      requires Valid() && cur.None?
      modifies this
      decreases MAX_DEPTH - depth, list, 2
      ensures Did(Quietly(ExploreBlock(w, old(Here(dot)), guard, dot, list, Unbound(w, old(vars), pre)), old(vars)))
      ensures cur.None?
    {
      ghost var t, x := State(), Here(dot);
      AppliedHalt(t, Normal);
      if !w.branches || |guards| >= MAX_GUARDS { return; }
      if guard in guards { return; }
      ghost var r := RunBlock(w, list, Inside(x, dot, guard), Unbound(w, vars, pre));
      var stop, text := RunInside(guard, dot, list, pre);
      explored := explored + [Explored(guard, Clean(text, 0), if stop.Failing? then Some(stop.message) else None)];
      ExploredRecord(t.record, r, guard);
      assert t.out + "" == t.out && t.spans + [] == t.spans;
    }

    /** The arm between the change of writer, variables and guards and the return to the old ones. */
    method RunInside(guard: string, dot: Value, list: Block, pre: seq<string>) returns (stop: Stop, text: string)
      requires Valid() && cur.None? && |guards| < MAX_GUARDS && guard !in guards
      modifies this
      decreases MAX_DEPTH - depth, list, 1
      ensures var r := RunBlock(w, list, Inside(old(Here(dot)), dot, guard), Unbound(w, old(vars), pre));
              stop == r.stop && text == r.text
                  && State() == old(State()).(record := Join(old(State()).record, r.record))
      ensures Valid() && Settled() && cur.None?
    {
      ghost var t, x := State(), Here(dot);
      var saved, file, count, was := vars, out, counting, n;
      Enter(guard, pre);
      assert Here(dot) == Inside(x, dot, guard);
      ghost var r := RunBlock(w, list, Inside(x, dot, guard), vars);
      NoSpans(w, list, Inside(x, dot, guard), vars);
      Buffered(State(), r);
      stop := Walk(list, dot);
      text := out;
      Leave(saved, file, count, was);
    }

    /** The guard, the buffer and the variables of the arm. */
    method Enter(guard: string, pre: seq<string>)
      requires Valid() && |guards| < MAX_GUARDS && guard !in guards
      modifies this
      ensures Valid() && cur.None? && guards == old(guards) + [guard] && !counting && depth == old(depth)
      ensures State() == old(State()).(vars := Unbound(w, old(vars), pre), out := "")
    {
      out, counting, cur := "", false, None;
      guards := guards + [guard];
      Push(pre);
    }

    /** What `explore` puts back. */
    method Leave(saved: seq<Variable>, file: string, count: bool, was: nat)
      requires Valid() && |guards| > 0 && (count ==> was == |file|)
      modifies this
      ensures Valid() && cur.None? && guards == old(guards)[..|old(guards)| - 1] && counting == count
      ensures depth == old(depth)
      ensures State() == old(State()).(vars := saved, out := file)
    {
      guards := guards[..|guards| - 1];
      vars := saved;
      out, counting, n, cur := file, count, was, None;
    }

    /** The variables an arm expects, bound to no value. */
    method Push(names: seq<string>)
      modifies this`vars
      ensures vars == Unbound(w, old(vars), names)
    {
      var k := 0;
      while k < |names|
        invariant 0 <= k <= |names| && Unbound(w, vars, names[k..]) == Unbound(w, old(vars), names)
      {
        assert names[k..][1..] == names[k + 1..];
        vars := vars + [Variable(names[k], w.host.nothing)];
        k := k + 1;
      }
    }

    /** `walkIfOrWith` */
    method WalkIfOrWith(node: Node, dot: Value) returns (stop: Stop)
      requires (node.If? || node.With?) && Valid() && cur.None?
      modifies this
      decreases MAX_DEPTH - depth, node, 1
      ensures var r := RunChoice(w, node, old(Here(dot)), old(vars)); stop == r.stop && Did(r)
      ensures !stop.Failing? ==> cur.None?
    {
      ghost var t, x := State(), Here(dot);
      ghost var e := Pipeline(w, node.pipe, dot, vars);
      var mark := |vars|;
      var o := EvalPipeline(node.pipe, dot);
      assert Here(dot) == x;
      ChoiceParts(w, node, x, old(vars));
      stop := WalkArm(node, o, dot);
      AppliedRecorded(t, ReadRecord(e.chains, guards), e.vars, TakeArm(w, node, o, x, e.vars));
      vars := vars[..mark];
    }

    /** The arm the condition picks. */
    method WalkArm(node: Node, o: Outcome, dot: Value) returns (stop: Stop)
      requires (node.If? || node.With?) && Valid() && cur.None?
      modifies this
      decreases MAX_DEPTH - depth, node, 0, 1
      ensures var r := TakeArm(w, node, o, old(Here(dot)), old(vars)); stop == r.stop && Did(r)
      ensures !stop.Failing? ==> cur.None?
    {
      if o.Fails? || w.host.truth(o.value).None? {
        stop := Failing(Complaint(o));
        AppliedHalt(State(), stop);
      } else if w.host.truth(o.value).value {
        stop := WalkThen(node, o.value, dot);
      } else {
        stop := WalkElse(node, o.value, dot);
      }
    }

    method WalkThen(node: Node, v: Value, dot: Value) returns (stop: Stop)
      requires (node.If? || node.With?) && Valid() && cur.None?
      modifies this
      decreases MAX_DEPTH - depth, node, 0, 0
      ensures var r := TakeThen(w, node, v, old(Here(dot)), old(vars)); stop == r.stop && Did(r)
      ensures !stop.Failing? ==> cur.None?
    {
      ghost var t, x, vars0 := State(), Here(dot), vars;
      ghost var arm := ArmRecord(w, x, node.loc, Kind(node), node.pipe, "then", node.elseList.Some?, v);
      RecordArm(node.loc, Kind(node), node.pipe, "then", node.elseList.Some?, v);
      ghost var r := RunBlock(w, node.list, x.(dot := DotIn(node, x, v)), vars);
      stop := Walk(node.list, if node.With? then v else dot);
      AppliedRecorded(t, arm, vars0, r);
      if stop.Normal? {
        ghost var guard := Guard(node.loc, Kind(node), node.pipe, "else");
        if node.elseList.Some? {
          ExploreFrom(w, x, Here(dot), guard, dot, node.elseList.value, vars);
          Explore(Guard(node.loc, Kind(node), node.pipe, "else"), dot, node.elseList.value, []);
        } else {
          AppliedHalt(State(), Normal);
        }
        ghost var more := TemplateRun.Explore(w, x, guard, dot, node.elseList, r.vars);
        AppliedAlso(t, Recorded(arm, r), more);
        AlsoRecorded(arm, r, more);
      }
    }

    method WalkElse(node: Node, v: Value, dot: Value) returns (stop: Stop)
      requires (node.If? || node.With?) && Valid() && cur.None?
      modifies this
      decreases MAX_DEPTH - depth, node, 0, 0
      ensures var r := TakeElse(w, node, v, old(Here(dot)), old(vars)); stop == r.stop && Did(r)
      ensures !stop.Failing? ==> cur.None?
    {
      ghost var t, x, vars0 := State(), Here(dot), vars;
      ghost var arm := ArmRecord(w, x, node.loc, Kind(node), node.pipe,
          if node.elseList.Some? then "else" else "none", node.elseList.Some?, v);
      ghost var r;
      if node.elseList.Some? {
        RecordArm(node.loc, Kind(node), node.pipe, "else", true, v);
        r := RunBlock(w, node.elseList.value, x, vars);
        stop := Walk(node.elseList.value, dot);
      } else {
        RecordArm(node.loc, Kind(node), node.pipe, "none", false, v);
        r := Halt(Normal, vars);
        AppliedHalt(State(), Normal);
        stop := Normal;
      }
      AppliedRecorded(t, arm, vars0, r);
      if stop.Normal? {
        ghost var guard, seen := Guard(node.loc, Kind(node), node.pipe, "then"), if node.With? then v else dot;
        ExploreFrom(w, x, Here(seen), guard, seen, node.list, vars);
        Explore(Guard(node.loc, Kind(node), node.pipe, "then"), if node.With? then v else dot, node.list, []);
        ghost var more := ExploreBlock(w, x, guard, seen, node.list, r.vars);
        AppliedAlso(t, Recorded(arm, r), more);
        AlsoRecorded(arm, r, more);
      }
    }

    // ----- range -----

    /** The range variables of one iteration. */
    method SetRange(p: Pipe, index: Value, elem: Value) returns (ok: bool)
      requires !p.assign ==> |vars| >= |p.decl|
      modifies this`vars
      ensures (vars, ok) == SetLoop(p, old(vars), index, elem)
    {
      ok := true;
      if |p.decl| > 0 {
        if p.assign {
          ok := SetVar(p.decl[0], if |p.decl| > 1 then index else elem);
        } else {
          vars := vars[|vars| - 1 := Variable(vars[|vars| - 1].name, elem)];
        }
      }
      if ok && |p.decl| > 1 {
        if p.assign {
          ok := SetVar(p.decl[1], elem);
        } else {
          vars := vars[|vars| - 2 := Variable(vars[|vars| - 2].name, index)];
        }
      }
    }

    /** `oneIteration`: its variables, the body, and the stack back at the mark; a continue ends here. */
    method OneIteration(node: Node, index: Value, elem: Value) returns (stop: Stop)
      requires node.Range? && Valid() && cur.None? && (!node.pipe.assign ==> |vars| >= |node.pipe.decl|)
      modifies this
      decreases MAX_DEPTH - depth, node, 0
      ensures var r := RunIteration(w, node, index, elem, old(Here(elem)), old(vars)); stop == r.stop && Did(r)
      ensures !stop.Failing? ==> cur.None?
    {
      ghost var t := State();
      var mark := |vars|;
      var ok := SetRange(node.pipe, index, elem);
      if !ok {
        AppliedHalt(State(), Normal);
        return Failing("undefined variable");
      }
      stop := Walk(node.list, elem);
      vars := vars[..mark];
    }

    /** The loop over the elements. */
    method WalkItems(node: Node, items: seq<(Value, Value)>, dot: Value) returns (stop: Stop)
      requires node.Range? && Valid() && cur.None? && (!node.pipe.assign ==> |vars| >= |node.pipe.decl|)
      modifies this
      decreases MAX_DEPTH - depth, node, 1
      ensures var r := Iterate(w, node, items, old(Here(dot)), old(vars)); stop == r.stop && Did(r)
      ensures !stop.Failing? ==> cur.None?
    {
      ghost var t, x0, vars0 := State(), Here(dot), vars;
      ghost var acc := Halt(Normal, vars);
      AppliedHalt(t, Normal);
      var k := 0;
      HaltFirst(Iterate(w, node, items, x0, vars0), vars0);
      assert items[0..] == items;
      while k < |items|
        invariant 0 <= k <= |items| && Valid() && cur.None? && Settled() && |vars| == |vars0|
        invariant State() == Applied(t, acc) && acc.stop.Normal?
        invariant Iterate(w, node, items, x0, vars0) == After(acc, Iterate(w, node, items[k..], Here(dot), vars))
      {
        stop, acc := WalkElement(node, items, k, dot, t, acc);
        if !stop.Normal? && !stop.Continuing? { return; }
        k := k + 1;
      }
      AfterHalt(acc);
      stop := Normal;
    }

    /** One turn of the loop, after the elements that did `acc`. */
    method WalkElement(node: Node, items: seq<(Value, Value)>, k: nat, dot: Value, ghost t: Trace, ghost acc: Run)
      returns (stop: Stop, ghost acc1: Run)
      requires node.Range? && Valid() && cur.None? && (!node.pipe.assign ==> |vars| >= |node.pipe.decl|) && k < |items|
      requires State() == Applied(t, acc) && acc.stop.Normal?
      modifies this
      decreases MAX_DEPTH - depth, node, 1, 0
      ensures Valid() && Settled() && |vars| == |old(vars)| && State() == Applied(t, acc1)
      ensures !stop.Failing? ==> cur.None?
      ensures
        var whole := After(acc, Iterate(w, node, items[k..], old(Here(dot)), old(vars)));
        if stop.Normal? || stop.Continuing? then
          acc1.stop.Normal? && whole == After(acc1, Iterate(w, node, items[k + 1..], Here(dot), vars))
        else stop == whole.stop && acc1 == whole
    {
      ghost var x, was := Here(dot), vars;
      ghost var r := RunIteration(w, node, items[k].0, items[k].1, x, was);
      stop := OneIteration(node, items[k].0, items[k].1);
      ItemDone(w, node, items, k, t, acc, x, was);
      acc1 := After(acc, r);
      if stop.Normal? || stop.Continuing? { acc1 := acc1.(stop := Normal); }
    }

    /** `walkRange1`: the elements or the else-arm; a break out of either is caught here, and the stack popped. */
    method WalkRange1(node: Node, dot: Value) returns (stop: Stop, iterated: bool, v: Value)
      requires node.Range? && Valid() && cur.None?
      modifies this
      decreases MAX_DEPTH - depth, node, 2
      ensures var e := Pipeline(w, node.pipe, dot, old(vars));
              match e.result
              case Fails(message) => stop == Failing(message)
                  && Did(Recorded(ReadRecord(e.chains, guards), Halt(stop, e.vars[..|old(vars)|])))
              case Yields(value) =>
                var (r, i) := RunItems(w, node, value, old(Here(dot)), e.vars);
                v == value && stop == r.stop && (stop.Normal? ==> iterated == i)
                    && Did(Recorded(ReadRecord(e.chains, guards), Popped(r, |old(vars)|)))
      ensures !stop.Failing? ==> cur.None?
    {
      ghost var t, x, e := State(), Here(dot), Pipeline(w, node.pipe, dot, vars);
      var mark := |vars|;
      var o := EvalPipeline(node.pipe, dot);
      assert Here(dot) == x;
      iterated := false;
      if o.Fails? {
        stop, v := Failing(o.message), w.host.nothing;
        AppliedHalt(State(), stop);
        AppliedRecorded(t, ReadRecord(e.chains, guards), e.vars, Halt(stop, e.vars));
        vars := vars[..mark];
        return;
      }
      v := o.value;
      ghost var r := RunItems(w, node, v, x, e.vars).0;
      stop, iterated := WalkElements(node, v, dot);
      AppliedRecorded(t, ReadRecord(e.chains, guards), e.vars, r);
      vars := vars[..mark];
    }

    method WalkElements(node: Node, v: Value, dot: Value) returns (stop: Stop, iterated: bool)
      requires node.Range? && Valid() && cur.None? && (!node.pipe.assign ==> |vars| >= |node.pipe.decl|)
      modifies this
      decreases MAX_DEPTH - depth, node, 2, 0
      ensures var (r, i) := RunItems(w, node, v, old(Here(dot)), old(vars)); stop == r.stop && iterated == i && Did(r)
      ensures !stop.Failing? ==> cur.None?
    {
      var items := w.host.items(v, |node.pipe.decl|);
      iterated, stop := false, Normal;
      AppliedHalt(State(), Normal);
      if items.None? {
        return Failing("range can't iterate over the value"), false;
      }
      if |items.value| > 0 {
        iterated := true;
        stop := WalkItems(node, items.value, dot);
      } else if node.elseList.Some? {
        stop := Walk(node.elseList.value, dot);
      }
      if stop.Breaking? { stop := Normal; }
    }

    /** `walkRange` */
    method WalkRange(node: Node, dot: Value) returns (stop: Stop)
      requires node.Range? && Valid() && cur.None?
      modifies this
      decreases MAX_DEPTH - depth, node, 3
      ensures var r := RunRange(w, node, old(Here(dot)), old(vars)); stop == r.stop && Did(r)
      ensures !stop.Failing? ==> cur.None?
    {
      ghost var t, x, e := State(), Here(dot), Pipeline(w, node.pipe, dot, vars);
      ghost var vars0 := vars;
      var iterated, v;
      stop, iterated, v := WalkRange1(node, dot);
      if stop.Normal? {
        ghost var done := Popped(RunItems(w, node, v, x, e.vars).0, |vars0|);
        UntakenFrom(w, node, v, x, Here(dot), done.vars, iterated);
        WalkUntaken(node, v, dot, iterated);
        RangeRecord(w, node, v, x, t, ReadRecord(e.chains, guards), done, iterated);
      }
    }

    /** The arm of a range the values did not take. */
    method WalkUntaken(node: Node, v: Value, dot: Value, iterated: bool)
      requires node.Range? && Valid() && cur.None?
      modifies this
      decreases MAX_DEPTH - depth, node, 1, 1
      ensures Did(Quietly(Untaken(w, node, v, old(Here(dot)), old(vars), iterated), old(vars))) && cur.None?
    {
      ghost var t, x, vars0 := State(), Here(dot), vars;
      AppliedHalt(t, Normal);
      assert Join(EMPTY, EMPTY) == EMPTY;
      if !w.branches {
        NoUntaken(w, node, v, x, vars, iterated);
        return;
      }
      RecordArm(node.loc, "range", node.pipe, if iterated then "body" else "empty", node.elseList.Some?, v);
      ghost var arm := ArmRecord(w, x, node.loc, "range", node.pipe,
          if iterated then "body" else "empty", node.elseList.Some?, v);
      ghost var more;
      if !iterated {
        more := ExploreBlock(w, x, Guard(node.loc, "range", node.pipe, "body"), w.host.nothing, node.list,
            Unbound(w, vars, node.pipe.decl));
        ExploreFrom(w, x, Here(w.host.nothing), Guard(node.loc, "range", node.pipe, "body"), w.host.nothing, node.list,
            Unbound(w, vars, node.pipe.decl));
        Explore(Guard(node.loc, "range", node.pipe, "body"), w.host.nothing, node.list, node.pipe.decl);
      } else {
        more := TemplateRun.Explore(w, x, Guard(node.loc, "range", node.pipe, "else"), dot, node.elseList, vars);
        if node.elseList.Some? {
          Explore(Guard(node.loc, "range", node.pipe, "else"), dot, node.elseList.value, []);
        } else {
          AppliedHalt(State(), Normal);
        }
      }
      AppliedRecorded(t, arm, vars0, Quietly(more, vars0));
    }

    // ----- templates -----

    /** `walkTemplate`: a state of its own for the template, which writes and records where this one does. */
    method WalkTemplate(node: Node, dot: Value) returns (stop: Stop)
      requires node.Call? && Valid() && cur.None?
      modifies this
      decreases MAX_DEPTH - depth, node, 0
      ensures var r := RunCall(w, node, old(Here(dot)), old(vars)); stop == r.stop && Did(r)
      ensures !stop.Failing? ==> cur.None?
    {
      ghost var t, x := State(), Here(dot);
      AppliedHalt(t, Normal);
      if node.name !in w.templates { return Failing("template not defined"); }
      if depth == MAX_DEPTH { return Failing("exceeded maximum template depth"); }
      ghost var e := if node.arg.Some? then Pipeline(w, node.arg.value, dot, vars)
          else Piped(vars, [], Yields(w.host.nothing));
      var o := Yields(w.host.nothing);
      if node.arg.Some? { o := EvalPipeline(node.arg.value, dot); }
      assert State() == Applied(t, Quietly(ReadRecord(e.chains, guards), e.vars));
      if o.Fails? {
        AppliedHalt(State(), Failing(o.message));
        AppliedRecorded(t, ReadRecord(e.chains, guards), e.vars, Halt(Failing(o.message), e.vars));
        return Failing(o.message);
      }
      ghost var r := RunBlock(w, w.templates[node.name], x.(dot := o.value, depth := x.depth + 1),
          [Variable("$", o.value)]);
      assert Here(o.value).(depth := x.depth + 1) == x.(dot := o.value, depth := x.depth + 1);
      stop := WalkCalled(w.templates[node.name], o.value);
      AppliedRecorded(t, ReadRecord(e.chains, guards), e.vars, r.(vars := e.vars));
    }

    /** The new state of `walkTemplate`, and the return to the old one. */
    method WalkCalled(b: Block, v: Value) returns (stop: Stop)
      requires Valid() && cur.None? && depth < MAX_DEPTH
      modifies this
      decreases MAX_DEPTH - depth - 1, b, 1
      ensures
        var r := RunBlock(w, b, old(Here(v)).(depth := old(depth) + 1), [Variable("$", v)]);
        stop == r.stop && Did(r.(vars := old(vars)))
      ensures !stop.Failing? ==> cur.None?
    {
      var caller := vars;
      depth, vars := depth + 1, [Variable("$", v)];
      stop := Walk(b, v);
      depth, vars := depth - 1, caller;
    }
  }

  /** `execute`: a top-level render. Its output, spans and record are those of `Render`; no guard is left. */
  method Execute(w: World, root: Block, data: Value) returns (s: Executor, stop: Stop)
    ensures var r := Render(w, root, data);
            stop == r.stop && s.out == r.text && s.spans == r.spans && s.vars == r.vars && s.log == r.record.log
            && s.arms == r.record.arms && s.explored == r.record.explored && s.guards == [] && s.depth == 0
  {
    s := new Executor(w, data);
    ghost var t, r := s.State(), Render(w, root, data);
    stop := s.Walk(root, data);
    assert "" + r.text == r.text && [] + r.spans == r.spans && Join(EMPTY, r.record) == r.record;
  }

  // ----- how runs put together -----

  /** An execution into a buffer has no spans. */
  lemma {:induction false} NoSpans(w: World, b: Block, x: Place, vars: seq<Variable>)
    requires Guarded(x.guards) && x.depth <= MAX_DEPTH && !x.counting
    ensures RunBlock(w, b, x, vars).spans == []
  {
    TemplateSpans.BlockTiled(w, b, x, vars);
  }

  /** A run without spans into an empty buffer. */
  lemma Buffered(t: Trace, r: Run)
    requires t.out == "" && r.spans == []
    ensures Applied(t, r) == Trace(r.vars, r.text, t.spans, Join(t.record, r.record))
  {
    assert t.out + r.text == r.text && t.spans + r.spans == t.spans;
  }

  lemma ExploredRecord(was: Record, r: Run, guard: string)
    ensures Join(was, Join(r.record, ExploredBy(guard, r))) ==
            Record(was.log + r.record.log, was.arms + r.record.arms,
                was.explored + r.record.explored + ExploredBy(guard, r).explored)
  {
    assert r.record.log + [] == r.record.log && r.record.arms + [] == r.record.arms;
    assert was.explored + r.record.explored + ExploredBy(guard, r).explored
        == was.explored + (r.record.explored + ExploredBy(guard, r).explored);
  }

  lemma AlsoRecorded(arm: Record, r: Run, more: Record)
    ensures Also(Recorded(arm, r), more) == Recorded(arm, Also(r, more))
  {
    assert Join(Join(arm, r.record), more) == Join(arm, Join(r.record, more));
  }

  lemma HaltFirst(s: Run, vars: seq<Variable>)
    ensures After(Halt(Normal, vars), s) == s
  {
    assert "" + s.text == s.text && [] + s.spans == s.spans && Join(EMPTY, s.record) == s.record;
  }

  lemma AfterTwice(a: Run, r: Run, s: Run)
    ensures After(a, After(r, s)) == After(After(a, r).(stop := Normal), s)
  {
    assert a.text + (r.text + s.text) == a.text + r.text + s.text;
    assert a.spans + (r.spans + s.spans) == a.spans + r.spans + s.spans;
    assert Join(a.record, Join(r.record, s.record)) == Join(Join(a.record, r.record), s.record);
  }

  lemma AfterHalt(a: Run)
    requires a.stop.Normal?
    ensures After(a, Halt(Normal, a.vars)) == a
  {
    assert a.text + "" == a.text && a.spans + [] == a.spans && Join(a.record, EMPTY) == a.record;
  }

  /** One element of a range done: the state, and what is left of the elements. */
  lemma {:induction false} ItemDone(w: World, n: Node, items: seq<(Value, Value)>, k: nat, t: Trace, acc: Run, x: Place,
      vars: seq<Variable>)
    requires n.Range? && Guarded(x.guards) && x.depth <= MAX_DEPTH && (!n.pipe.assign ==> |vars| >= |n.pipe.decl|)
    requires k < |items|
    ensures var r := RunIteration(w, n, items[k].0, items[k].1, x, vars);
            && Applied(Applied(t, acc), r) == Applied(t, After(acc, r)) == Applied(t, After(acc, r).(stop := Normal))
            && After(acc, Iterate(w, n, items[k..], x, vars)) ==
               if r.stop.Normal? || r.stop.Continuing?
               then After(After(acc, r).(stop := Normal),
                   Iterate(w, n, items[k + 1..], x.(at := x.at + |r.text|), r.vars)) else After(acc, r)
  {
    var r := RunIteration(w, n, items[k].0, items[k].1, x, vars);
    AppliedAfter(t, acc, r);
    IterateStep(w, n, items[k..], x, vars);
    assert items[k..][1..] == items[k + 1..];
    AfterTwice(acc, r, Iterate(w, n, items[k + 1..], x.(at := x.at + |r.text|), r.vars));
  }

  /** What a range adds to the record after its elements or its else-arm. */
  function Untaken(w: World, n: Node, v: Value, x: Place, vars: seq<Variable>, iterated: bool): Record
    requires n.Range? && Guarded(x.guards) && x.depth <= MAX_DEPTH
  {
    if iterated then
      Join(ArmRecord(w, x, n.loc, "range", n.pipe, "body", n.elseList.Some?, v),
           TemplateRun.Explore(w, x, Guard(n.loc, "range", n.pipe, "else"), x.dot, n.elseList, vars))
    else
      Join(ArmRecord(w, x, n.loc, "range", n.pipe, "empty", n.elseList.Some?, v),
           ExploreBlock(w, x, Guard(n.loc, "range", n.pipe, "body"), w.host.nothing, n.list,
               Unbound(w, vars, n.pipe.decl)))
  }

  lemma NoUntaken(w: World, n: Node, v: Value, x: Place, vars: seq<Variable>, iterated: bool)
    requires n.Range? && !w.branches && Guarded(x.guards) && x.depth <= MAX_DEPTH
    ensures Untaken(w, n, v, x, vars, iterated) == EMPTY
  {
    NoExploring(w, x, Guard(n.loc, "range", n.pipe, "else"), x.dot, n.elseList, vars);
    NoExploring(w, x, Guard(n.loc, "range", n.pipe, "body"), w.host.nothing, Some(n.list),
        Unbound(w, vars, n.pipe.decl));
  }

  /** The untaken arm does not depend on how much the range wrote. */
  lemma UntakenFrom(w: World, n: Node, v: Value, x: Place, y: Place, vars: seq<Variable>, iterated: bool)
    requires n.Range? && Guarded(x.guards) && x.depth <= MAX_DEPTH && y == x.(at := y.at)
    ensures Untaken(w, n, v, x, vars, iterated) == Untaken(w, n, v, y, vars, iterated)
  {
    ExploreFrom(w, x, y, Guard(n.loc, "range", n.pipe, "body"), w.host.nothing, n.list, Unbound(w, vars, n.pipe.decl));
    if n.elseList.Some? { ExploreFrom(w, x, y, Guard(n.loc, "range", n.pipe, "else"), x.dot, n.elseList.value, vars); }
  }

  lemma RangeRecord(w: World, n: Node, v: Value, x: Place, t: Trace, before: Record, done: Run, iterated: bool)
    requires n.Range? && Guarded(x.guards) && x.depth <= MAX_DEPTH && done.stop.Normal?
    ensures Applied(Applied(t, Recorded(before, done)), Quietly(Untaken(w, n, v, x, done.vars, iterated), done.vars)) ==
            Applied(t, Recorded(before, RangeTail(w, n, v, x, done, iterated)))
  {
    var more := Untaken(w, n, v, x, done.vars, iterated);
    AppliedAlso(t, Recorded(before, done), more);
    AlsoRecorded(before, done, more);
  }
}
