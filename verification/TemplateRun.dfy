/** tpl/exec.go and prov.go: what the executor does, as a function of the variable stack: how it stops, the stack it
    leaves, what it writes and what it records. */
module TemplateRun {
  import opened Template

  /** The templates, the evaluator, and whether untaken arms are executed too. */
  datatype World = World(host: Host, templates: map<string, Block>, branches: bool)

  /** Where an execution stands: the dot, the depth of templates, the untaken arms around it, and -- when its output is
      counted -- how much of the file has been written. */
  datatype Place = Place(dot: Value, depth: nat, guards: seq<string>, counting: bool, at: nat)

  /** The end of an execution: at its last node, by a break or continue on its way to a range, or by an error. */
  datatype Stop = Normal | Breaking | Continuing | Failing(message: string)

  datatype Run = Run(stop: Stop, vars: seq<Variable>, text: string, spans: seq<Span>, record: Record)

  function Halt(stop: Stop, vars: seq<Variable>): Run { Run(stop, vars, "", [], EMPTY) }

  /** What `r` wrote and recorded, then what `next` did from there. */
  function After(r: Run, next: Run): Run {
    Run(next.stop, next.vars, r.text + next.text, r.spans + next.spans, Join(r.record, next.record))
  }

  function Also(r: Run, more: Record): Run { r.(record := Join(r.record, more)) }

  function Recorded(more: Record, r: Run): Run { r.(record := Join(more, r.record)) }

  /** Dropping the variables above the mark. */
  function Popped(r: Run, mark: nat): Run
    requires mark <= |r.vars|
  {
    r.(vars := r.vars[..mark])
  }

  // ----- pipelines -----

  datatype Piped = Piped(vars: seq<Variable>, chains: seq<Chain>, result: Outcome)

  /** Declaring or assigning each variable of a pipeline in turn. */
  function Bind(vars: seq<Variable>, names: seq<string>, assign: bool, v: Value): (r: (seq<Variable>, bool))
    ensures |r.0| >= |vars| && (r.1 && !assign ==> |r.0| == |vars| + |names|) && (assign ==> |r.0| == |vars|)
    decreases |names|
  {
    if names == [] then (vars, true)
    else if assign then
      var i := LastIndex(vars, names[0]);
      if i < 0 then (vars, false) else Bind(vars[i := Variable(names[0], v)], names[1..], assign, v)
    else Bind(vars + [Variable(names[0], v)], names[1..], assign, v)
  }

  /** `evalPipeline` */
  function Pipeline(w: World, p: Pipe, dot: Value, vars: seq<Variable>): (r: Piped)
    ensures |r.vars| >= |vars|
    ensures r.result.Yields? && !p.assign ==> |r.vars| == |vars| + |p.decl|
  {
    var e := w.host.eval(p.expr, dot, Visible(vars));
    match e.result
    case Fails(message) => Piped(vars, e.chains, Fails(message))
    case Yields(v) =>
      var (now, ok) := Bind(vars, p.decl, p.assign, v);
      Piped(now, e.chains, if ok then Yields(v) else Fails("undefined variable"))
  }

  function ReadRecord(cs: seq<Chain>, guards: seq<string>): Record {
    Record(MarkReads(cs, guards), [], [])
  }

  // ----- exploring -----

  function ArmRecord(w: World, x: Place, loc: string, kind: string, p: Pipe, taken: string, hasElse: bool,
      v: Value): Record {
    if w.branches then Record([], [Arm(loc, kind, p.text, taken, hasElse, w.host.describe(v), x.guards != [])], [])
        else EMPTY
  }

  predicate Explores(w: World, x: Place, guard: string) {
    w.branches && |x.guards| < MAX_GUARDS && guard !in x.guards
  }

  /** Where an untaken arm runs: inside its guard, writing to a buffer of its own. */
  function Inside(x: Place, dot: Value, guard: string): Place {
    Place(dot, x.depth, x.guards + [guard], false, 0)
  }

  function ExploredBy(guard: string, r: Run): Record {
    Record([], [], [Explored(guard, Clean(r.text, 0), if r.stop.Failing? then Some(r.stop.message) else None)])
  }

  /** `explore`: what executing an arm not taken adds to the record. */
  function ExploreBlock(w: World, x: Place, guard: string, dot: Value, list: Block, vars: seq<Variable>): Record
    requires Guarded(x.guards) && x.depth <= MAX_DEPTH
    decreases MAX_DEPTH - x.depth, list, 1
  {
    if Explores(w, x, guard) then
      var r := RunBlock(w, list, Inside(x, dot, guard), vars);
      Join(r.record, ExploredBy(guard, r))
    else EMPTY
  }

  function Explore(w: World, x: Place, guard: string, dot: Value, list: Option<Block>, vars: seq<Variable>): Record
    requires Guarded(x.guards) && x.depth <= MAX_DEPTH
    decreases MAX_DEPTH - x.depth, list
  {
    if list.Some? then ExploreBlock(w, x, guard, dot, list.value, vars) else EMPTY
  }

  // ----- nodes -----

  /** The nodes of a list, each from where the one before left off. */
  function RunBlock(w: World, b: Block, x: Place, vars: seq<Variable>): (r: Run)
    requires Guarded(x.guards) && x.depth <= MAX_DEPTH
    ensures |r.vars| >= |vars|
    decreases MAX_DEPTH - x.depth, b, 0
  {
    match b
    case Nil => Halt(Normal, vars)
    case Cons(n, rest) =>
      var r := RunNode(w, n, x, vars);
      if r.stop.Normal? then After(r, RunBlock(w, rest, x.(at := x.at + |r.text|), r.vars)) else r
  }

  function RunNode(w: World, n: Node, x: Place, vars: seq<Variable>): (r: Run)
    requires Guarded(x.guards) && x.depth <= MAX_DEPTH
    ensures |r.vars| >= |vars|
    ensures n.If? || n.With? || n.Range? ==> |r.vars| == |vars|
    ensures n.Range? ==> !r.stop.Breaking?
    decreases MAX_DEPTH - x.depth, n, 4
  {
    match n
    case Text(loc, text) =>
      Run(Normal, vars, text, if x.counting then [Span(x.at, x.at + |text|, loc, "text", [])] else [], EMPTY)
    case Comment => Halt(Normal, vars)
    case Break(_) => Halt(Breaking, vars)
    case Continue(_) => Halt(Continuing, vars)
    case Action(loc, p) => RunAction(w, loc, p, x, vars)
    case If(_, _, _, _) => RunChoice(w, n, x, vars)
    case With(_, _, _, _) => RunChoice(w, n, x, vars)
    case Range(_, _, _, _) => RunRange(w, n, x, vars)
    case Call(_, _, _) => RunCall(w, n, x, vars)
  }

  function Truth(w: World, o: Outcome): (t: Option<bool>)
    ensures t.Some? ==> o.Yields?
  {
    match o case Fails(_) => None case Yields(v) => w.host.truth(v)
  }

  function Complaint(o: Outcome): string {
    match o case Fails(message) => message case Yields(_) => "if/with can't use the value"
  }

  function RunAction(w: World, loc: string, p: Pipe, x: Place, vars: seq<Variable>): (r: Run)
    ensures |r.vars| >= |vars|
  {
    var e := Pipeline(w, p, x.dot, vars);
    var record := ReadRecord(e.chains, x.guards);
    match e.result
    case Fails(message) => Run(Failing(message), e.vars, "", [], record)
    case Yields(v) =>
      var shown := if p.decl == [] then w.host.show(v) else Some("");
      match shown
      case None => Run(Failing("can't print the value"), e.vars, "", [], record)
      case Some(text) =>
        Run(Normal, e.vars, text, if x.counting then [Span(x.at, x.at + |text|, loc, "action", Paths(e.chains))]
            else [], record)
  }

  /** `walkIfOrWith`: the arm the condition picks, inside a mark of the stack. */
  function RunChoice(w: World, n: Node, x: Place, vars: seq<Variable>): (r: Run)
    requires (n.If? || n.With?) && Guarded(x.guards) && x.depth <= MAX_DEPTH
    ensures |r.vars| == |vars|
    decreases MAX_DEPTH - x.depth, n, 1
  {
    var e := Pipeline(w, n.pipe, x.dot, vars);
    var r := match Truth(w, e.result)
      case None => Halt(Failing(Complaint(e.result)), e.vars)
      case Some(true) => TakeThen(w, n, e.result.value, x, e.vars)
      case Some(false) => TakeElse(w, n, e.result.value, x, e.vars);
    Recorded(ReadRecord(e.chains, x.guards), Popped(r, |vars|))
  }

  function Kind(n: Node): string {
    if n.If? then "if" else if n.With? then "with" else "range"
  }

  /** What the arm of a `with` sees. */
  function DotIn(n: Node, x: Place, v: Value): Value {
    if n.With? then v else x.dot
  }

  /** The then-arm, and afterwards the else-arm explored. */
  function TakeThen(w: World, n: Node, v: Value, x: Place, vars: seq<Variable>): (r: Run)
    requires (n.If? || n.With?) && Guarded(x.guards) && x.depth <= MAX_DEPTH
    ensures |r.vars| >= |vars|
    decreases MAX_DEPTH - x.depth, n, 0
  {
    var r := RunBlock(w, n.list, x.(dot := DotIn(n, x, v)), vars);
    var arm := ArmRecord(w, x, n.loc, Kind(n), n.pipe, "then", n.elseList.Some?, v);
    Recorded(arm, if r.stop.Normal?
        then Also(r, Explore(w, x, Guard(n.loc, Kind(n), n.pipe, "else"), x.dot, n.elseList, r.vars)) else r)
  }

  /** The else-arm if there is one, and afterwards the then-arm explored; a `with` body sees the value it tested. */
  function TakeElse(w: World, n: Node, v: Value, x: Place, vars: seq<Variable>): (r: Run)
    requires (n.If? || n.With?) && Guarded(x.guards) && x.depth <= MAX_DEPTH
    ensures |r.vars| >= |vars|
    decreases MAX_DEPTH - x.depth, n, 0
  {
    var r := if n.elseList.Some? then RunBlock(w, n.elseList.value, x, vars) else Halt(Normal, vars);
    var arm := ArmRecord(w, x, n.loc, Kind(n), n.pipe,
        if n.elseList.Some? then "else" else "none", n.elseList.Some?, v);
    Recorded(arm, if r.stop.Normal?
        then Also(r, ExploreBlock(w, x, Guard(n.loc, Kind(n), n.pipe, "then"), DotIn(n, x, v), n.list, r.vars)) else r)
  }

  // ----- range -----

  /** One iteration's variables: declared ones are on top of the stack, assigned ones wherever they are. */
  function SetLoop(p: Pipe, vars: seq<Variable>, index: Value, elem: Value): (r: (seq<Variable>, bool))
    requires !p.assign ==> |vars| >= |p.decl|
    ensures |r.0| == |vars|
  {
    if p.decl == [] then (vars, true)
    else if p.assign then
      var (one, ok) := Bind(vars, [p.decl[0]], true, if |p.decl| > 1 then index else elem);
      if ok && |p.decl| > 1 then Bind(one, [p.decl[1]], true, elem) else (one, ok)
    else
      var top := vars[|vars| - 1 := Variable(vars[|vars| - 1].name, elem)];
      (if |p.decl| > 1 then top[|top| - 2 := Variable(top[|top| - 2].name, index)] else top, true)
  }

  /** `oneIteration`: its variables, the body, and the stack back at the mark. */
  function RunIteration(w: World, n: Node, index: Value, elem: Value, x: Place, vars: seq<Variable>): (r: Run)
    requires n.Range? && Guarded(x.guards) && x.depth <= MAX_DEPTH && (!n.pipe.assign ==> |vars| >= |n.pipe.decl|)
    ensures |r.vars| == |vars|
    decreases MAX_DEPTH - x.depth, n, 0
  {
    var (set1, ok) := SetLoop(n.pipe, vars, index, elem);
    if ok then Popped(RunBlock(w, n.list, x.(dot := elem), set1), |vars|) else Halt(Failing("undefined variable"), set1)
  }

  /** The iterations over `items`; a continue ends one, anything else but the end stops them. */
  function Iterate(w: World, n: Node, items: seq<(Value, Value)>, x: Place, vars: seq<Variable>): (r: Run)
    requires n.Range? && Guarded(x.guards) && x.depth <= MAX_DEPTH && (!n.pipe.assign ==> |vars| >= |n.pipe.decl|)
    ensures |r.vars| == |vars|
    decreases MAX_DEPTH - x.depth, n, 1, |items|
  {
    if items == [] then Halt(Normal, vars)
    else
      var r := RunIteration(w, n, items[0].0, items[0].1, x, vars);
      if r.stop.Normal? || r.stop.Continuing?
          then After(r, Iterate(w, n, items[1..], x.(at := x.at + |r.text|), r.vars)) else r
  }

  /** `walkRange1`: the iterations or the else-arm, inside a mark of the stack; a break out of either ends here. */
  function RunItems(w: World, n: Node, v: Value, x: Place, vars: seq<Variable>): (r: (Run, bool))
    requires n.Range? && Guarded(x.guards) && x.depth <= MAX_DEPTH && (!n.pipe.assign ==> |vars| >= |n.pipe.decl|)
    ensures |r.0.vars| >= |vars| && !r.0.stop.Breaking?
    decreases MAX_DEPTH - x.depth, n, 2
  {
    match w.host.items(v, |n.pipe.decl|)
    case None => (Halt(Failing("range can't iterate over the value"), vars), false)
    case Some(items) =>
      if items != [] then (Caught(Iterate(w, n, items, x, vars)), true)
      else (if n.elseList.Some? then Caught(RunBlock(w, n.elseList.value, x, vars)) else Halt(Normal, vars), false)
  }

  function Caught(r: Run): Run {
    if r.stop.Breaking? then r.(stop := Normal) else r
  }

  /** The variables an unexecuted range body expects, bound to no value. */
  function Unbound(w: World, vars: seq<Variable>, names: seq<string>): (r: seq<Variable>)
    ensures |r| == |vars| + |names|
    decreases |names|
  {
    if names == [] then vars else Unbound(w, vars + [Variable(names[0], w.host.nothing)], names[1..])
  }

  /** `walkRange`: the range, and afterwards the arm it did not take explored. */
  function RunRange(w: World, n: Node, x: Place, vars: seq<Variable>): (r: Run)
    requires n.Range? && Guarded(x.guards) && x.depth <= MAX_DEPTH
    ensures |r.vars| == |vars| && !r.stop.Breaking?
    decreases MAX_DEPTH - x.depth, n, 3
  {
    var e := Pipeline(w, n.pipe, x.dot, vars);
    var before := ReadRecord(e.chains, x.guards);
    match e.result
    case Fails(message) => Recorded(before, Halt(Failing(message), e.vars[..|vars|]))
    case Yields(v) =>
      var (r, iterated) := RunItems(w, n, v, x, e.vars);
      Recorded(before, RangeTail(w, n, v, x, Popped(r, |vars|), iterated))
  }

  /** After the range: the else-arm explored when it iterated, the body when there was nothing to iterate over. */
  function RangeTail(w: World, n: Node, v: Value, x: Place, done: Run, iterated: bool): (r: Run)
    requires n.Range? && Guarded(x.guards) && x.depth <= MAX_DEPTH
    ensures r.vars == done.vars && r.stop == done.stop
    decreases MAX_DEPTH - x.depth, n, 1
  {
    if !done.stop.Normal? then done
    else if iterated then
      Also(done, Join(ArmRecord(w, x, n.loc, "range", n.pipe, "body", n.elseList.Some?, v),
                      Explore(w, x, Guard(n.loc, "range", n.pipe, "else"), x.dot, n.elseList, done.vars)))
    else
      Also(done, Join(ArmRecord(w, x, n.loc, "range", n.pipe, "empty", n.elseList.Some?, v),
                      ExploreBlock(w, x, Guard(n.loc, "range", n.pipe, "body"), w.host.nothing, n.list,
                          Unbound(w, done.vars, n.pipe.decl))))
  }

  // ----- templates -----

  /** `walkTemplate`: the named template with a stack of its own, writing on where the caller stands. */
  function RunCall(w: World, n: Node, x: Place, vars: seq<Variable>): (r: Run)
    requires n.Call? && Guarded(x.guards) && x.depth <= MAX_DEPTH
    ensures |r.vars| >= |vars|
    decreases MAX_DEPTH - x.depth, n, 0
  {
    if n.name !in w.templates then Halt(Failing("template not defined"), vars)
    else if x.depth == MAX_DEPTH then Halt(Failing("exceeded maximum template depth"), vars)
    else
      var e := if n.arg.Some? then Pipeline(w, n.arg.value, x.dot, vars) else Piped(vars, [], Yields(w.host.nothing));
      var before := ReadRecord(e.chains, x.guards);
      match e.result
      case Fails(message) => Recorded(before, Halt(Failing(message), e.vars))
      case Yields(v) =>
        var r := RunBlock(w, w.templates[n.name], x.(dot := v, depth := x.depth + 1), [Variable("$", v)]);
        Recorded(before, r.(vars := e.vars))
  }

  // ----- a render -----

  /** A top-level execution of a template: from nothing, nothing explored around it, its output counted. */
  function Render(w: World, root: Block, data: Value): Run {
    RunBlock(w, root, Place(data, 0, [], true, 0), [Variable("$", data)])
  }

  /** An iteration and the ones after it, unless it broke off. */
  function ThenMore(w: World, n: Node, items: seq<(Value, Value)>, x: Place, r: Run): Run
    requires n.Range? && Guarded(x.guards) && x.depth <= MAX_DEPTH && (!n.pipe.assign ==> |r.vars| >= |n.pipe.decl|)
  {
    if r.stop.Normal? || r.stop.Continuing?
    then After(r, Iterate(w, n, items, x.(at := x.at + |r.text|), r.vars))
    else r
  }

  lemma {:induction false} IterateStep(w: World, n: Node, items: seq<(Value, Value)>, x: Place, vars: seq<Variable>)
    requires n.Range? && Guarded(x.guards) && x.depth <= MAX_DEPTH && (!n.pipe.assign ==> |vars| >= |n.pipe.decl|)
    requires items != []
    ensures
      var r := RunIteration(w, n, items[0].0, items[0].1, x, vars);
      Iterate(w, n, items, x, vars) == ThenMore(w, n, items[1..], x, r)
  {}

  /** Without exploration nothing is explored and no arm is recorded. */
  lemma {:induction false} NoExploring(w: World, x: Place, guard: string, dot: Value, list: Option<Block>,
      vars: seq<Variable>)
    requires !w.branches && Guarded(x.guards) && x.depth <= MAX_DEPTH
    ensures Explore(w, x, guard, dot, list, vars) == EMPTY
    ensures list.Some? ==> ExploreBlock(w, x, guard, dot, list.value, vars) == EMPTY
  {}
}
