/** The push-down stack of variables implements lexical scoping: an interpreter that passes immutable environments gives
    the same render. */
module TemplateScope {
  import opened Template
  import opened TemplateRun
  import opened TemplateInvisible

  // ----- the interpreter with environments -----

  /** Names to addresses; addresses to values. An environment is never undone: the one before is simply used again. */
  type Env = map<string, nat>

  datatype Meaning = Meaning(stop: Stop, env: Env, store: seq<Value>, text: string, spans: seq<Span>, log: seq<Read>)

  ghost predicate Closed(env: Env, store: seq<Value>) {
    forall name | name in env :: env[name] < |store|
  }

  function View(env: Env, store: seq<Value>): map<string, Value>
    requires Closed(env, store)
  {
    map name | name in env :: store[env[name]]
  }

  function Declare(env: Env, store: seq<Value>, name: string, v: Value): (Env, seq<Value>) {
    (env[name := |store|], store + [v])
  }

  function LexBind(env: Env, store: seq<Value>, names: seq<string>, assign: bool,
      v: Value): (r: (Env, seq<Value>, bool))
    requires Closed(env, store)
    ensures Closed(r.0, r.1) && |r.1| >= |store| && (r.2 && !assign ==> |r.1| == |store| + |names|)
    ensures assign ==> r.0 == env && |r.1| == |store|
    decreases |names|
  {
    if names == [] then (env, store, true)
    else if assign then
      if names[0] in env then LexBind(env, store[env[names[0]] := v], names[1..], assign, v) else (env, store, false)
    else
      var (e, s) := Declare(env, store, names[0], v);
      LexBind(e, s, names[1..], assign, v)
  }

  datatype LexPiped = LexPiped(env: Env, store: seq<Value>, chains: seq<Chain>, result: Outcome)

  function LexPipeline(w: World, p: Pipe, dot: Value, env: Env, store: seq<Value>): (r: LexPiped)
    requires Closed(env, store)
    ensures Closed(r.env, r.store) && |r.store| >= |store|
    ensures r.result.Yields? && !p.assign ==> |r.store| == |store| + |p.decl|
  {
    var e := w.host.eval(p.expr, dot, View(env, store));
    match e.result
    case Fails(message) => LexPiped(env, store, e.chains, Fails(message))
    case Yields(v) =>
      var (env1, store1, ok) := LexBind(env, store, p.decl, p.assign, v);
      LexPiped(env1, store1, e.chains, if ok then Yields(v) else Fails("undefined variable"))
  }

  function Quit(stop: Stop, env: Env, store: seq<Value>): Meaning { Meaning(stop, env, store, "", [], []) }

  function Following(r: Meaning, next: Meaning): Meaning {
    Meaning(next.stop, next.env, next.store, r.text + next.text, r.spans + next.spans, r.log + next.log)
  }

  function Logged(log: seq<Read>, r: Meaning): Meaning { r.(log := log + r.log) }

  function LexBlock(w: World, b: Block, x: Place, env: Env, store: seq<Value>): (r: Meaning)
    requires Closed(env, store) && x.depth <= MAX_DEPTH
    ensures Closed(r.env, r.store) && |r.store| >= |store|
    decreases MAX_DEPTH - x.depth, b, 0
  {
    match b
    case Nil => Quit(Normal, env, store)
    case Cons(n, rest) =>
      var r := LexNode(w, n, x, env, store);
      if r.stop.Normal? then Following(r, LexBlock(w, rest, x.(at := x.at + |r.text|), r.env, r.store)) else r
  }

  function LexNode(w: World, n: Node, x: Place, env: Env, store: seq<Value>): (r: Meaning)
    requires Closed(env, store) && x.depth <= MAX_DEPTH
    ensures Closed(r.env, r.store) && |r.store| >= |store|
    decreases MAX_DEPTH - x.depth, n, 4
  {
    match n
    case Text(loc, text) =>
      Meaning(Normal, env, store, text, if x.counting then [Span(x.at, x.at + |text|, loc, "text", [])] else [], [])
    case Comment => Quit(Normal, env, store)
    case Break(_) => Quit(Breaking, env, store)
    case Continue(_) => Quit(Continuing, env, store)
    case Action(loc, p) => LexAction(w, loc, p, x, env, store)
    case If(_, _, _, _) => LexChoice(w, n, x, env, store)
    case With(_, _, _, _) => LexChoice(w, n, x, env, store)
    case Range(_, _, _, _) => LexRange(w, n, x, env, store)
    case Call(_, _, _) => LexCall(w, n, x, env, store)
  }

  function LexAction(w: World, loc: string, p: Pipe, x: Place, env: Env, store: seq<Value>): (r: Meaning)
    requires Closed(env, store)
    ensures Closed(r.env, r.store) && |r.store| >= |store|
  {
    var e := LexPipeline(w, p, x.dot, env, store);
    var log := MarkReads(e.chains, x.guards);
    match e.result
    case Fails(message) => Meaning(Failing(message), e.env, e.store, "", [], log)
    case Yields(v) =>
      match if p.decl == [] then w.host.show(v) else Some("")
      case None => Meaning(Failing("can't print the value"), e.env, e.store, "", [], log)
      case Some(text) =>
        Meaning(Normal, e.env, e.store, text, if x.counting
            then [Span(x.at, x.at + |text|, loc, "action", Paths(e.chains))] else [], log)
  }

  /** The arm sees the condition's declarations; after it the environment is the one before. */
  function LexChoice(w: World, n: Node, x: Place, env: Env, store: seq<Value>): (r: Meaning)
    requires (n.If? || n.With?) && Closed(env, store) && x.depth <= MAX_DEPTH
    ensures r.env == env && Closed(r.env, r.store) && |r.store| >= |store|
    decreases MAX_DEPTH - x.depth, n, 1
  {
    var e := LexPipeline(w, n.pipe, x.dot, env, store);
    var r := match Truth(w, e.result)
      case None => Quit(Failing(Complaint(e.result)), e.env, e.store)
      case Some(true) => LexBlock(w, n.list, x.(dot := if n.With? then e.result.value else x.dot), e.env, e.store)
      case Some(false) => if n.elseList.Some? then LexBlock(w, n.elseList.value, x, e.env, e.store)
          else Quit(Normal, e.env, e.store);
    Logged(MarkReads(e.chains, x.guards), r.(env := env))
  }

  /** The loop variables of one iteration; declared ones are the last allocated before the loop. */
  function LexLoop(p: Pipe, env: Env, store: seq<Value>, top: nat, index: Value, elem: Value): (r: (seq<Value>, bool))
    requires Closed(env, store) && (!p.assign ==> |p.decl| <= top <= |store|)
    ensures |r.0| == |store|
  {
    if p.decl == [] then (store, true)
    else if p.assign then
      var (_, one, ok) := LexBind(env, store, [p.decl[0]], true, if |p.decl| > 1 then index else elem);
      if ok && |p.decl| > 1 then var (_, two, ok2) := LexBind(env, one, [p.decl[1]], true, elem);
          (two, ok2) else (one, ok)
    else
      var one := store[top - 1 := elem];
      (if |p.decl| > 1 then one[top - 2 := index] else one, true)
  }

  function LexIteration(w: World, n: Node, index: Value, elem: Value, x: Place, env: Env, store: seq<Value>,
      top: nat): (r: Meaning)
    requires n.Range? && x.depth <= MAX_DEPTH && Closed(env, store)
    requires !n.pipe.assign ==> |n.pipe.decl| <= top <= |store|
    ensures r.env == env && Closed(r.env, r.store) && |r.store| >= |store|
    decreases MAX_DEPTH - x.depth, n, 0
  {
    var (store1, ok) := LexLoop(n.pipe, env, store, top, index, elem);
    if ok then LexBlock(w, n.list, x.(dot := elem), env, store1).(env := env)
        else Quit(Failing("undefined variable"), env, store1)
  }

  function LexIterate(w: World, n: Node, items: seq<(Value, Value)>, x: Place, env: Env, store: seq<Value>,
      top: nat): (r: Meaning)
    requires n.Range? && x.depth <= MAX_DEPTH && Closed(env, store)
    requires !n.pipe.assign ==> |n.pipe.decl| <= top <= |store|
    ensures r.env == env && Closed(r.env, r.store) && |r.store| >= |store|
    decreases MAX_DEPTH - x.depth, n, 1, |items|
  {
    if items == [] then Quit(Normal, env, store)
    else
      var r := LexIteration(w, n, items[0].0, items[0].1, x, env, store, top);
      if r.stop.Normal? || r.stop.Continuing?
      then Following(r, LexIterate(w, n, items[1..], x.(at := x.at + |r.text|), env, r.store, top)) else r
  }

  function LexItems(w: World, n: Node, v: Value, x: Place, env: Env, store: seq<Value>): (r: Meaning)
    requires n.Range? && x.depth <= MAX_DEPTH && Closed(env, store) && (!n.pipe.assign ==> |n.pipe.decl| <= |store|)
    ensures Closed(r.env, r.store) && |r.store| >= |store|
    decreases MAX_DEPTH - x.depth, n, 2
  {
    match w.host.items(v, |n.pipe.decl|)
    case None => Quit(Failing("range can't iterate over the value"), env, store)
    case Some(items) =>
      var r := if items != [] then LexIterate(w, n, items, x, env, store, |store|)
               else if n.elseList.Some? then LexBlock(w, n.elseList.value, x, env, store) else Quit(Normal, env, store);
      if r.stop.Breaking? then r.(stop := Normal) else r
  }

  function LexRange(w: World, n: Node, x: Place, env: Env, store: seq<Value>): (r: Meaning)
    requires n.Range? && Closed(env, store) && x.depth <= MAX_DEPTH
    ensures r.env == env && Closed(r.env, r.store) && |r.store| >= |store|
    decreases MAX_DEPTH - x.depth, n, 3
  {
    var e := LexPipeline(w, n.pipe, x.dot, env, store);
    var r := match e.result
      case Fails(message) => Quit(Failing(message), e.env, e.store)
      case Yields(v) => LexItems(w, n, v, x, e.env, e.store);
    Logged(MarkReads(e.chains, x.guards), r.(env := env))
  }

  /** A template sees nothing of its caller but the dot. */
  function LexCall(w: World, n: Node, x: Place, env: Env, store: seq<Value>): (r: Meaning)
    requires n.Call? && Closed(env, store) && x.depth <= MAX_DEPTH
    ensures Closed(r.env, r.store) && |r.store| >= |store|
    decreases MAX_DEPTH - x.depth, n, 0
  {
    if n.name !in w.templates then Quit(Failing("template not defined"), env, store)
    else if x.depth == MAX_DEPTH then Quit(Failing("exceeded maximum template depth"), env, store)
    else
      var e := if n.arg.Some? then LexPipeline(w, n.arg.value, x.dot, env, store)
          else LexPiped(env, store, [], Yields(w.host.nothing));
      var r := match e.result
        case Fails(message) => Quit(Failing(message), e.env, e.store)
        case Yields(v) => LexBlock(w, w.templates[n.name], x.(dot := v, depth := x.depth + 1), map["$" := 0],
            [v]).(env := e.env, store := e.store);
      Logged(MarkReads(e.chains, x.guards), r)
  }

  function LexRender(w: World, root: Block, data: Value): Meaning {
    LexBlock(w, root, Place(data, 0, [], true, 0), map["$" := 0], [data])
  }

  // ----- the stack and the environment -----

  /** The last variable of each name, by address. */
  function EnvOf(vars: seq<Variable>, addr: seq<nat>): Env
    requires |vars| == |addr|
  {
    if vars == [] then map[]
    else EnvOf(vars[..|vars| - 1], addr[..|addr| - 1])[vars[|vars| - 1].name := addr[|addr| - 1]]
  }

  /** Variable `i` of the stack lives at address `addr[i]`, each at its own. */
  ghost predicate Stored(vars: seq<Variable>, store: seq<Value>, addr: seq<nat>) {
    && |addr| == |vars|
    && (forall i | 0 <= i < |vars| :: addr[i] < |store| && store[addr[i]] == vars[i].value)
    && (forall i, j | 0 <= i < j < |addr| :: addr[i] != addr[j])
  }

  /** The stack and the environment give every name the same variable. */
  ghost predicate Related(vars: seq<Variable>, env: Env, store: seq<Value>, addr: seq<nat>) {
    Stored(vars, store, addr) && env == EnvOf(vars, addr) && Closed(env, store)
  }

  lemma {:induction false} EnvAt(vars: seq<Variable>, addr: seq<nat>, name: string)
    requires |vars| == |addr|
    ensures name in EnvOf(vars, addr) <==> LastIndex(vars, name) >= 0
    ensures name in EnvOf(vars, addr) ==> EnvOf(vars, addr)[name] == addr[LastIndex(vars, name)]
  {
    if vars != [] { EnvAt(vars[..|vars| - 1], addr[..|addr| - 1], name); }
  }

  lemma {:induction false} EnvByNames(a: seq<Variable>, b: seq<Variable>, addr: seq<nat>)
    requires |a| == |b| == |addr| && forall i | 0 <= i < |a| :: a[i].name == b[i].name
    ensures EnvOf(a, addr) == EnvOf(b, addr)
  {
    if a != [] { EnvByNames(a[..|a| - 1], b[..|b| - 1], addr[..|addr| - 1]); }
  }

  lemma {:induction false} SameView(vars: seq<Variable>, env: Env, store: seq<Value>, addr: seq<nat>)
    requires Related(vars, env, store, addr)
    ensures View(env, store) == Visible(vars)
  {
    forall name: string
      ensures name in View(env, store) <==> name in Visible(vars)
      ensures name in View(env, store) ==> View(env, store)[name] == Visible(vars)[name]
    {
      EnvAt(vars, addr, name);
    }
  }

  /** The later stack has the earlier one's variables, at the same addresses and by the same names, below its own. */
  ghost predicate Extends(vars: seq<Variable>, addr: seq<nat>, later: seq<Variable>, lateraddr: seq<nat>) {
    && |vars| == |addr| <= |later| == |lateraddr| && lateraddr[..|addr|] == addr
    && (forall i | 0 <= i < |vars| :: later[i].name == vars[i].name)
  }

  /** Dropping what was pushed since brings the environment back. */
  lemma {:induction false} RelatedPop(vars: seq<Variable>, env: Env, store: seq<Value>, addr: seq<nat>,
      later: seq<Variable>, env1: Env, store1: seq<Value>, addr1: seq<nat>)
    requires Related(vars, env, store, addr) && Related(later, env1, store1, addr1) && Extends(vars, addr, later, addr1)
    requires |store| <= |store1|
    ensures Related(later[..|vars|], env, store1, addr)
  {
    EnvByNames(later[..|vars|], vars, addr);
    assert forall i | 0 <= i < |addr| :: addr[i] == addr1[i];
  }

  /** The new addresses are the ones allocated in turn. */
  ghost predicate Fresh(addr: seq<nat>, addr1: seq<nat>, base: nat) {
    |addr| <= |addr1| && forall i | |addr| <= i < |addr1| :: addr1[i] == base + (i - |addr|)
  }

  lemma {:induction false} DeclaresRelated(vars: seq<Variable>, env: Env, store: seq<Value>, addr: seq<nat>,
      names: seq<string>, v: Value) returns (addr1: seq<nat>)
    requires Related(vars, env, store, addr)
    ensures var (vars1, ok) := Bind(vars, names, false, v);
        var (env1, store1, ok1) := LexBind(env, store, names, false, v);
            ok && ok1 && Related(vars1, env1, store1, addr1) && Extends(vars, addr, vars1, addr1)
    ensures Fresh(addr, addr1, |store|)
    decreases |names|
  {
    addr1 := addr;
    if names != [] {
      DeclareRelated(vars, env, store, addr, names[0], v);
      var (e, s) := Declare(env, store, names[0], v);
      addr1 := DeclaresRelated(vars + [Variable(names[0], v)], e, s, addr + [|store|], names[1..], v);
      ExtendsMore(vars, addr, Variable(names[0], v), |store|, Bind(vars, names, false, v).0, addr1);
    }
  }

  lemma {:induction false} ExtendsMore(vars: seq<Variable>, addr: seq<nat>, v: Variable, a: nat, later: seq<Variable>,
      addr1: seq<nat>)
    requires Extends(vars + [v], addr + [a], later, addr1) && |vars| == |addr| && Fresh(addr + [a], addr1, a + 1)
    ensures Extends(vars, addr, later, addr1) && Fresh(addr, addr1, a)
  {
    assert addr1[..|addr|] == addr1[..|addr| + 1][..|addr|] == addr;
    assert addr1[|addr|] == addr1[..|addr| + 1][|addr|];
    assert forall i | 0 <= i < |vars| :: (vars + [v])[i] == vars[i];
  }

  lemma {:induction false} AssignsRelated(vars: seq<Variable>, env: Env, store: seq<Value>, addr: seq<nat>,
      names: seq<string>, v: Value)
    requires Related(vars, env, store, addr)
    ensures var (vars1, ok) := Bind(vars, names, true, v);
        var (env1, store1, ok1) := LexBind(env, store, names, true, v);
            ok == ok1 && env1 == env && Related(vars1, env1, store1, addr) && Extends(vars, addr, vars1, addr)
    decreases |names|
  {
    if names != [] {
      var i := LastIndex(vars, names[0]);
      EnvAt(vars, addr, names[0]);
      if i >= 0 {
        var later := SetOne(vars, env, store, addr, i, v);
        AssignsRelated(later, env, store[env[names[0]] := v], addr, names[1..], v);
        ExtendsTrans(vars, addr, later, addr, Bind(later, names[1..], true, v).0, addr);
      }
    }
  }

  lemma {:induction false} SetOne(vars: seq<Variable>, env: Env, store: seq<Value>, addr: seq<nat>, i: nat, v: Value)
      returns (later: seq<Variable>)
    requires Related(vars, env, store, addr) && i < |vars|
    ensures later == vars[i := Variable(vars[i].name, v)]
    ensures Related(later, env, store[addr[i] := v], addr) && Extends(vars, addr, later, addr)
  {
    later := vars[i := Variable(vars[i].name, v)];
    EnvByNames(later, vars, addr);
  }

  lemma {:induction false} DeclareRelated(vars: seq<Variable>, env: Env, store: seq<Value>, addr: seq<nat>,
      name: string, v: Value)
    requires Related(vars, env, store, addr)
    ensures Related(vars + [Variable(name, v)], env[name := |store|], store + [v], addr + [|store|])
  {
    assert (vars + [Variable(name, v)])[..|vars|] == vars && (addr + [|store|])[..|addr|] == addr;
  }

  lemma {:induction false} PipelineRelated(w: World, p: Pipe, dot: Value, vars: seq<Variable>, env: Env,
      store: seq<Value>, addr: seq<nat>) returns (addr1: seq<nat>)
    requires Related(vars, env, store, addr)
    ensures var e := Pipeline(w, p, dot, vars); var l := LexPipeline(w, p, dot, env, store);
            && e.chains == l.chains && e.result == l.result && Related(e.vars, l.env, l.store, addr1)
                && Extends(vars, addr, e.vars, addr1)
            && (e.result.Yields? && !p.assign ==> Fresh(addr, addr1, |store|) && |addr1| == |addr| + |p.decl|)
  {
    SameView(vars, env, store, addr);
    addr1 := addr;
    var e := w.host.eval(p.expr, dot, Visible(vars));
    if e.result.Yields? {
      if p.assign {
        AssignsRelated(vars, env, store, addr, p.decl, e.result.value);
      } else {
        addr1 := DeclaresRelated(vars, env, store, addr, p.decl, e.result.value);
      }
    }
  }

  // ----- the two runs side by side -----

  /** The same stop, text, spans and reads; the stacks and environments still correspond. */
  ghost predicate Agrees(r: Run, l: Meaning, vars: seq<Variable>, addr: seq<nat>, addr1: seq<nat>) {
    && r.stop == l.stop && r.text == l.text && r.spans == l.spans && r.record.log == l.log
    && Related(r.vars, l.env, l.store, addr1) && Extends(vars, addr, r.vars, addr1)
  }

  lemma {:induction false} ExtendsTrans(a: seq<Variable>, aa: seq<nat>, b: seq<Variable>, ba: seq<nat>,
      c: seq<Variable>, ca: seq<nat>)
    requires Extends(a, aa, b, ba) && Extends(b, ba, c, ca)
    ensures Extends(a, aa, c, ca)
  {
    assert ca[..|aa|] == ca[..|ba|][..|aa|];
  }

  lemma {:induction false} AgreesAfter(r: Run, l: Meaning, s: Run, m: Meaning, vars: seq<Variable>, addr: seq<nat>,
      mid: seq<nat>, end: seq<nat>)
    requires Agrees(r, l, vars, addr, mid) && Agrees(s, m, r.vars, mid, end)
    ensures Agrees(After(r, s), Following(l, m), vars, addr, end)
  {
    ExtendsTrans(vars, addr, r.vars, mid, s.vars, end);
  }

  lemma {:induction false} AgreesSame(r: Run, l: Meaning, s: Run, vars: seq<Variable>, addr: seq<nat>, addr1: seq<nat>)
    requires Agrees(r, l, vars, addr, addr1) && SameRun(s, r)
    ensures Agrees(s, l, vars, addr, addr1)
  {}

  lemma {:induction false} Halted(stop: Stop, vars: seq<Variable>, env: Env, store: seq<Value>, addr: seq<nat>)
    requires Related(vars, env, store, addr)
    ensures Agrees(Halt(stop, vars), Quit(stop, env, store), vars, addr, addr)
  {}

  lemma {:induction false} ActionScoped(w: World, loc: string, p: Pipe, x: Place, vars: seq<Variable>, env: Env,
      store: seq<Value>, addr: seq<nat>) returns (addr1: seq<nat>)
    requires Related(vars, env, store, addr)
    ensures Agrees(RunAction(w, loc, p, x, vars), LexAction(w, loc, p, x, env, store), vars, addr, addr1)
  {
    addr1 := PipelineRelated(w, p, x.dot, vars, env, store, addr);
  }

  lemma {:induction false} BlockScoped(w: World, b: Block, x: Place, vars: seq<Variable>, env: Env, store: seq<Value>,
      addr: seq<nat>) returns (addr1: seq<nat>)
    requires !w.branches && Guarded(x.guards) && x.depth <= MAX_DEPTH && Related(vars, env, store, addr)
    ensures Agrees(RunBlock(w, b, x, vars), LexBlock(w, b, x, env, store), vars, addr, addr1)
    decreases MAX_DEPTH - x.depth, b, 1
  {
    match b
    case Nil =>
      addr1 := addr;
      Halted(Normal, vars, env, store, addr);
    case Cons(n, rest) =>
      addr1 := ConsScoped(w, n, rest, x, vars, env, store, addr);
      BlockStep(w, n, rest, x, vars);
      LexBlockStep(w, n, rest, x, env, store);
  }

  /** A node, and the rest from where it ended normally. */
  lemma {:induction false} ConsScoped(w: World, n: Node, rest: Block, x: Place, vars: seq<Variable>, env: Env,
                                      store: seq<Value>, addr: seq<nat>)
    returns (addr1: seq<nat>)
    requires !w.branches && Guarded(x.guards) && x.depth <= MAX_DEPTH && Related(vars, env, store, addr)
    ensures Agrees(ThenRest(w, rest, x, RunNode(w, n, x, vars)), ThenLexRest(w, rest, x, LexNode(w, n, x, env, store)),
                   vars, addr, addr1)
    decreases MAX_DEPTH - x.depth, Cons(n, rest), 0
  {
    var mid := NodeScoped(w, n, x, vars, env, store, addr);
    addr1 := RestScoped(w, rest, x, vars, addr, RunNode(w, n, x, vars), LexNode(w, n, x, env, store), mid);
  }

  lemma {:induction false} RestScoped(w: World, rest: Block, x: Place, vars: seq<Variable>, addr: seq<nat>,
                                      r: Run, l: Meaning, mid: seq<nat>)
    returns (addr1: seq<nat>)
    requires !w.branches && Guarded(x.guards) && x.depth <= MAX_DEPTH && Agrees(r, l, vars, addr, mid)
    ensures Agrees(ThenRest(w, rest, x, r), ThenLexRest(w, rest, x, l), vars, addr, addr1)
    decreases MAX_DEPTH - x.depth, rest, 2
  {
    addr1 := mid;
    if r.stop.Normal? {
      var y := x.(at := x.at + |r.text|);
      addr1 := BlockScoped(w, rest, y, r.vars, l.env, l.store, mid);
      AgreesAfter(r, l, RunBlock(w, rest, y, r.vars), LexBlock(w, rest, y, l.env, l.store), vars, addr, mid, addr1);
    }
  }

  function ThenRest(w: World, rest: Block, x: Place, r: Run): Run
    requires Guarded(x.guards) && x.depth <= MAX_DEPTH
  {
    if r.stop.Normal? then After(r, RunBlock(w, rest, x.(at := x.at + |r.text|), r.vars)) else r
  }

  function ThenLexRest(w: World, rest: Block, x: Place, l: Meaning): Meaning
    requires x.depth <= MAX_DEPTH && Closed(l.env, l.store)
  {
    if l.stop.Normal? then Following(l, LexBlock(w, rest, x.(at := x.at + |l.text|), l.env, l.store)) else l
  }

  /** Both interpreters on a list: the first node, and the rest from there if it ends normally. */
  lemma {:induction false} BlockStep(w: World, n: Node, rest: Block, x: Place, vars: seq<Variable>)
    requires Guarded(x.guards) && x.depth <= MAX_DEPTH
    ensures RunBlock(w, Cons(n, rest), x, vars) == ThenRest(w, rest, x, RunNode(w, n, x, vars))
  {}

  lemma {:induction false} LexBlockStep(w: World, n: Node, rest: Block, x: Place, env: Env, store: seq<Value>)
    requires x.depth <= MAX_DEPTH && Closed(env, store)
    ensures LexBlock(w, Cons(n, rest), x, env, store) == ThenLexRest(w, rest, x, LexNode(w, n, x, env, store))
  {}

  lemma {:induction false} NodeScoped(w: World, n: Node, x: Place, vars: seq<Variable>, env: Env, store: seq<Value>,
      addr: seq<nat>) returns (addr1: seq<nat>)
    requires !w.branches && Guarded(x.guards) && x.depth <= MAX_DEPTH && Related(vars, env, store, addr)
    ensures Agrees(RunNode(w, n, x, vars), LexNode(w, n, x, env, store), vars, addr, addr1)
    decreases MAX_DEPTH - x.depth, n, 4
  {
    addr1 := addr;
    match n
    case Text(_, _) => Halted(Normal, vars, env, store, addr);
    case Comment => Halted(Normal, vars, env, store, addr);
    case Break(_) => Halted(Breaking, vars, env, store, addr);
    case Continue(_) => Halted(Continuing, vars, env, store, addr);
    case Action(loc, p) => addr1 := ActionScoped(w, loc, p, x, vars, env, store, addr);
    case If(_, _, _, _) => ChoiceScoped(w, n, x, vars, env, store, addr);
    case With(_, _, _, _) => ChoiceScoped(w, n, x, vars, env, store, addr);
    case Range(_, _, _, _) => RangeScoped(w, n, x, vars, env, store, addr);
    case Call(_, _, _) => addr1 := CallScoped(w, n, x, vars, env, store, addr);
  }

  /** What follows the pipeline of a control node, popped back to the mark. */
  lemma {:induction false} PoppedAgrees(r: Run, l: Meaning, vars: seq<Variable>, env: Env, store: seq<Value>,
      addr: seq<nat>, mid: seq<Variable>, midaddr: seq<nat>, addr1: seq<nat>, before: Record)
    requires Related(vars, env, store, addr) && Extends(vars, addr, mid, midaddr) && Agrees(r, l, mid, midaddr, addr1)
    requires |store| <= |l.store|
    ensures Agrees(Recorded(before, Popped(r, |vars|)), Logged(before.log, l.(env := env)), vars, addr, addr)
  {
    ExtendsTrans(vars, addr, mid, midaddr, r.vars, addr1);
    RelatedPop(vars, env, store, addr, r.vars, l.env, l.store, addr1);
    assert r.vars[..|vars|][..|vars|] == r.vars[..|vars|];
  }

  lemma {:induction false} ChoiceScoped(w: World, n: Node, x: Place, vars: seq<Variable>, env: Env, store: seq<Value>,
      addr: seq<nat>)
    requires (n.If? || n.With?) && !w.branches && Guarded(x.guards) && x.depth <= MAX_DEPTH
    requires Related(vars, env, store, addr)
    ensures Agrees(RunChoice(w, n, x, vars), LexChoice(w, n, x, env, store), vars, addr, addr)
    decreases MAX_DEPTH - x.depth, n, 1
  {
    var mid := PipelineRelated(w, n.pipe, x.dot, vars, env, store, addr);
    var e, l := Pipeline(w, n.pipe, x.dot, vars), LexPipeline(w, n.pipe, x.dot, env, store);
    var before := ReadRecord(e.chains, x.guards);
    match Truth(w, e.result)
    case None =>
      PoppedAgrees(Halt(Failing(Complaint(e.result)), e.vars), Quit(Failing(Complaint(e.result)), l.env, l.store), vars,
          env, store, addr, e.vars, mid, mid, before);
    case Some(true) =>
      var y := x.(dot := DotIn(n, x, e.result.value));
      var end := BlockScoped(w, n.list, y, e.vars, l.env, l.store, mid);
      PlainThen(w, n, e.result.value, x, e.vars);
      PoppedAgrees(TakeThen(w, n, e.result.value, x, e.vars), LexBlock(w, n.list, y, l.env, l.store), vars, env, store,
          addr, e.vars, mid, end, before);
    case Some(false) =>
      var end := mid;
      if n.elseList.Some? { end := BlockScoped(w, n.elseList.value, x, e.vars, l.env, l.store, mid); }
      PlainElse(w, n, e.result.value, x, e.vars);
      PoppedAgrees(TakeElse(w, n, e.result.value, x, e.vars),
                   if n.elseList.Some? then LexBlock(w, n.elseList.value, x, l.env, l.store)
                       else Quit(Normal, l.env, l.store),
                   vars, env, store, addr, e.vars, mid, end, before);
  }

  /** Without exploration an arm is all there is. */
  lemma {:induction false} PlainThen(w: World, n: Node, v: Value, x: Place, vars: seq<Variable>)
    requires (n.If? || n.With?) && !w.branches && Guarded(x.guards) && x.depth <= MAX_DEPTH
    ensures var r := RunBlock(w, n.list, x.(dot := DotIn(n, x, v)), vars); SameRun(TakeThen(w, n, v, x, vars), r)
  {
    var r := RunBlock(w, n.list, x.(dot := DotIn(n, x, v)), vars);
    NoExploring(w, x, Guard(n.loc, Kind(n), n.pipe, "else"), x.dot, n.elseList, r.vars);
    PlainAlso(w, r);
  }

  lemma {:induction false} PlainElse(w: World, n: Node, v: Value, x: Place, vars: seq<Variable>)
    requires (n.If? || n.With?) && !w.branches && Guarded(x.guards) && x.depth <= MAX_DEPTH
    ensures var r := if n.elseList.Some? then RunBlock(w, n.elseList.value, x, vars) else Halt(Normal, vars);
        SameRun(TakeElse(w, n, v, x, vars), r)
  {
    var r := if n.elseList.Some? then RunBlock(w, n.elseList.value, x, vars) else Halt(Normal, vars);
    NoExploring(w, x, Guard(n.loc, Kind(n), n.pipe, "then"), DotIn(n, x, v), Some(n.list), r.vars);
    PlainAlso(w, r);
  }

  predicate SameRun(r: Run, s: Run) {
    r.stop == s.stop && r.vars == s.vars && r.text == s.text && r.spans == s.spans && r.record.log == s.record.log
  }

  lemma {:induction false} PlainAlso(w: World, r: Run)
    ensures SameRun(Recorded(EMPTY, Also(r, EMPTY)), r) && SameRun(Recorded(EMPTY, r), r)
    ensures SameRun(Also(r, Join(EMPTY, EMPTY)), r)
  {
    assert r.record.log + [] == r.record.log && [] + r.record.log == r.record.log;
  }

  // ----- range and template -----

  /** The loop variables a range declared are the last on the stack and the last allocated before the loop. */
  ghost predicate OnTop(p: Pipe, addr: seq<nat>, top: nat) {
    !p.assign ==>
      && |p.decl| <= |addr| && |p.decl| <= top
      && (|p.decl| > 0 ==> addr[|addr| - 1] == top - 1) && (|p.decl| > 1 ==> addr[|addr| - 2] == top - 2)
  }

  lemma {:induction false} LoopScoped(p: Pipe, vars: seq<Variable>, env: Env, store: seq<Value>, addr: seq<nat>,
      top: nat, index: Value, elem: Value)
    requires Related(vars, env, store, addr) && OnTop(p, addr, top) && top <= |store|
    ensures var (vars1, ok) := SetLoop(p, vars, index, elem);
        var (store1, ok1) := LexLoop(p, env, store, top, index, elem);
            ok == ok1 && Related(vars1, env, store1, addr) && Extends(vars, addr, vars1, addr)
  {
    if p.decl != [] {
      if p.assign {
        AssignedLoop(p, vars, env, store, addr, top, index, elem);
      } else {
        DeclaredLoop(p, vars, env, store, addr, top, index, elem);
      }
    }
  }

  lemma {:induction false} AssignedLoop(p: Pipe, vars: seq<Variable>, env: Env, store: seq<Value>, addr: seq<nat>,
      top: nat, index: Value, elem: Value)
    requires Related(vars, env, store, addr) && p.assign && p.decl != []
    ensures var (vars1, ok) := SetLoop(p, vars, index, elem);
        var (store1, ok1) := LexLoop(p, env, store, top, index, elem);
            ok == ok1 && Related(vars1, env, store1, addr) && Extends(vars, addr, vars1, addr)
  {
    var v := if |p.decl| > 1 then index else elem;
    AssignsRelated(vars, env, store, addr, [p.decl[0]], v);
    var (vars1, ok) := Bind(vars, [p.decl[0]], true, v);
    if ok && |p.decl| > 1 {
      AssignsRelated(vars1, env, LexBind(env, store, [p.decl[0]], true, v).1, addr, [p.decl[1]], elem);
      ExtendsTrans(vars, addr, vars1, addr, Bind(vars1, [p.decl[1]], true, elem).0, addr);
    }
  }

  lemma {:induction false} DeclaredLoop(p: Pipe, vars: seq<Variable>, env: Env, store: seq<Value>, addr: seq<nat>,
      top: nat, index: Value, elem: Value)
    requires Related(vars, env, store, addr) && OnTop(p, addr, top) && top <= |store| && !p.assign && p.decl != []
    ensures var (vars1, ok) := SetLoop(p, vars, index, elem);
        var (store1, ok1) := LexLoop(p, env, store, top, index, elem);
            ok == ok1 && Related(vars1, env, store1, addr) && Extends(vars, addr, vars1, addr)
  {
    var vars1 := SetOne(vars, env, store, addr, |vars| - 1, elem);
    assert SetLoop(p, vars, index, elem).0 == if |p.decl| > 1
        then vars1[|vars| - 2 := Variable(vars1[|vars| - 2].name, index)] else vars1;
    assert LexLoop(p, env, store, top, index, elem).0 == if |p.decl| > 1 then store[top - 1 := elem][top - 2 := index]
        else store[top - 1 := elem];
    if |p.decl| > 1 {
      var vars2 := SetOne(vars1, env, store[top - 1 := elem], addr, |vars| - 2, index);
      ExtendsTrans(vars, addr, vars1, addr, vars2, addr);
    }
  }

  lemma {:induction false} IterateScoped(w: World, n: Node, items: seq<(Value, Value)>, x: Place, vars: seq<Variable>,
      env: Env, store: seq<Value>, addr: seq<nat>, top: nat)
    requires n.Range? && !w.branches && Guarded(x.guards) && x.depth <= MAX_DEPTH && Related(vars, env, store, addr)
    requires OnTop(n.pipe, addr, top) && top <= |store|
    ensures Agrees(Iterate(w, n, items, x, vars), LexIterate(w, n, items, x, env, store, top), vars, addr, addr)
    decreases MAX_DEPTH - x.depth, n, 1, |items|, 0
  {
    if items == [] {
      Halted(Normal, vars, env, store, addr);
    } else {
      IterationScoped(w, n, items[0].0, items[0].1, x, vars, env, store, addr, top);
      MoreScoped(w, n, items[1..], x, vars, env, addr, top, RunIteration(w, n, items[0].0, items[0].1, x, vars),
                 LexIteration(w, n, items[0].0, items[0].1, x, env, store, top));
      IterateStep(w, n, items, x, vars);
      LexIterateStep(w, n, items, x, env, store, top);
    }
  }

  /** The other iterations, unless the first broke off. */
  lemma {:induction false} MoreScoped(w: World, n: Node, items: seq<(Value, Value)>, x: Place, vars: seq<Variable>,
                                      env: Env, addr: seq<nat>, top: nat, r: Run, l: Meaning)
    requires n.Range? && !w.branches && Guarded(x.guards) && x.depth <= MAX_DEPTH && l.env == env
    requires OnTop(n.pipe, addr, top) && top <= |l.store| && Agrees(r, l, vars, addr, addr)
    ensures !n.pipe.assign ==> |r.vars| >= |n.pipe.decl|
    ensures Agrees(ThenMore(w, n, items, x, r), ThenLexMore(w, n, items, x, l, top), vars, addr, addr)
    decreases MAX_DEPTH - x.depth, n, 1, |items|, 1
  {
    if r.stop.Normal? || r.stop.Continuing? {
      var z := x.(at := x.at + |r.text|);
      IterateScoped(w, n, items, z, r.vars, env, l.store, addr, top);
      AgreesAfter(r, l, Iterate(w, n, items, z, r.vars), LexIterate(w, n, items, z, env, l.store, top), vars, addr,
          addr, addr);
    }
  }

  function ThenLexMore(w: World, n: Node, items: seq<(Value, Value)>, x: Place, l: Meaning, top: nat): Meaning
    requires n.Range? && x.depth <= MAX_DEPTH && Closed(l.env, l.store)
    requires !n.pipe.assign ==> |n.pipe.decl| <= top <= |l.store|
  {
    if l.stop.Normal? || l.stop.Continuing?
    then Following(l, LexIterate(w, n, items, x.(at := x.at + |l.text|), l.env, l.store, top))
    else l
  }

  lemma {:induction false} LexIterateStep(w: World, n: Node, items: seq<(Value, Value)>, x: Place, env: Env,
      store: seq<Value>, top: nat)
    requires n.Range? && x.depth <= MAX_DEPTH && Closed(env, store) && items != []
    requires !n.pipe.assign ==> |n.pipe.decl| <= top <= |store|
    ensures
      var l := LexIteration(w, n, items[0].0, items[0].1, x, env, store, top);
      LexIterate(w, n, items, x, env, store, top) == ThenLexMore(w, n, items[1..], x, l, top)
  {}

  lemma {:induction false} IterationScoped(w: World, n: Node, index: Value, elem: Value, x: Place, vars: seq<Variable>,
      env: Env, store: seq<Value>, addr: seq<nat>, top: nat)
    requires n.Range? && !w.branches && Guarded(x.guards) && x.depth <= MAX_DEPTH && Related(vars, env, store, addr)
    requires OnTop(n.pipe, addr, top) && top <= |store|
    ensures Agrees(RunIteration(w, n, index, elem, x, vars), LexIteration(w, n, index, elem, x, env, store, top), vars,
        addr, addr)
    decreases MAX_DEPTH - x.depth, n, 0
  {
    LoopScoped(n.pipe, vars, env, store, addr, top, index, elem);
    var (vars1, ok) := SetLoop(n.pipe, vars, index, elem);
    var (store1, _) := LexLoop(n.pipe, env, store, top, index, elem);
    if ok {
      var run, lex := RunBlock(w, n.list, x.(dot := elem), vars1), LexBlock(w, n.list, x.(dot := elem), env, store1);
      var end := BlockScoped(w, n.list, x.(dot := elem), vars1, env, store1, addr);
      RelatedPop(vars1, env, store1, addr, run.vars, lex.env, lex.store, end);
      ExtendsTrans(vars, addr, vars1, addr, run.vars, end);
    }
  }

  lemma {:induction false} ItemsScoped(w: World, n: Node, v: Value, x: Place, vars: seq<Variable>, env: Env,
      store: seq<Value>, addr: seq<nat>) returns (addr1: seq<nat>)
    requires n.Range? && !w.branches && Guarded(x.guards) && x.depth <= MAX_DEPTH && Related(vars, env, store, addr)
    requires OnTop(n.pipe, addr, |store|)
    ensures Agrees(RunItems(w, n, v, x, vars).0, LexItems(w, n, v, x, env, store), vars, addr, addr1)
    decreases MAX_DEPTH - x.depth, n, 2
  {
    addr1 := addr;
    match w.host.items(v, |n.pipe.decl|)
    case None =>
    case Some(items) =>
      if items != [] {
        IterateScoped(w, n, items, x, vars, env, store, addr, |store|);
      } else if n.elseList.Some? {
        addr1 := BlockScoped(w, n.elseList.value, x, vars, env, store, addr);
      }
  }

  lemma {:induction false} RangeScoped(w: World, n: Node, x: Place, vars: seq<Variable>, env: Env, store: seq<Value>,
      addr: seq<nat>)
    requires n.Range? && !w.branches && Guarded(x.guards) && x.depth <= MAX_DEPTH && Related(vars, env, store, addr)
    ensures Agrees(RunRange(w, n, x, vars), LexRange(w, n, x, env, store), vars, addr, addr)
    decreases MAX_DEPTH - x.depth, n, 3
  {
    var mid := PipelineRelated(w, n.pipe, x.dot, vars, env, store, addr);
    var e, l := Pipeline(w, n.pipe, x.dot, vars), LexPipeline(w, n.pipe, x.dot, env, store);
    var before := ReadRecord(e.chains, x.guards);
    match e.result
    case Fails(message) =>
      PoppedAgrees(Halt(Failing(message), e.vars), Quit(Failing(message), l.env, l.store), vars, env, store, addr,
          e.vars, mid, mid, before);
    case Yields(v) =>
      var end := ItemsScoped(w, n, v, x, e.vars, l.env, l.store, mid);
      var r := RunItems(w, n, v, x, e.vars).0;
      PoppedAgrees(r, LexItems(w, n, v, x, l.env, l.store), vars, env, store, addr, e.vars, mid, end, before);
      PlainRange(w, n, v, x, vars, e);
      AgreesSame(Recorded(before, Popped(r, |vars|)), LexRange(w, n, x, env, store), RunRange(w, n, x, vars), vars,
          addr, addr);
  }

  lemma {:induction false} PlainRange(w: World, n: Node, v: Value, x: Place, vars: seq<Variable>, e: Piped)
    requires n.Range? && !w.branches && Guarded(x.guards) && x.depth <= MAX_DEPTH
    requires e == Pipeline(w, n.pipe, x.dot, vars) && e.result == Yields(v)
    ensures SameRun(RunRange(w, n, x, vars),
        Recorded(ReadRecord(e.chains, x.guards), Popped(RunItems(w, n, v, x, e.vars).0, |vars|)))
  {
    var done, iterated := Popped(RunItems(w, n, v, x, e.vars).0, |vars|), RunItems(w, n, v, x, e.vars).1;
    PlainTail(w, n, v, x, done, iterated);
    assert RunRange(w, n, x, vars) == Recorded(ReadRecord(e.chains, x.guards), RangeTail(w, n, v, x, done, iterated));
  }

  lemma {:induction false} PlainTail(w: World, n: Node, v: Value, x: Place, done: Run, iterated: bool)
    requires n.Range? && !w.branches && Guarded(x.guards) && x.depth <= MAX_DEPTH
    ensures SameRun(RangeTail(w, n, v, x, done, iterated), done)
  {
    NoExploring(w, x, Guard(n.loc, "range", n.pipe, "else"), x.dot, n.elseList, done.vars);
    NoExploring(w, x, Guard(n.loc, "range", n.pipe, "body"), w.host.nothing, Some(n.list),
        Unbound(w, done.vars, n.pipe.decl));
    PlainAlso(w, done);
  }

  lemma {:induction false} CallScoped(w: World, n: Node, x: Place, vars: seq<Variable>, env: Env, store: seq<Value>,
      addr: seq<nat>) returns (addr1: seq<nat>)
    requires n.Call? && !w.branches && Guarded(x.guards) && x.depth <= MAX_DEPTH && Related(vars, env, store, addr)
    ensures Agrees(RunCall(w, n, x, vars), LexCall(w, n, x, env, store), vars, addr, addr1)
    decreases MAX_DEPTH - x.depth, n, 0
  {
    addr1 := addr;
    if n.name in w.templates && x.depth < MAX_DEPTH {
      if n.arg.Some? { addr1 := PipelineRelated(w, n.arg.value, x.dot, vars, env, store, addr); }
      var e := if n.arg.Some? then Pipeline(w, n.arg.value, x.dot, vars) else Piped(vars, [], Yields(w.host.nothing));
      if e.result.Yields? {
        var v := e.result.value;
        OnlyDot(v);
        var end := BlockScoped(w, w.templates[n.name], x.(dot := v, depth := x.depth + 1), [Variable("$", v)],
            map["$" := 0], [v], [0]);
      }
    }
  }

  lemma {:induction false} OnlyDot(v: Value)
    ensures Related([Variable("$", v)], map["$" := 0], [v], [0])
  {
    assert EnvOf([], []) == map[];
  }

  // ----- the main results -----

  lemma {:induction false} PlainScoping(w: World, root: Block, data: Value)
    requires !w.branches
    ensures
      var r, l := Render(w, root, data), LexRender(w, root, data);
      r.stop == l.stop && r.text == l.text && r.spans == l.spans && r.record.log == l.log
  {
    OnlyDot(data);
    var addr := BlockScoped(w, root, Place(data, 0, [], true, 0), [Variable("$", data)], map["$" := 0], [data], [0]);
  }

  /** A render with the stack, whether it explores untaken arms or not, is a render with immutable environments; what
      that one reads are the taken reads. */
  lemma {:induction false} LexicalScoping(w: World, root: Block, data: Value)
    ensures
      var r, l := Render(w, root, data), LexRender(Plain(w), root, data);
      r.stop == l.stop && r.text == l.text && r.spans == l.spans && Taken(r.record.log) == l.log
  {
    ExplorationInvisible(w, root, data);
    PlainScoping(Plain(w), root, data);
  }

  /** Any stack stands for an environment and a store: a cell for each variable. */
  lemma {:induction false} AnyRelated(vars: seq<Variable>) returns (env: Env, store: seq<Value>, addr: seq<nat>)
    ensures Related(vars, env, store, addr)
  {
    addr := seq(|vars|, i requires 0 <= i < |vars| => i);
    store := seq(|vars|, i requires 0 <= i < |vars| => vars[i].value);
    env := EnvOf(vars, addr);
    forall name | name in env ensures env[name] < |store| { EnvAt(vars, addr, name); }
  }

  lemma {:induction false} PlainStackRestored(w: World, n: Node, x: Place, vars: seq<Variable>)
    requires n.If? || n.With? || n.Range?
    requires !w.branches && Guarded(x.guards) && x.depth <= MAX_DEPTH
    ensures SameNames(vars, RunNode(w, n, x, vars).vars)
  {
    var env, store, addr := AnyRelated(vars);
    if n.Range? {
      RangeScoped(w, n, x, vars, env, store, addr);
    } else {
      ChoiceScoped(w, n, x, vars, env, store, addr);
    }
  }

  predicate SameNames(before: seq<Variable>, after: seq<Variable>) {
    |after| == |before| && forall i | 0 <= i < |before| :: after[i].name == before[i].name
  }

  /** However an if, with or range is left -- at its end, by a break, a continue or an error -- the stack is back at its
      mark, with the same names. */
  lemma {:induction false} StackRestored(w: World, n: Node, x: Place, vars: seq<Variable>)
    requires n.If? || n.With? || n.Range?
    requires Guarded(x.guards) && x.depth <= MAX_DEPTH
    ensures SameNames(vars, RunNode(w, n, x, vars).vars)
    ensures n.Range? ==> RunNode(w, n, x, vars).stop != Breaking
  {
    NodeInvisible(w, n, x, vars);
    PlainStackRestored(Plain(w), n, x, vars);
  }
}
