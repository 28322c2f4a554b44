/** tpl/exec.go and prov.go: what each node of a template does and records, said without the functions of the executor's
    control flow. */
module TemplateLaws {
  import opened Template
  import opened TemplateRun

  // ----- expressions -----

  /** The reads are the chains in order, each marked untaken with the innermost of the guards around it. */
  predicate ReadsOf(rs: seq<Read>, cs: seq<Chain>, guards: seq<string>) {
    |rs| == |cs| && forall k | 0 <= k < |cs| ::
      rs[k] == Read(cs[k].path, cs[k].loc, guards != [], if guards == [] then "" else guards[|guards| - 1])
  }

  lemma ReadsLaw(cs: seq<Chain>, guards: seq<string>)
    ensures ReadsOf(MarkReads(cs, guards), cs, guards)
  {}

  /** The stack after a declaration of the names: each on top with the value. */
  function Declared(vars: seq<Variable>, names: seq<string>, v: Value): seq<Variable> {
    vars + seq(|names|, i requires 0 <= i < |names| => Variable(names[i], v))
  }

  lemma {:induction false} BindDeclares(vars: seq<Variable>, names: seq<string>, v: Value)
    ensures Bind(vars, names, false, v) == (Declared(vars, names, v), true)
    decreases |names|
  {
    if names != [] { BindDeclares(vars + [Variable(names[0], v)], names[1..], v); }
    assert Declared(vars, names, v) ==
        if names == [] then vars else Declared(vars + [Variable(names[0], v)], names[1..], v);
  }

  /** A pipeline evaluates its expression on the dot and what the stack shows of each name; with `:=` its variables go
      on top of the stack, with `=` the last variable of the name is set, which there must be. */
  lemma {:induction false} PipelineLaw(w: World, p: Pipe, dot: Value, vars: seq<Variable>)
    ensures
      var e, r := w.host.eval(p.expr, dot, Visible(vars)), Pipeline(w, p, dot, vars);
      && r.chains == e.chains
      && (e.result.Fails? ==> r.result == e.result && r.vars == vars)
      && (e.result.Yields? && !p.assign ==> r.result == e.result && r.vars == Declared(vars, p.decl, e.result.value))
      && (e.result.Yields? && p.assign && |p.decl| == 1 ==>
          var i := LastIndex(vars, p.decl[0]);
          && (i >= 0 ==> r.result == e.result && r.vars == vars[i := Variable(p.decl[0], e.result.value)])
          && (i < 0 ==> r.result == Fails("undefined variable") && r.vars == vars))
  {
    var e := w.host.eval(p.expr, dot, Visible(vars));
    if e.result.Yields? && !p.assign { BindDeclares(vars, p.decl, e.result.value); }
    if e.result.Yields? && p.assign && |p.decl| == 1 {
      var i := LastIndex(vars, p.decl[0]);
      if i >= 0 {
        assert p.decl[1..] == [];
        assert Bind(vars[i := Variable(p.decl[0], e.result.value)], [], true, e.result.value).1;
      }
    }
  }

  // ----- lists, text and actions -----

  /** A list is its nodes in turn, each on the stack and behind the output of the one before, up to the first that does
      not end normally. */
  lemma {:induction false} ListLaw(w: World, n: Node, rest: Block, x: Place, vars: seq<Variable>)
    requires Guarded(x.guards) && x.depth <= MAX_DEPTH
    ensures RunBlock(w, Nil, x, vars) == Run(Normal, vars, "", [], Record([], [], []))
    ensures
      var r, all := RunNode(w, n, x, vars), RunBlock(w, Cons(n, rest), x, vars);
      if r.stop.Normal? then
        var s := RunBlock(w, rest, x.(at := x.at + |r.text|), r.vars);
        && all.stop == s.stop && all.vars == s.vars && all.text == r.text + s.text && all.spans == r.spans + s.spans
        && all.record.log == r.record.log + s.record.log && all.record.arms == r.record.arms + s.record.arms
        && all.record.explored == r.record.explored + s.record.explored
      else all == r
  {}

  /** Text writes itself, a comment nothing, and a break or continue only stops. */
  lemma {:induction false} LeafLaw(w: World, n: Node, x: Place, vars: seq<Variable>)
    requires (n.Text? || n.Comment? || n.Break? || n.Continue?) && Guarded(x.guards) && x.depth <= MAX_DEPTH
    ensures
      var r := RunNode(w, n, x, vars);
      && r.vars == vars && r.record == Record([], [], [])
      && r.stop == (if n.Break? then Breaking else if n.Continue? then Continuing else Normal)
      && r.text == (if n.Text? then n.text else "")
      && r.spans == if n.Text? && x.counting then [Span(x.at, x.at + |n.text|, n.loc, "text", [])] else []
  {}

  /** An action prints its value unless it declares or assigns variables; its span names the paths it read. */
  lemma {:induction false} ActionLaw(w: World, n: Node, x: Place, vars: seq<Variable>)
    requires n.Action? && Guarded(x.guards) && x.depth <= MAX_DEPTH
    ensures
      var e, r := Pipeline(w, n.pipe, x.dot, vars), RunNode(w, n, x, vars);
      && r.vars == e.vars && ReadsOf(r.record.log, e.chains, x.guards) && r.record.arms == [] && r.record.explored == []
      && (e.result.Fails? ==> r.stop == Failing(e.result.message) && r.text == "" && r.spans == [])
      && (e.result.Yields? && n.pipe.decl == [] && w.host.show(e.result.value).None? ==>
          r.stop == Failing("can't print the value") && r.text == "" && r.spans == [])
      && (e.result.Yields? && (n.pipe.decl != [] || w.host.show(e.result.value).Some?) ==>
          && r.stop == Normal && r.text == (if n.pipe.decl == [] then w.host.show(e.result.value).value else "")
          && (!x.counting ==> r.spans == [])
          && (x.counting ==>
              |r.spans| == 1 && r.spans[0] == Span(x.at, x.at + |r.text|, n.loc, "action", r.spans[0].values)
              && |r.spans[0].values| == |e.chains|
              && forall k | 0 <= k < |e.chains| :: r.spans[0].values[k] == e.chains[k].path))
  {
    ReadsLaw(Pipeline(w, n.pipe, x.dot, vars).chains, x.guards);
  }

  // ----- if and with -----

  /** The log is these reads and then the rest. */
  predicate LogIs(log: seq<Read>, cs: seq<Chain>, guards: seq<string>, rest: seq<Read>) {
    |cs| <= |log| && ReadsOf(log[..|cs|], cs, guards) && log[|cs|..] == rest
  }

  lemma LogIsReads(cs: seq<Chain>, guards: seq<string>, rest: seq<Read>)
    ensures LogIs(MarkReads(cs, guards) + rest, cs, guards, rest)
  {
    ReadsLaw(cs, guards);
    assert (MarkReads(cs, guards) + rest)[..|cs|] == MarkReads(cs, guards);
  }

  predicate Chooses(n: Node) { n.If? || n.With? }

  /** An unusable condition stops the render. */
  lemma {:induction false} ConditionLaw(w: World, n: Node, x: Place, vars: seq<Variable>)
    requires Chooses(n) && Guarded(x.guards) && x.depth <= MAX_DEPTH
    ensures
      var e, r := Pipeline(w, n.pipe, x.dot, vars), RunNode(w, n, x, vars);
      var unusable := e.result.Yields? && w.host.truth(e.result.value).None?;
      e.result.Fails? || unusable ==>
        && r.stop == Failing(if unusable then "if/with can't use the value" else e.result.message)
        && r.vars == e.vars[..|vars|] && r.text == "" && r.spans == []
        && ReadsOf(r.record.log, e.chains, x.guards) && r.record.arms == [] && r.record.explored == []
  {
    var e := Pipeline(w, n.pipe, x.dot, vars);
    ReadsLaw(e.chains, x.guards);
    assert MarkReads(e.chains, x.guards) + [] == MarkReads(e.chains, x.guards);
  }

  /** The condition of the node yields `v`, which is true or not. */
  ghost predicate Tests(w: World, n: Node, x: Place, vars: seq<Variable>, v: Value, truth: bool) {
    Chooses(n) && Pipeline(w, n.pipe, x.dot, vars).result == Yields(v) && w.host.truth(v) == Some(truth)
  }

  lemma {:induction false} ThenUnfolds(w: World, n: Node, x: Place, vars: seq<Variable>, v: Value)
    requires Tests(w, n, x, vars, v, true) && Guarded(x.guards) && x.depth <= MAX_DEPTH
    ensures
      var e := Pipeline(w, n.pipe, x.dot, vars);
      RunNode(w, n, x, vars)
      == Recorded(ReadRecord(e.chains, x.guards), Popped(TakeThen(w, n, v, x, e.vars), |vars|))
  {}

  lemma {:induction false} ElseUnfolds(w: World, n: Node, x: Place, vars: seq<Variable>, v: Value)
    requires Tests(w, n, x, vars, v, false) && Guarded(x.guards) && x.depth <= MAX_DEPTH
    ensures
      var e := Pipeline(w, n.pipe, x.dot, vars);
      RunNode(w, n, x, vars)
      == Recorded(ReadRecord(e.chains, x.guards), Popped(TakeElse(w, n, v, x, e.vars), |vars|))
  {}

  /** The place of the then-arm: the body of a `with` has the value tested for its dot, that of an `if` the dot. */
  function ThenPlace(n: Node, x: Place, v: Value): Place { if n.With? then x.(dot := v) else x }

  /** What the arm taken did. */
  ghost function Taken(w: World, n: Node, x: Place, vars: seq<Variable>, v: Value, truth: bool): (r: Run)
    requires Chooses(n) && Guarded(x.guards) && x.depth <= MAX_DEPTH
    ensures |r.vars| >= |vars|
  {
    var e := Pipeline(w, n.pipe, x.dot, vars);
    if truth then RunBlock(w, n.list, ThenPlace(n, x, v), e.vars)
    else if n.elseList.Some? then RunBlock(w, n.elseList.value, x, e.vars)
    else Run(Normal, e.vars, "", [], Record([], [], []))
  }

  /** A true condition runs the list, `with` on the value and `if` on the dot, a false one the else-list on the dot if
      there is one; afterwards the stack is cut back. */
  lemma {:induction false} ChoiceLaw(w: World, n: Node, x: Place, vars: seq<Variable>, v: Value, truth: bool)
    requires Tests(w, n, x, vars, v, truth) && Guarded(x.guards) && x.depth <= MAX_DEPTH
    ensures
      var arm, r := Taken(w, n, x, vars, v, truth), RunNode(w, n, x, vars);
      r.stop == arm.stop && r.vars == arm.vars[..|vars|] && r.text == arm.text && r.spans == arm.spans
  {
    if truth { ThenUnfolds(w, n, x, vars, v); } else { ElseUnfolds(w, n, x, vars, v); }
  }

  // ----- the arms not taken -----

  /** The arm is entered: arms are explored, fewer than sixteen deep, and not this one already. */
  predicate Enters(w: World, x: Place, guard: string) {
    w.branches && |x.guards| < 16 && guard !in x.guards
  }

  /** How an untaken arm is run: inside its guard, its output neither counted nor kept. */
  ghost function Untaken(w: World, x: Place, guard: string, dot: Value, list: Block, vars: seq<Variable>): Run
    requires Enters(w, x, guard) && Guarded(x.guards) && x.depth <= MAX_DEPTH
  {
    RunBlock(w, list, Place(dot, x.depth, x.guards + [guard], false, 0), vars)
  }

  /** The entry of an explored arm: its guard, its text without the holes, and how it failed. */
  function Entry(guard: string, r: Run): Explored {
    Explored(guard, Clean(r.text, 0), match r.stop case Failing(message) => Some(message) case _ => None)
  }

  /** The entry of the arm taken. */
  function ArmOf(w: World, n: Node, x: Place, v: Value, kind: string, taken: string): Arm
    requires Chooses(n) || n.Range?
  {
    Arm(n.loc, kind, n.pipe.text, taken, n.elseList.Some?, w.host.describe(v), x.guards != [])
  }

  /** The record is the condition's reads, the arm taken with its entry in front, and, if another was explored, that
      one's record and its entry. */
  predicate Recounts(all: Record, cs: seq<Chain>, guards: seq<string>, arm: Arm, taken: Record) {
    && LogIs(all.log, cs, guards, taken.log) && all.arms == [arm] + taken.arms && all.explored == taken.explored
  }

  predicate RecountsBoth(all: Record, cs: seq<Chain>, guards: seq<string>, arm: Arm, taken: Record, other: Record,
      entry: Explored) {
    && LogIs(all.log, cs, guards, taken.log + other.log) && all.arms == [arm] + taken.arms + other.arms
    && all.explored == taken.explored + other.explored + [entry]
  }

  lemma RecordParts(seen: Record, arm: Record, taken: Record, other: Record, entry: Record)
    ensures Join(seen, Join(arm, Join(taken, Join(other, entry)))).log
         == seen.log + (arm.log + (taken.log + (other.log + entry.log)))
    ensures Join(seen, Join(arm, Join(taken, Join(other, entry)))).arms
         == seen.arms + (arm.arms + (taken.arms + (other.arms + entry.arms)))
    ensures Join(seen, Join(arm, Join(taken, Join(other, entry)))).explored
         == seen.explored + (arm.explored + (taken.explored + (other.explored + entry.explored)))
  {}

  lemma Bracketed<T>(a: seq<T>, b: seq<T>, c: seq<T>)
    ensures [] + ([] + (a + (b + c))) == a + b + c && [] + (a + (b + (c + []))) == a + b + c
    ensures [] + (a + (b + [])) == a + b
  {}

  lemma {:induction false} BothRecounted(cs: seq<Chain>, guards: seq<string>, arm: Arm, taken: Record, other: Record,
      entry: Explored)
    ensures RecountsBoth(Join(ReadRecord(cs, guards),
                           Join(Record([], [arm], []), Join(taken, Join(other, Record([], [], [entry]))))),
              cs, guards, arm, taken, other, entry)
  {
    LogIsReads(cs, guards, taken.log + other.log);
    RecordParts(ReadRecord(cs, guards), Record([], [arm], []), taken, other, Record([], [], [entry]));
    assert MarkReads(cs, guards) + ([] + (taken.log + (other.log + [])))
        == MarkReads(cs, guards) + (taken.log + other.log);
    Bracketed([arm], taken.arms, other.arms);
    Bracketed(taken.explored, other.explored, [entry]);
  }

  lemma {:induction false} OneRecounted(cs: seq<Chain>, guards: seq<string>, arm: Arm, taken: Record)
    ensures Recounts(Join(ReadRecord(cs, guards), Join(Record([], [arm], []), Join(taken, EMPTY))), cs, guards, arm,
        taken)
    ensures Recounts(Join(ReadRecord(cs, guards), Join(Record([], [arm], []), taken)), cs, guards, arm, taken)
  {
    LogIsReads(cs, guards, taken.log);
    assert [] + taken.log == taken.log && taken.log + [] == taken.log;
    assert [] + ([arm] + (taken.arms + [])) == [arm] + taken.arms == [] + ([arm] + taken.arms);
    assert [] + ([] + (taken.explored + [])) == taken.explored == [] + ([] + taken.explored);
  }

  function Word(n: Node): string { if n.With? then " with " else " if " }

  lemma GuardText(loc: string, kind: string, p: Pipe, which: string, guard: string)
    requires guard == loc + (" " + kind + " ") + p.text + (" (" + which + ")")
    ensures Guard(loc, kind, p, which) == guard
  {
    assert loc + " " + kind + " " + p.text + " (" + which + ")"
        == loc + (" " + kind + " ") + p.text + (" (" + which + ")");
  }

  lemma ElseGuard(n: Node, guard: string)
    requires Chooses(n) && guard == n.loc + Word(n) + n.pipe.text + " (else)"
    ensures Guard(n.loc, Kind(n), n.pipe, "else") == guard
  {
    assert " " + Kind(n) + " " == Word(n) && " (" + "else" + ")" == " (else)";
    GuardText(n.loc, Kind(n), n.pipe, "else", guard);
  }

  lemma ThenGuard(n: Node, guard: string)
    requires Chooses(n) && guard == n.loc + Word(n) + n.pipe.text + " (then)"
    ensures Guard(n.loc, Kind(n), n.pipe, "then") == guard
  {
    assert " " + Kind(n) + " " == Word(n) && " (" + "then" + ")" == " (then)";
    GuardText(n.loc, Kind(n), n.pipe, "then", guard);
  }

  lemma {:induction false} EntryIs(guard: string, r: Run)
    ensures ExploredBy(guard, r) == Record([], [], [Entry(guard, r)])
  {}

  /** What exploring adds, when the arm is entered and when it is not. */
  lemma {:induction false} ExploringAdds(w: World, x: Place, guard: string, dot: Value, list: Block,
      vars: seq<Variable>)
    requires Guarded(x.guards) && x.depth <= MAX_DEPTH
    ensures Enters(w, x, guard) ==>
              var other := Untaken(w, x, guard, dot, list, vars);
              ExploreBlock(w, x, guard, dot, list, vars) == Join(other.record, Record([], [], [Entry(guard, other)]))
    ensures !Enters(w, x, guard) ==> ExploreBlock(w, x, guard, dot, list, vars) == EMPTY
  {
    if Enters(w, x, guard) { EntryIs(guard, Untaken(w, x, guard, dot, list, vars)); }
  }

  lemma {:induction false} ThenRecord(w: World, n: Node, x: Place, vars: seq<Variable>, v: Value, guard: string)
    requires Tests(w, n, x, vars, v, true) && Guarded(x.guards) && x.depth <= MAX_DEPTH && w.branches
    requires guard == Guard(n.loc, Kind(n), n.pipe, "else")
    ensures
      var taken := Taken(w, n, x, vars, v, true);
      RunNode(w, n, x, vars).record
      == Join(ReadRecord(Pipeline(w, n.pipe, x.dot, vars).chains, x.guards),
           Join(Record([], [ArmOf(w, n, x, v, if n.With? then "with" else "if", "then")], []),
             if taken.stop.Normal? then Join(taken.record, Explore(w, x, guard, x.dot, n.elseList, taken.vars))
             else taken.record))
  {
    ThenUnfolds(w, n, x, vars, v);
  }

  lemma {:induction false} ElseRecord(w: World, n: Node, x: Place, vars: seq<Variable>, v: Value, guard: string)
    requires Tests(w, n, x, vars, v, false) && Guarded(x.guards) && x.depth <= MAX_DEPTH && w.branches
    requires guard == Guard(n.loc, Kind(n), n.pipe, "then")
    ensures
      var taken := Taken(w, n, x, vars, v, false);
      RunNode(w, n, x, vars).record
      == Join(ReadRecord(Pipeline(w, n.pipe, x.dot, vars).chains, x.guards),
           Join(Record([], [ArmOf(w, n, x, v, if n.With? then "with" else "if",
                              if n.elseList.Some? then "else" else "none")], []),
             if taken.stop.Normal?
             then Join(taken.record, ExploreBlock(w, x, guard, if n.With? then v else x.dot, n.list, taken.vars))
             else taken.record))
  {
    ElseUnfolds(w, n, x, vars, v);
  }

  /** When the then-arm of a render with `branches` ends normally the else-list is explored: on the dot of the node and
      the stack the then-arm left,
          inside the guard `<loc> if|with <pipeline> (else)`. Its reads come after the taken ones, and
      its entry in the record has the guard and the cleaned text. */
  lemma {:induction false} ElseExplored(w: World, n: Node, x: Place, vars: seq<Variable>, v: Value, guard: string)
    requires Tests(w, n, x, vars, v, true) && Guarded(x.guards) && x.depth <= MAX_DEPTH
    requires guard == n.loc + Word(n) + n.pipe.text + " (else)" && Enters(w, x, guard) && n.elseList.Some?
    requires Taken(w, n, x, vars, v, true).stop.Normal?
    ensures
      var taken := Taken(w, n, x, vars, v, true);
      var other := Untaken(w, x, guard, x.dot, n.elseList.value, taken.vars);
      RecountsBoth(RunNode(w, n, x, vars).record, Pipeline(w, n.pipe, x.dot, vars).chains, x.guards,
        ArmOf(w, n, x, v, if n.With? then "with" else "if", "then"), taken.record, other.record, Entry(guard, other))
  {
    var taken := Taken(w, n, x, vars, v, true);
    var other := Untaken(w, x, guard, x.dot, n.elseList.value, taken.vars);
    ElseGuard(n, guard);
    ThenRecord(w, n, x, vars, v, guard);
    ExploringAdds(w, x, guard, x.dot, n.elseList.value, taken.vars);
    BothRecounted(Pipeline(w, n.pipe, x.dot, vars).chains, x.guards,
      ArmOf(w, n, x, v, if n.With? then "with" else "if", "then"), taken.record, other.record, Entry(guard, other));
  }

  /** And when the else-list, or nothing in its place, ends normally the then-list is: a `with` body sees the value
      tested. */
  lemma {:induction false} ThenExplored(w: World, n: Node, x: Place, vars: seq<Variable>, v: Value, guard: string)
    requires Tests(w, n, x, vars, v, false) && Guarded(x.guards) && x.depth <= MAX_DEPTH
    requires guard == n.loc + Word(n) + n.pipe.text + " (then)" && Enters(w, x, guard)
    requires Taken(w, n, x, vars, v, false).stop.Normal?
    ensures
      var taken := Taken(w, n, x, vars, v, false);
      var other := Untaken(w, x, guard, if n.With? then v else x.dot, n.list, taken.vars);
      RecountsBoth(RunNode(w, n, x, vars).record, Pipeline(w, n.pipe, x.dot, vars).chains, x.guards,
        ArmOf(w, n, x, v, if n.With? then "with" else "if", if n.elseList.Some? then "else" else "none"),
        taken.record, other.record, Entry(guard, other))
  {
    var taken := Taken(w, n, x, vars, v, false);
    var other := Untaken(w, x, guard, if n.With? then v else x.dot, n.list, taken.vars);
    ThenGuard(n, guard);
    ElseRecord(w, n, x, vars, v, guard);
    ExploringAdds(w, x, guard, if n.With? then v else x.dot, n.list, taken.vars);
    BothRecounted(Pipeline(w, n.pipe, x.dot, vars).chains, x.guards,
      ArmOf(w, n, x, v, if n.With? then "with" else "if", if n.elseList.Some? then "else" else "none"),
      taken.record, other.record, Entry(guard, other));
  }

  /** Otherwise nothing is explored: when the arm taken does not end normally, when there is no other, or when the other
      is not entered. */
  lemma {:induction false} NothingExplored(w: World, n: Node, x: Place, vars: seq<Variable>, v: Value, truth: bool,
      guard: string)
    requires Tests(w, n, x, vars, v, truth) && Guarded(x.guards) && x.depth <= MAX_DEPTH && w.branches
    requires guard == n.loc + Word(n) + n.pipe.text + (if truth then " (else)" else " (then)")
    requires !Taken(w, n, x, vars, v, truth).stop.Normal? || !Enters(w, x, guard) || (truth && n.elseList.None?)
    ensures Recounts(RunNode(w, n, x, vars).record, Pipeline(w, n.pipe, x.dot, vars).chains, x.guards,
              ArmOf(w, n, x, v, if n.With? then "with" else "if",
                if truth then "then" else if n.elseList.Some? then "else" else "none"),
              Taken(w, n, x, vars, v, truth).record)
  {
    var taken := Taken(w, n, x, vars, v, truth);
    if truth {
      ElseGuard(n, guard);
      ThenRecord(w, n, x, vars, v, guard);
      if n.elseList.Some? { ExploringAdds(w, x, guard, x.dot, n.elseList.value, taken.vars); }
    } else {
      ThenGuard(n, guard);
      ElseRecord(w, n, x, vars, v, guard);
      ExploringAdds(w, x, guard, if n.With? then v else x.dot, n.list, taken.vars);
    }
    OneRecounted(Pipeline(w, n.pipe, x.dot, vars).chains, x.guards,
      ArmOf(w, n, x, v, if n.With? then "with" else "if",
        if truth then "then" else if n.elseList.Some? then "else" else "none"),
      Taken(w, n, x, vars, v, truth).record);
  }

  // ----- range -----

  /** The stack a body sees: with `:=` the element on top and, below it, the index if there are two variables; with `=`
      the last variables of the names set instead, the index first. */
  predicate LoopStack(p: Pipe, vars: seq<Variable>, index: Value, elem: Value, now: seq<Variable>) {
    var n := |vars|;
    if p.decl == [] then now == vars
    else if p.assign then
      var first := LastIndex(vars, p.decl[0]);
      first >= 0 &&
      if |p.decl| == 1 then now == vars[first := Variable(p.decl[0], elem)]
      else
        var one := vars[first := Variable(p.decl[0], index)];
        var second := LastIndex(one, p.decl[1]);
        second >= 0 && now == one[second := Variable(p.decl[1], elem)]
    else if |p.decl| == 1 then n >= 1 && now == vars[..n - 1] + [Variable(vars[n - 1].name, elem)]
    else n >= 2 && now == vars[..n - 2] + [Variable(vars[n - 2].name, index), Variable(vars[n - 1].name, elem)]
  }

  lemma {:induction false} LoopSets(p: Pipe, vars: seq<Variable>, index: Value, elem: Value, now: seq<Variable>)
    requires LoopStack(p, vars, index, elem, now) && (!p.assign ==> |vars| >= |p.decl|)
    ensures SetLoop(p, vars, index, elem) == (now, true)
  {
    if p.decl != [] && p.assign {
      var first := if |p.decl| > 1 then index else elem;
      var one := vars[LastIndex(vars, p.decl[0]) := Variable(p.decl[0], first)];
      assert [p.decl[0]][1..] == [] && Bind(vars, [p.decl[0]], true, first) == Bind(one, [], true, first)
          == (one, true);
      if |p.decl| > 1 {
        assert [p.decl[1]][1..] == [];
        assert Bind(one, [p.decl[1]], true, elem) == Bind(now, [], true, elem) == (now, true);
      }
    } else if p.decl != [] {
      var top := vars[|vars| - 1 := Variable(vars[|vars| - 1].name, elem)];
      if |p.decl| > 1 {
        assert top[|top| - 2 := Variable(top[|top| - 2].name, index)] == now;
      } else {
        assert top == now;
      }
    }
  }

  /** Iterating runs the body for the first item, on the element and the stack with the loop variables set, and then,
      from where it ended normally or with a continue, the others; each time the stack is cut back. */
  lemma {:induction false} IterationLaw(w: World, n: Node, items: seq<(Value, Value)>, x: Place, vars: seq<Variable>,
      now: seq<Variable>)
    requires n.Range? && Guarded(x.guards) && x.depth <= MAX_DEPTH && (!n.pipe.assign ==> |vars| >= |n.pipe.decl|)
    requires items != [] && LoopStack(n.pipe, vars, items[0].0, items[0].1, now) && |now| == |vars|
    ensures Iterate(w, n, [], x, vars) == Run(Normal, vars, "", [], Record([], [], []))
    ensures
      var body, all := RunBlock(w, n.list, x.(dot := items[0].1), now), Iterate(w, n, items, x, vars);
      if body.stop.Normal? || body.stop.Continuing? then
        var more := Iterate(w, n, items[1..], x.(at := x.at + |body.text|), body.vars[..|vars|]);
        && all.stop == more.stop && all.vars == more.vars && all.text == body.text + more.text
        && all.spans == body.spans + more.spans && all.record.log == body.record.log + more.record.log
        && all.record.arms == body.record.arms + more.record.arms
        && all.record.explored == body.record.explored + more.record.explored
      else all == body.(vars := body.vars[..|vars|])
  {
    LoopSets(n.pipe, vars, items[0].0, items[0].1, now);
  }

  /** What a range over `items` does inside: the iterations, or over none the else-list on the dot. */
  ghost function Ranged(w: World, n: Node, x: Place, vars: seq<Variable>, items: seq<(Value, Value)>): (r: Run)
    requires n.Range? && Guarded(x.guards) && x.depth <= MAX_DEPTH && Pipeline(w, n.pipe, x.dot, vars).result.Yields?
    ensures |r.vars| >= |vars|
  {
    var e := Pipeline(w, n.pipe, x.dot, vars);
    if items != [] then Iterate(w, n, items, x, e.vars)
    else if n.elseList.Some? then RunBlock(w, n.elseList.value, x, e.vars)
    else Run(Normal, e.vars, "", [], Record([], [], []))
  }

  /** The range is over the value `v` with these items. */
  ghost predicate Over(w: World, n: Node, x: Place, vars: seq<Variable>, v: Value, items: seq<(Value, Value)>) {
    && n.Range? && Pipeline(w, n.pipe, x.dot, vars).result == Yields(v)
    && w.host.items(v, |n.pipe.decl|) == Some(items)
  }

  lemma {:induction false} RangeUnfolds(w: World, n: Node, x: Place, vars: seq<Variable>, v: Value)
    requires n.Range? && Guarded(x.guards) && x.depth <= MAX_DEPTH
    requires Pipeline(w, n.pipe, x.dot, vars).result == Yields(v)
    ensures
      var e := Pipeline(w, n.pipe, x.dot, vars);
      var (r, iterated) := RunItems(w, n, v, x, e.vars);
      RunNode(w, n, x, vars)
      == Recorded(ReadRecord(e.chains, x.guards), RangeTail(w, n, v, x, Popped(r, |vars|), iterated))
  {
    assert RunNode(w, n, x, vars) == RunRange(w, n, x, vars);
  }

  lemma {:induction false} ItemsUnfold(w: World, n: Node, x: Place, vars: seq<Variable>, v: Value,
      items: seq<(Value, Value)>)
    requires Over(w, n, x, vars, v, items) && Guarded(x.guards) && x.depth <= MAX_DEPTH
    ensures
      RunItems(w, n, v, x, Pipeline(w, n.pipe, x.dot, vars).vars)
      == (Caught(Ranged(w, n, x, vars, items)), items != [])
  {}

  /** A break ends the range, and the stack is cut back to where it was before the range. */
  lemma {:induction false} RangeLaw(w: World, n: Node, x: Place, vars: seq<Variable>, v: Value,
      items: seq<(Value, Value)>)
    requires Over(w, n, x, vars, v, items) && Guarded(x.guards) && x.depth <= MAX_DEPTH
    ensures
      var inside, r := Ranged(w, n, x, vars, items), RunNode(w, n, x, vars);
      && r.stop == (if inside.stop.Breaking? then Normal else inside.stop)
      && r.vars == inside.vars[..|vars|] && r.text == inside.text && r.spans == inside.spans
  {
    RangeUnfolds(w, n, x, vars, v);
    ItemsUnfold(w, n, x, vars, v, items);
  }

  /** A range over what has no items stops the render. */
  lemma {:induction false} RangeFailure(w: World, n: Node, x: Place, vars: seq<Variable>)
    requires n.Range? && Guarded(x.guards) && x.depth <= MAX_DEPTH
    ensures
      var e, r := Pipeline(w, n.pipe, x.dot, vars), RunNode(w, n, x, vars);
      var unusable := e.result.Yields? && w.host.items(e.result.value, |n.pipe.decl|).None?;
      e.result.Fails? || unusable ==>
        && r.stop == Failing(if unusable then "range can't iterate over the value" else e.result.message)
        && r.vars == e.vars[..|vars|] && r.text == "" && r.spans == []
        && ReadsOf(r.record.log, e.chains, x.guards) && r.record.arms == [] && r.record.explored == []
  {
    var e := Pipeline(w, n.pipe, x.dot, vars);
    if e.result.Yields? {
      RangeUnfolds(w, n, x, vars, e.result.value);
    } else {
      assert RunNode(w, n, x, vars) == RunRange(w, n, x, vars);
    }
    ReadsLaw(e.chains, x.guards);
    assert MarkReads(e.chains, x.guards) + [] == MarkReads(e.chains, x.guards);
  }

  /** The record of a range that ended: its reads, what it did, its own entry, and what was explored with its entry. */
  predicate RecountsRange(all: Record, cs: seq<Chain>, guards: seq<string>, inside: Record, arm: Arm, other: Record,
      entries: seq<Explored>) {
    && LogIs(all.log, cs, guards, inside.log + other.log) && all.arms == inside.arms + [arm] + other.arms
    && all.explored == inside.explored + other.explored + entries
  }

  lemma {:induction false} RangeRecounted(cs: seq<Chain>, guards: seq<string>, inside: Record, arm: Arm, other: Record,
      entries: seq<Explored>)
    ensures RecountsRange(Join(ReadRecord(cs, guards), Join(inside, Join(Record([], [arm], []),
                            Join(other, Record([], [], entries))))), cs, guards, inside, arm, other, entries)
  {
    var all := Join(ReadRecord(cs, guards),
                 Join(inside, Join(Record([], [arm], []), Join(other, Record([], [], entries)))));
    LogIsReads(cs, guards, inside.log + other.log);
    assert all.log == MarkReads(cs, guards) + (inside.log + other.log);
    assert all.arms == inside.arms + [arm] + other.arms;
    assert all.explored == inside.explored + other.explored + entries;
  }

  /** What is recorded of a range that ended normally or by a break. */
  lemma {:induction false} RangeRecord(w: World, n: Node, x: Place, vars: seq<Variable>, v: Value,
      items: seq<(Value, Value)>, which: string, guard: string)
    requires Over(w, n, x, vars, v, items) && Guarded(x.guards) && x.depth <= MAX_DEPTH && w.branches
    requires Ranged(w, n, x, vars, items).stop.Normal? || Ranged(w, n, x, vars, items).stop.Breaking?
    requires which == (if items != [] then "else" else "body") && guard == Guard(n.loc, "range", n.pipe, which)
    ensures
      var inside := Ranged(w, n, x, vars, items);
      var after := inside.vars[..|vars|];
      RunNode(w, n, x, vars).record
      == Join(ReadRecord(Pipeline(w, n.pipe, x.dot, vars).chains, x.guards),
           Join(inside.record,
             Join(Record([], [ArmOf(w, n, x, v, "range", if items != [] then "body" else "empty")], []),
               if items != [] then Explore(w, x, guard, x.dot, n.elseList, after)
               else ExploreBlock(w, x, guard, w.host.nothing, n.list, Unbound(w, after, n.pipe.decl)))))
  {
    RangeUnfolds(w, n, x, vars, v);
    ItemsUnfold(w, n, x, vars, v, items);
  }

  lemma {:induction false} UnboundIs(w: World, vars: seq<Variable>, names: seq<string>)
    ensures Unbound(w, vars, names) == Declared(vars, names, w.host.nothing)
    decreases |names|
  {
    if names != [] { UnboundIs(w, vars + [Variable(names[0], w.host.nothing)], names[1..]); }
    assert Declared(vars, names, w.host.nothing) ==
        if names == [] then vars
        else Declared(vars + [Variable(names[0], w.host.nothing)], names[1..], w.host.nothing);
  }

  lemma RangeGuard(n: Node, which: string, guard: string)
    requires n.Range? && (which == "else" || which == "body")
    requires guard == n.loc + " range " + n.pipe.text + (if which == "else" then " (else)" else " (body)")
    ensures Guard(n.loc, "range", n.pipe, which) == guard
  {
    assert " " + "range" + " " == " range ";
    assert " (" + which + ")" == if which == "else" then " (else)" else " (body)";
    GuardText(n.loc, "range", n.pipe, which, guard);
  }

  /** When a range that iterated ends, its else-list is explored on the dot of the node. */
  lemma {:induction false} RangeElseExplored(w: World, n: Node, x: Place, vars: seq<Variable>, v: Value,
      items: seq<(Value, Value)>, guard: string)
    requires Over(w, n, x, vars, v, items) && items != [] && n.elseList.Some?
    requires Guarded(x.guards) && x.depth <= MAX_DEPTH
    requires guard == n.loc + " range " + n.pipe.text + " (else)" && Enters(w, x, guard)
    requires Ranged(w, n, x, vars, items).stop.Normal? || Ranged(w, n, x, vars, items).stop.Breaking?
    ensures
      var inside := Ranged(w, n, x, vars, items);
      var other := Untaken(w, x, guard, x.dot, n.elseList.value, inside.vars[..|vars|]);
      RecountsRange(RunNode(w, n, x, vars).record, Pipeline(w, n.pipe, x.dot, vars).chains, x.guards,
        inside.record, ArmOf(w, n, x, v, "range", "body"), other.record, [Entry(guard, other)])
  {
    var inside := Ranged(w, n, x, vars, items);
    var other := Untaken(w, x, guard, x.dot, n.elseList.value, inside.vars[..|vars|]);
    RangeGuard(n, "else", guard);
    RangeRecord(w, n, x, vars, v, items, "else", guard);
    ExploringAdds(w, x, guard, x.dot, n.elseList.value, inside.vars[..|vars|]);
    RangeRecounted(Pipeline(w, n.pipe, x.dot, vars).chains, x.guards, inside.record, ArmOf(w, n, x, v, "range", "body"),
      other.record, [Entry(guard, other)]);
  }

  /** When there was nothing to iterate over, the body is: on no value, and its variables bound to no value. */
  lemma {:induction false} RangeBodyExplored(w: World, n: Node, x: Place, vars: seq<Variable>, v: Value, guard: string)
    requires Over(w, n, x, vars, v, []) && Guarded(x.guards) && x.depth <= MAX_DEPTH
    requires guard == n.loc + " range " + n.pipe.text + " (body)" && Enters(w, x, guard)
    requires Ranged(w, n, x, vars, []).stop.Normal? || Ranged(w, n, x, vars, []).stop.Breaking?
    ensures
      var inside := Ranged(w, n, x, vars, []);
      var other := Untaken(w, x, guard, w.host.nothing, n.list,
        Declared(inside.vars[..|vars|], n.pipe.decl, w.host.nothing));
      RecountsRange(RunNode(w, n, x, vars).record, Pipeline(w, n.pipe, x.dot, vars).chains, x.guards,
        inside.record, ArmOf(w, n, x, v, "range", "empty"), other.record, [Entry(guard, other)])
  {
    var inside := Ranged(w, n, x, vars, []);
    var seen := Declared(inside.vars[..|vars|], n.pipe.decl, w.host.nothing);
    var other := Untaken(w, x, guard, w.host.nothing, n.list, seen);
    RangeGuard(n, "body", guard);
    UnboundIs(w, inside.vars[..|vars|], n.pipe.decl);
    RangeRecord(w, n, x, vars, v, [], "body", guard);
    ExploringAdds(w, x, guard, w.host.nothing, n.list, seen);
    RangeRecounted(Pipeline(w, n.pipe, x.dot, vars).chains, x.guards, inside.record,
      ArmOf(w, n, x, v, "range", "empty"), other.record, [Entry(guard, other)]);
  }

  /** Otherwise nothing is explored. */
  lemma {:induction false} RangeNothingExplored(w: World, n: Node, x: Place, vars: seq<Variable>, v: Value,
      items: seq<(Value, Value)>, guard: string)
    requires Over(w, n, x, vars, v, items) && Guarded(x.guards) && x.depth <= MAX_DEPTH && w.branches
    requires guard == n.loc + " range " + n.pipe.text + (if items != [] then " (else)" else " (body)")
    requires !Enters(w, x, guard) || (items != [] && n.elseList.None?)
    requires Ranged(w, n, x, vars, items).stop.Normal? || Ranged(w, n, x, vars, items).stop.Breaking?
    ensures RecountsRange(RunNode(w, n, x, vars).record, Pipeline(w, n.pipe, x.dot, vars).chains, x.guards,
              Ranged(w, n, x, vars, items).record,
              ArmOf(w, n, x, v, "range", if items != [] then "body" else "empty"), Record([], [], []), [])
  {
    var inside, which := Ranged(w, n, x, vars, items), if items != [] then "else" else "body";
    var after := inside.vars[..|vars|];
    RangeGuard(n, which, guard);
    RangeRecord(w, n, x, vars, v, items, which, guard);
    if items == [] {
      ExploringAdds(w, x, guard, w.host.nothing, n.list, Unbound(w, after, n.pipe.decl));
    } else if n.elseList.Some? {
      ExploringAdds(w, x, guard, x.dot, n.elseList.value, after);
    }
    var arm := ArmOf(w, n, x, v, "range", if items != [] then "body" else "empty");
    RangeRecounted(Pipeline(w, n.pipe, x.dot, vars).chains, x.guards, inside.record, arm, Record([], [], []), []);
    assert Join(Record([], [], []), Record([], [], [])) == EMPTY;
  }

  // ----- templates -----

  /** A template runs on its argument, or on no value, with `$` alone on its stack, one deeper and behind the output so
      far; afterwards the caller's stack is back. */
  lemma {:induction false} CallLaw(w: World, n: Node, x: Place, vars: seq<Variable>, v: Value)
    requires n.Call? && Guarded(x.guards) && x.depth < 100000 && n.name in w.templates
    requires if n.arg.Some? then Pipeline(w, n.arg.value, x.dot, vars).result == Yields(v) else v == w.host.nothing
    ensures
      var callee := RunBlock(w, w.templates[n.name], Place(v, x.depth + 1, x.guards, x.counting, x.at),
          [Variable("$", v)]);
      var r, cs := RunNode(w, n, x, vars), if n.arg.Some? then Pipeline(w, n.arg.value, x.dot, vars).chains else [];
      && r.stop == callee.stop && r.text == callee.text && r.spans == callee.spans
      && r.vars == (if n.arg.Some? then Pipeline(w, n.arg.value, x.dot, vars).vars else vars)
      && LogIs(r.record.log, cs, x.guards, callee.record.log) && r.record.arms == callee.record.arms
      && r.record.explored == callee.record.explored
  {
    var cs := if n.arg.Some? then Pipeline(w, n.arg.value, x.dot, vars).chains else [];
    var callee := RunBlock(w, w.templates[n.name], Place(v, x.depth + 1, x.guards, x.counting, x.at),
        [Variable("$", v)]);
    LogIsReads(cs, x.guards, callee.record.log);
    assert [] + callee.record.arms == callee.record.arms && [] + callee.record.explored == callee.record.explored;
  }

  /** A template that is not defined, one too deep, and an argument that fails stop the render. */
  lemma {:induction false} CallFailure(w: World, n: Node, x: Place, vars: seq<Variable>)
    requires n.Call? && Guarded(x.guards) && x.depth <= 100000
    ensures
      var r := RunNode(w, n, x, vars);
      && (n.name !in w.templates ==> r.stop == Failing("template not defined"))
      && (n.name in w.templates && x.depth == 100000 ==> r.stop == Failing("exceeded maximum template depth"))
      && (n.name in w.templates && x.depth < 100000 && n.arg.Some? ==>
          var e := Pipeline(w, n.arg.value, x.dot, vars);
          e.result.Fails? ==> r.stop == Failing(e.result.message) && r.text == "")
  {}
}
