/** tpl/exec.go and prov.go: templates, the abstract evaluator, and the record a render leaves. */
module Template {
  datatype Option<T> = None | Some(value: T)

  // ----- the parse tree -----

  /** A value, known only through the host's functions. */
  type Value = int

  /** An expression, known only through the host's evaluator. */
  type Expression = int

  /** A pipeline: its text, its expression, and the variables it declares or assigns. */
  datatype Pipe = Pipe(text: string, expr: Expression, decl: seq<string>, assign: bool)

  datatype Node =
    | Text(loc: string, text: string)
    | Action(loc: string, pipe: Pipe)
    | If(loc: string, pipe: Pipe, list: Block, elseList: Option<Block>)
    | With(loc: string, pipe: Pipe, list: Block, elseList: Option<Block>)
    | Range(loc: string, pipe: Pipe, list: Block, elseList: Option<Block>)
    | Call(loc: string, name: string, arg: Option<Pipe>)
    | Break(loc: string)
    | Continue(loc: string)
    | Comment

  datatype Block = Nil | Cons(head: Node, tail: Block)

  // ----- the host -----

  /** A `.Values` chain evaluated, and where. */
  datatype Chain = Chain(path: string, loc: string)

  /** What evaluating an expression yields: the chains it read on the way, and a value or an error. */
  datatype Evaluation = Evaluation(chains: seq<Chain>, result: Outcome)

  datatype Outcome = Yields(value: Value) | Fails(message: string)

  /** The evaluator and the properties of values the executor asks for. `items` gives the elements to iterate over with
      so many variables; `nothing` is the invalid value. */
  datatype Host = Host(eval: (Expression, Value, map<string, Value>) -> Evaluation,
                       truth: Value -> Option<bool>,
                       items: (Value, nat) -> Option<seq<(Value, Value)>>,
                       show: Value -> Option<string>,
                       describe: Value -> string,
                       nothing: Value)

  // ----- the record -----

  datatype Span = Span(start: nat, end: nat, loc: string, kind: string, values: seq<string>)

  datatype Read = Read(path: string, loc: string, untaken: bool, guard: string)

  datatype Arm = Arm(loc: string, kind: string, pipe: string, taken: string, hasElse: bool, value: string,
      untaken: bool)

  datatype Explored = Explored(guard: string, text: string, err: Option<string>)

  datatype Record = Record(log: seq<Read>, arms: seq<Arm>, explored: seq<Explored>)

  const EMPTY: Record := Record([], [], [])

  function Join(a: Record, b: Record): Record {
    Record(a.log + b.log, a.arms + b.arms, a.explored + b.explored)
  }

  // ----- variables -----

  datatype Variable = Variable(name: string, value: Value)

  /** The last variable declared with the name, or -1. */
  function LastIndex(vars: seq<Variable>, name: string): (i: int)
    ensures -1 <= i < |vars| && (i >= 0 ==> vars[i].name == name)
    ensures forall j | i < j < |vars| :: vars[j].name != name
  {
    if vars == [] then -1
    else if vars[|vars| - 1].name == name then |vars| - 1
    else LastIndex(vars[..|vars| - 1], name)
  }

  /** What an expression sees of the stack: for each name the last variable. */
  function Visible(vars: seq<Variable>): (m: map<string, Value>)
    ensures forall name :: name in m <==> LastIndex(vars, name) >= 0
    ensures forall name | name in m :: m[name] == vars[LastIndex(vars, name)].value
  {
    if vars == [] then map[]
    else Visible(vars[..|vars| - 1])[vars[|vars| - 1].name := vars[|vars| - 1].value]
  }

  // ----- removing "<no value>" -----

  const NO_VALUE: string := "<no value>"

  /** `strings.ReplaceAll(text, "<no value>", "")` from `i` on. */
  function Clean(text: string, i: nat): string
    decreases |text| - i
  {
    if i >= |text| then []
    else if NO_VALUE <= text[i..] then Clean(text, i + |NO_VALUE|)
    else [text[i]] + Clean(text, i + 1)
  }

  // ----- guards -----

  /** The bound on nested exploration. */
  const MAX_GUARDS: nat := 16

  /** The depth limit on templates within templates. */
  const MAX_DEPTH: nat := 100000

  /** The name of an untaken arm. */
  function Guard(loc: string, kind: string, pipe: Pipe, which: string): string {
    loc + " " + kind + " " + pipe.text + " (" + which + ")"
  }

  predicate Distinct(guards: seq<string>) {
    forall i, j | 0 <= i < j < |guards| :: guards[i] != guards[j]
  }

  predicate Guarded(guards: seq<string>) {
    |guards| <= MAX_GUARDS && Distinct(guards)
  }

  /** How a read is marked under these guards: taken, or untaken with the innermost one. */
  function MarkRead(c: Chain, guards: seq<string>): Read {
    if guards == [] then Read(c.path, c.loc, false, "") else Read(c.path, c.loc, true, guards[|guards| - 1])
  }

  function MarkReads(cs: seq<Chain>, guards: seq<string>): (rs: seq<Read>)
    ensures |rs| == |cs|
  {
    seq(|cs|, i requires 0 <= i < |cs| => MarkRead(cs[i], guards))
  }

  function Paths(cs: seq<Chain>): seq<string> {
    seq(|cs|, i requires 0 <= i < |cs| => cs[i].path)
  }
}
