/** pack.js, `mborder`, `mdel` and `$len`: the length operator and the border it remembers. */
module TableBorder {
  import opened LuaTables
  import opened Sets

  /** Lua 5.1 manual, section 2.5.5: a number whose entry is not nil, or zero, and whose successor's entry is nil. */
  predicate IsBorder(t: State, n: real) {
    && n >= 0.0 && n.Floor as real == n
    && (n > 0.0 ==> Look(t, Num(n)) != Nil)
    && Look(t, Num(n + 1.0)) == Nil
  }

  /** The remembered border holds: it is a natural number and every key up to it is present. */
  ghost predicate Remembers(t: State) {
    t.shape != ARRAY && t.border.Some? ==>
      && t.border.b >= 0.0 && t.border.b.Floor as real == t.border.b
      && forall i: int | 1 <= i <= t.border.b.Floor :: Get(t.hash, Int(i)) != Nil
  }

  function Start(t: State): real {
    if t.border.Some? then t.border.b else 0.0
  }

  function Up(s: real, j: int): real { s + j as real }

  /** `n` is where counting up from `s` meets the first absent key of the Map. */
  ghost predicate Counts(o: Ordered, s: real, n: real) {
    && Get(o, Num(n + 1.0)) == Nil
    && exists j: nat :: Up(s, j) == n && Run(o, s, j)
  }

  ghost predicate Run(o: Ordered, s: real, j: nat) {
    forall i: int | 1 <= i <= j :: Get(o, Num(Up(s, i))) != Nil
  }

  /** What `#` gives. */
  ghost predicate IsLength(t: State, n: real) {
    if t.shape == ARRAY then n == (|t.items| - 1) as real else Counts(t.hash, Start(t), n)
  }

  /** The keys above `b`: finitely many, so counting ends. */
  ghost function Above(o: Ordered, b: real): set<Value> {
    set k | k in o.vals && k.Num? && k.x > b
  }

  lemma OneFewer(o: Ordered, b: real)
    requires Get(o, Num(b + 1.0)) != Nil
    ensures |Above(o, b + 1.0)| < |Above(o, b)|
  {
    assert Num(b + 1.0) in Above(o, b);
    assert Above(o, b + 1.0) <= Above(o, b) - {Num(b + 1.0)};
    Smaller(Above(o, b + 1.0), Above(o, b) - {Num(b + 1.0)});
  }

  lemma RunMore(o: Ordered, s: real, j: nat)
    requires Run(o, s, j) && Get(o, Num(Up(s, j) + 1.0)) != Nil
    ensures Run(o, s, j + 1) && Up(s, j) + 1.0 == Up(s, j + 1)
  {}

  /** `mborder` */
  method MBorder(t: LuaTable) returns (b: real)
    requires WellFormed(t.View()) && t.hasHash
    modifies t`border
    ensures WellFormed(t.View()) && Counts(t.hash, Start(old(t.View())), b) && t.border == Some(b)
  {
    b := if t.border.Some? then t.border.b else 0.0;
    ghost var s, j: nat := b, 0;
    assert Up(s, j) == b && Run(t.hash, s, j);
    while Get(t.hash, Num(b + 1.0)) != Nil
      invariant b == Up(s, j) && Run(t.hash, s, j)
      decreases |Above(t.hash, b)|
    {
      OneFewer(t.hash, b);
      RunMore(t.hash, s, j);
      b, j := b + 1.0, j + 1;
    }
    t.border := Some(b);
  }

  /** `$len` of a table. */
  method Length(t: LuaTable) returns (n: real)
    requires WellFormed(t.View())
    modifies t`border
    ensures WellFormed(t.View()) && IsLength(old(t.View()), n)
    ensures t.border == if t.shape != ARRAY && t.hasHash then Some(n) else old(t.border)
  {
    match t.shape
    case ARRAY => n := (|t.items| - 1) as real;
    case MAP => n := MBorder(t);
    case RECORD =>
      if t.hasHash {
        n := MBorder(t);
      } else {
        n := 0.0;
        assert Up(0.0, 0) == 0.0 && Run(t.hash, 0.0, 0);
      }
  }

  /** While the remembered border holds, `#` is a border, and what it then remembers holds. */
  lemma LengthIsBorder(t: State, n: real)
    requires WellFormed(t) && Remembers(t) && IsLength(t, n)
    ensures IsBorder(t, n)
    ensures t.shape != ARRAY ==> Remembers(t.(border := Some(n)))
  {
    if t.shape == ARRAY {
      ArrayEnd(|t.items|, n);
    } else {
      var i := HashLength(t, n);
    }
  }

  lemma ArrayEnd(m: nat, n: real)
    requires m > 0 && n == (m - 1) as real
    ensures Num(n + 1.0) == Int(m) && IsIndex(Int(m)) && IndexOf(Int(m)) == m
    ensures m > 1 ==> Num(n) == Int(m - 1) && IsIndex(Int(m - 1)) && IndexOf(Int(m - 1)) == m - 1
  {
    assert n + 1.0 == m as real;
  }

  /** Counting from a border that holds ends at a natural number below which all is present. */
  lemma HashLength(t: State, n: real) returns (i: nat)
    requires t.shape != ARRAY && Remembers(t) && IsLength(t, n)
    ensures n == i as real && n.Floor == i && Num(n) == Int(i) && Get(t.hash, Num(n + 1.0)) == Nil
    ensures forall k: int | 1 <= k <= i :: Get(t.hash, Int(k)) != Nil
  {
    var j: nat :| Up(Start(t), j) == n && Run(t.hash, Start(t), j);
    var m := Start(t).Floor;
    assert Start(t) == m as real;
    AllPresent(t.hash, m, j);
    WholeRun(m, j, n);
    i := m + j;
  }

  lemma WholeRun(m: nat, j: nat, n: real)
    requires Up(m as real, j) == n
    ensures n == (m + j) as real && n.Floor == m + j && Num(n) == Int(m + j)
  {}

  /** A run above a natural number below which all is present. */
  lemma AllPresent(o: Ordered, m: nat, j: nat)
    requires forall i: int | 1 <= i <= m :: Get(o, Int(i)) != Nil
    requires Run(o, m as real, j)
    ensures forall i: int | 1 <= i <= m + j :: Get(o, Int(i)) != Nil
  {
    forall i: int | m < i <= m + j ensures Get(o, Int(i)) != Nil {
      assert i as real == Up(m as real, i - m);
    }
  }

  // ----- what a change does to the remembered border -----

  /** `rawset` of `k` to `v` leads from `t` to `u`. */
  ghost predicate Changed(t: State, u: State, k: Value, v: Value) {
    && WellFormed(t) && WellFormed(u) && t.shape == u.shape && k != Nil && k != NaN
    && (forall x :: Look(u, x) == if x == k then v else Look(t, x))
    && u.border == BorderAfter(t, k, v)
  }

  /** The change lowers the remembered border, and not by deleting a positive integer. */
  predicate Spoils(t: State, k: Value, v: Value) {
    v == Nil && t.shape != ARRAY && k.Num? && t.border.Some? && k.x <= t.border.b && !IsIndex(k)
  }

  /** A change keeps the remembered border right exactly when it does not spoil it. */
  lemma RemembersAfter(t: State, u: State, k: Value, v: Value)
    requires Changed(t, u, k, v) && Remembers(t)
    ensures Remembers(u) <==> !Spoils(t, k, v)
  {
    if t.shape != ARRAY && t.border.Some? {
      forall x: Value | x.Num? ensures Get(u.hash, x) == if x == k then v else Get(t.hash, x) {
        assert Look(u, x) == if x == k then v else Look(t, x);
      }
      if v == Nil && k.Num? && k.x <= t.border.b {
        assert u.border == Some(k.x - 1.0);
        assert (k.x - 1.0).Floor == k.x.Floor - 1;
      }
    }
  }

  /** Right after a change, `#` is a border exactly when the change did not spoil what it remembers. */
  lemma LengthAfter(t: State, u: State, k: Value, v: Value, n: real)
    requires Changed(t, u, k, v) && Remembers(t) && IsLength(u, n)
    ensures IsBorder(u, n) <==> !Spoils(t, k, v)
  {
    RemembersAfter(t, u, k, v);
    if Spoils(t, k, v) {
      var j: nat :| Up(Start(u), j) == n && Run(u.hash, Start(u), j);
      assert Look(u, k) == Nil && Get(u.hash, k) == Nil;
      assert k == Num(Up(Start(u), 1));
      assert j == 0;
      assert (n + 1.0).Floor == n.Floor + 1;
    } else {
      LengthIsBorder(u, n);
    }
  }

  /** Deleting key 0 of {1} after `#` was taken: the next `#` is -1. */
  lemma SpoiledExample()
    ensures
      var one := Ordered([Int(1)], map[Int(1) := Bool(true)]);
      var t := State(MAP, [Nil], NONE, one, true, Some(1.0));
      var u := t.(border := BorderAfter(t, Int(0), Nil));
      Changed(t, u, Int(0), Nil) && Remembers(t) && IsLength(t, 1.0) && IsLength(u, -1.0) && !IsBorder(u, -1.0)
  {
    var one := Ordered([Int(1)], map[Int(1) := Bool(true)]);
    assert Up(1.0, 0) == 1.0 && Run(one, 1.0, 0) && Up(-1.0, 0) == -1.0 && Run(one, -1.0, 0);
  }

  // ----- over whole runs -----

  datatype Event = Store(k: Value, v: Value) | Refused(k: Value) | Measure(n: real)

  ghost predicate Happens(t: State, e: Event, u: State) {
    match e
    case Store(k, v) => Changed(t, u, k, v)
    case Refused(k) => WellFormed(t) && (k == Nil || k == NaN) && u == t
    case Measure(n) =>
      WellFormed(t) && IsLength(t, n) && u == if t.shape != ARRAY && t.hasHash then t.(border := Some(n)) else t
  }

  /** A run: the states, and the events between them. */
  ghost predicate IsRun(states: seq<State>, events: seq<Event>) {
    |states| == |events| + 1 && forall i | 0 <= i < |events| :: Happens(states[i], events[i], states[i + 1])
  }

  /** Deletes of positive integers and of keys that are not numbers spoil nothing, so every `#` of the run is
      a border. */
  lemma {:induction false} EveryLengthIsABorder(states: seq<State>, events: seq<Event>)
    requires IsRun(states, events) && WellFormed(states[0]) && states[0].border == None
    requires forall i | 0 <= i < |events| && events[i].Store? ::
      events[i].v == Nil && events[i].k.Num? ==> IsIndex(events[i].k)
    ensures Remembers(states[|events|]) && WellFormed(states[|events|])
    ensures forall i | 0 <= i < |events| && events[i].Measure? :: IsBorder(states[i], events[i].n)
    decreases |events|
  {
    if events != [] {
      var m := |events| - 1;
      EveryLengthIsABorder(states[..m + 1], events[..m]);
      assert Happens(states[m], events[m], states[m + 1]);
      match events[m] {
        case Store(k, v) => RemembersAfter(states[m], states[m + 1], k, v);
        case Refused(_) =>
        case Measure(n) => LengthIsBorder(states[m], n);
      }
    }
  }

  /** The value last stored at a key: the finite map a history of `rawset` stands for. */
  function LastStored(events: seq<Event>, x: Value): Value {
    if events == [] then Nil
    else
      var last := events[|events| - 1];
      if last.Store? && last.k == x then last.v else LastStored(events[..|events| - 1], x)
  }

  /** Whatever its shape, a table that started empty holds at every key what was last stored there. */
  lemma {:induction false} ShapeIsInvisible(states: seq<State>, events: seq<Event>, x: Value)
    requires IsRun(states, events) && Look(states[0], x) == Nil
    ensures Look(states[|events|], x) == LastStored(events, x)
    decreases |events|
  {
    if events != [] {
      var m := |events| - 1;
      ShapeIsInvisible(states[..m + 1], events[..m], x);
      assert Happens(states[m], events[m], states[m + 1]);
    }
  }

  /** What a program asks of a table. */
  datatype Command = Put(k: Value, v: Value) | Count

  ghost predicate Did(c: Command, e: Event) {
    match c
    case Put(k, v) => e == if k == Nil || k == NaN then Refused(k) else Store(k, v)
    case Count => e.Measure?
  }

  lemma RunLonger(states: seq<State>, events: seq<Event>, e: Event, u: State)
    requires IsRun(states, events) && Happens(states[|events|], e, u)
    ensures IsRun(states + [u], events + [e])
  {}

  /** The commands carried out on a table, one after the other: every one of them is an event of a run. */
  method Perform(t: LuaTable, commands: seq<Command>) returns (ghost states: seq<State>, ghost events: seq<Event>)
    requires WellFormed(t.View())
    requires t.shape == ARRAY ==>
      forall i | 0 <= i < |commands| && commands[i].Put? && IsIndex(commands[i].k) ::
          IndexOf(commands[i].k) < ARRAY_LIMIT
    modifies t`items, t`fields, t`hash, t`hasHash, t`border
    ensures IsRun(states, events) && states[0] == old(t.View()) && states[|events|] == t.View() && WellFormed(t.View())
    ensures |events| == |commands| && forall i | 0 <= i < |commands| :: Did(commands[i], events[i])
  {
    states, events := [t.View()], [];
    var i := 0;
    while i < |commands|
      invariant 0 <= i <= |commands| && |events| == i && WellFormed(t.View())
      invariant IsRun(states, events) && states[0] == old(t.View()) && states[i] == t.View()
      invariant forall j | 0 <= j < i :: Did(commands[j], events[j])
    {
      ghost var e := PerformOne(t, commands[i]);
      RunLonger(states, events, e, t.View());
      states, events := states + [t.View()], events + [e];
      i := i + 1;
    }
  }

  method PerformOne(t: LuaTable, c: Command) returns (ghost e: Event)
    requires WellFormed(t.View())
    requires t.shape == ARRAY && c.Put? && IsIndex(c.k) ==> IndexOf(c.k) < ARRAY_LIMIT
    modifies t`items, t`fields, t`hash, t`hasHash, t`border
    ensures WellFormed(t.View()) && Happens(old(t.View()), e, t.View()) && Did(c, e)
  {
    match c
    case Put(k, v) =>
      var r := t.RawSet(k, v);
      e := if k == Nil || k == NaN then Refused(k) else Store(k, v);
    case Count =>
      var n := Length(t);
      e := Measure(n);
  }
}
