/** tsbridge.c, the registry of trees: a fixed table whose least recently used entry makes room. */
module TreeServer {
  import opened SyntaxTree
  import opened Sets

  const MAXTREE: nat := 512
  const ULONG_MAX: nat := 0xffff_ffff_ffff_ffff

  datatype Source = Source(lang: int, text: string)

  /** What the program is given: the parser, and the answer a tree gives to a request. */
  datatype Grammar = Grammar(parse: Source -> Tree, answer: (Tree, string) -> string)

  /** `Miss` is the answer about a tree the server no longer has. */
  datatype Reply = Reply(text: string) | Miss

  // ----- the registry as a list, least recently used first -----

  datatype Held = Held(id: nat, tree: Tree)

  ghost predicate Distinct(l: seq<Held>) {
    forall i, j | 0 <= i < j < |l| :: l[i].id != l[j].id
  }

  /** Where the tree with this id is, or -1. */
  function Position(l: seq<Held>, id: nat): (k: int)
    ensures -1 <= k < |l|
    ensures k >= 0 ==> l[k].id == id
    ensures k == -1 ==> forall i | 0 <= i < |l| :: l[i].id != id
  {
    if l == [] then -1
    else if l[|l| - 1].id == id then |l| - 1
    else Position(l[..|l| - 1], id)
  }

  function Removed(l: seq<Held>, id: nat): seq<Held> {
    var k := Position(l, id);
    if k < 0 then l else l[..k] + l[k + 1..]
  }

  /** A use moves the tree to the recent end. */
  function Touched(l: seq<Held>, id: nat): seq<Held> {
    var k := Position(l, id);
    if k < 0 then l else l[..k] + l[k + 1..] + [l[k]]
  }

  /** A new tree comes in at the recent end; a full registry first loses its least recently used tree. */
  function Opened(l: seq<Held>, h: Held): seq<Held> {
    (if |l| == MAXTREE then l[1..] else l) + [h]
  }

  function Answered(g: Grammar, l: seq<Held>, id: nat, req: string): Reply {
    var k := Position(l, id);
    if k < 0 then Miss else Reply(g.answer(l[k].tree, req))
  }

  lemma {:induction false} PositionIs(l: seq<Held>, k: nat)
    requires k < |l| && Distinct(l)
    ensures Position(l, l[k].id) == k
  {
    var found := Position(l, l[k].id);
    assert found >= 0;
  }

  // ----- the table -----

  datatype Slot = Empty | Live(id: nat, tree: Tree, used: nat)

  /** The table holds the trees of `l`: the one at rank `k` in slot `at[k]`, and the later ones used later. */
  ghost predicate Ranks(slots: seq<Slot>, tick: nat, l: seq<Held>, at: seq<nat>) {
    && |at| == |l|
    && (forall k | 0 <= k < |at| :: InSlot(slots, tick, l[k], at[k]))
    && (forall k, m | 0 <= k < m < |at| :: slots[at[k]].used < slots[at[m]].used)
    && (forall i | 0 <= i < |slots| && slots[i].Live? :: i in at)
    && Distinct(l)
  }

  ghost predicate InSlot(slots: seq<Slot>, tick: nat, h: Held, i: nat) {
    i < |slots| && slots[i].Live? && slots[i].id == h.id && slots[i].tree == h.tree && slots[i].used <= tick
  }

  function Without<T>(s: seq<T>, k: nat): seq<T>
    requires k < |s|
  {
    s[..k] + s[k + 1..]
  }

  lemma RankOf(slots: seq<Slot>, tick: nat, l: seq<Held>, at: seq<nat>, i: nat) returns (k: nat)
    requires Ranks(slots, tick, l, at) && i < |slots| && slots[i].Live?
    ensures k < |l| && at[k] == i && Position(l, slots[i].id) == k
  {
    assert i in at;
    k :| 0 <= k < |at| && at[k] == i;
    assert InSlot(slots, tick, l[k], at[k]);
    PositionIs(l, k);
  }

  function Was(m: nat, k: nat): nat { if m < k then m else m + 1 }

  lemma WithoutAt<T>(s: seq<T>, k: nat, m: nat)
    requires k < |s| && m < |s| - 1
    ensures Without(s, k)[m] == s[Was(m, k)]
  {}

  lemma StillOrdered(slots: seq<Slot>, tick: nat, l: seq<Held>, at: seq<nat>, k: nat, a: nat, b: nat)
    requires Ranks(slots, tick, l, at) && k < |l| && a < b < |l| - 1
    ensures
      var after, rest, ranks := slots[at[k] := Empty], Without(l, k), Without(at, k);
      InSlot(after, tick, rest[a], ranks[a]) && InSlot(after, tick, rest[b], ranks[b]) &&
      after[ranks[a]].used < after[ranks[b]].used && rest[a].id != rest[b].id
  {
    StillThere(slots, tick, l, at, k, a);
    StillThere(slots, tick, l, at, k, b);
  }

  lemma StillThere(slots: seq<Slot>, tick: nat, l: seq<Held>, at: seq<nat>, k: nat, m: nat)
    requires Ranks(slots, tick, l, at) && k < |l| && m < |l| - 1
    ensures
      var after, rest, ranks := slots[at[k] := Empty], Without(l, k), Without(at, k);
      InSlot(after, tick, rest[m], ranks[m]) && after[ranks[m]] == slots[at[Was(m, k)]] &&
      rest[m] == l[Was(m, k)]
  {
    var was := Was(m, k);
    WithoutAt(at, k, m);
    WithoutAt(l, k, m);
    assert InSlot(slots, tick, l[was], at[was]) && InSlot(slots, tick, l[k], at[k]);
    assert slots[at[was]].used != slots[at[k]].used;
  }

  /** Emptying a slot removes its tree. */
  lemma Dropped(slots: seq<Slot>, tick: nat, l: seq<Held>, at: seq<nat>, k: nat)
    requires Ranks(slots, tick, l, at) && k < |l|
    ensures at[k] < |slots| && Ranks(slots[at[k] := Empty], tick, Without(l, k), Without(at, k))
  {
    var after, rest, ranks := slots[at[k] := Empty], Without(l, k), Without(at, k);
    forall m | 0 <= m < |ranks| ensures InSlot(after, tick, rest[m], ranks[m]) {
      StillThere(slots, tick, l, at, k, m);
    }
    forall a, b | 0 <= a < b < |ranks|
      ensures after[ranks[a]].used < after[ranks[b]].used && rest[a].id != rest[b].id
    {
      StillOrdered(slots, tick, l, at, k, a, b);
    }
    forall i | 0 <= i < |after| && after[i].Live? ensures i in ranks {
      var was := RankOf(slots, tick, l, at, i);
      var m := if was < k then was else was - 1;
      WithoutAt(at, k, m);
    }
  }

  /** Filling a free slot at a later time adds its tree at the recent end. */
  lemma Filled(slots: seq<Slot>, tick: nat, l: seq<Held>, at: seq<nat>, i: nat, s: Slot)
    requires Ranks(slots, tick, l, at) && i < |slots| && slots[i].Empty?
    requires s.Live? && s.used == tick + 1 && Position(l, s.id) < 0
    ensures Ranks(slots[i := s], tick + 1, l + [Held(s.id, s.tree)], at + [i])
  {
    var after, more, ranks := slots[i := s], l + [Held(s.id, s.tree)], at + [i];
    forall m | 0 <= m < |ranks| ensures InSlot(after, tick + 1, more[m], ranks[m]) {
      if m < |l| { assert InSlot(slots, tick, l[m], at[m]); }
    }
    forall j | 0 <= j < |after| && after[j].Live? ensures j in ranks {
      if j == i { assert ranks[|l|] == i; } else { assert j in at; }
    }
  }

  lemma WithoutLacks(l: seq<Held>, k: nat)
    requires Distinct(l) && k < |l|
    ensures Position(Without(l, k), l[k].id) < 0
  {
    assert forall m | 0 <= m < |l| - 1 :: Without(l, k)[m] == l[Was(m, k)];
  }

  /** Using a tree again is dropping it and filling its slot at once. */
  lemma Used(slots: seq<Slot>, tick: nat, l: seq<Held>, at: seq<nat>, k: nat)
    requires Ranks(slots, tick, l, at) && k < |l|
    ensures at[k] < |slots| && slots[at[k]].Live? &&
            var again := slots[at[k]].(used := tick + 1);
            Ranks(slots[at[k] := again], tick + 1, Touched(l, l[k].id), Without(at, k) + [at[k]])
  {
    assert InSlot(slots, tick, l[k], at[k]);
    var i, again := at[k], slots[at[k]].(used := tick + 1);
    PositionIs(l, k);
    Dropped(slots, tick, l, at, k);
    WithoutLacks(l, k);
    Filled(slots[i := Empty], tick, Without(l, k), Without(at, k), i, again);
    assert slots[i := Empty][i := again] == slots[i := again];
  }

  lemma NotHeld(slots: seq<Slot>, tick: nat, l: seq<Held>, at: seq<nat>, id: nat)
    requires Ranks(slots, tick, l, at)
    requires forall i | 0 <= i < |slots| && slots[i].Live? :: slots[i].id != id
    ensures Position(l, id) < 0
  {
    var k := Position(l, id);
    assert k >= 0 ==> InSlot(slots, tick, l[k], at[k]);
  }

  /** A tree that was just used is removed from the recent end. */
  lemma TouchedRemoved(l: seq<Held>, id: nat)
    requires Distinct(l)
    ensures Removed(Touched(l, id), id) == Removed(l, id)
  {
    var t := Touched(l, id);
    if Position(l, id) >= 0 {
      assert t[|t| - 1].id == id && Position(t, id) == |t| - 1;
    }
  }

  lemma Evicted(l: seq<Held>)
    requires Distinct(l)
    ensures l != [] ==> Removed(l, l[0].id) == l[1..]
  {
    if l != [] { PositionIs(l, 0); }
  }

  lemma Timely(slots: seq<Slot>, tick: nat, l: seq<Held>, at: seq<nat>, i: nat)
    requires Ranks(slots, tick, l, at) && i < |slots| && slots[i].Live?
    ensures slots[i].used <= tick
  {
    var k := RankOf(slots, tick, l, at, i);
    assert InSlot(slots, tick, l[k], at[k]);
  }

  // ----- how full the table is -----

  ghost function Elements(s: seq<nat>): (r: set<nat>)
    requires forall i, j | 0 <= i < j < |s| :: s[i] != s[j]
    ensures |r| == |s| && forall x :: x in r <==> x in s
  {
    if s == [] then {}
    else
      var most := s[..|s| - 1];
      assert s == most + [s[|s| - 1]];
      Elements(most) + {s[|s| - 1]}
  }

  ghost function Below(n: nat): (r: set<nat>)
    ensures |r| == n && forall i: nat :: i in r <==> i < n
  {
    if n == 0 then {} else Below(n - 1) + {n - 1}
  }

  /** The list is as long as the table has live slots. */
  lemma HowFull(slots: seq<Slot>, tick: nat, l: seq<Held>, at: seq<nat>)
    requires Ranks(slots, tick, l, at)
    ensures |l| <= |slots|
    ensures |l| == |slots| <==> forall i | 0 <= i < |slots| :: slots[i].Live?
  {
    assert forall k | 0 <= k < |at| :: InSlot(slots, tick, l[k], at[k]);
    var used, all := Elements(at), Below(|slots|);
    Smaller(used, all);
    if used == all {
      forall i | 0 <= i < |slots| ensures slots[i].Live? { assert i in all; }
    } else {
      var i :| i in all && i !in used;
      assert !slots[i].Live?;
    }
  }

  /** In a full table the least `used` is that of the first tree of the list. */
  lemma Oldest(slots: seq<Slot>, tick: nat, l: seq<Held>, at: seq<nat>, i: nat)
    requires Ranks(slots, tick, l, at) && i < |slots| && slots[i].Live?
    requires forall j | 0 <= j < |slots| :: slots[j].Live? && slots[i].used <= slots[j].used
    ensures l != [] && at[0] == i && l[0].id == slots[i].id
  {
    var k := RankOf(slots, tick, l, at, i);
    assert InSlot(slots, tick, l[0], at[0]);
  }

  // ----- the whole state, and its steps -----

  /** The table, the clock, the list it stands for, the slot of each rank, and the sources parsed so far: number `n`
      is the one id `n + 1` was given for. */
  datatype Registry = Registry(slots: seq<Slot>, tick: nat, lru: seq<Held>, at: seq<nat>, made: seq<Source>)

  /** Every held tree is the parse of the source its id was given for. */
  ghost predicate Made(g: Grammar, l: seq<Held>, made: seq<Source>) {
    forall k | 0 <= k < |l| :: 1 <= l[k].id <= |made| && l[k].tree == g.parse(made[l[k].id - 1])
  }

  ghost predicate Sound(g: Grammar, r: Registry) {
    |r.slots| == MAXTREE && Ranks(r.slots, r.tick, r.lru, r.at) && Made(g, r.lru, r.made)
  }

  lemma Use(g: Grammar, r: Registry, i: nat) returns (next: Registry)
    requires Sound(g, r) && i < MAXTREE && r.slots[i].Live?
    ensures Sound(g, next) && next.made == r.made && next.tick == r.tick + 1
    ensures next.slots == r.slots[i := r.slots[i].(used := next.tick)]
    ensures var k := Position(r.lru, r.slots[i].id);
            k >= 0 && r.lru[k].tree == r.slots[i].tree
    ensures next.lru == Touched(r.lru, r.slots[i].id)
  {
    var k := RankOf(r.slots, r.tick, r.lru, r.at, i);
    assert InSlot(r.slots, r.tick, r.lru[k], r.at[k]);
    Used(r.slots, r.tick, r.lru, r.at, k);
    MadeTouched(g, r.lru, r.made, r.slots[i].id);
    next := Registry(r.slots[i := r.slots[i].(used := r.tick + 1)], r.tick + 1, Touched(r.lru, r.slots[i].id),
                     Without(r.at, k) + [i], r.made);
  }

  lemma Vacate(g: Grammar, r: Registry, i: nat) returns (next: Registry)
    requires Sound(g, r) && i < MAXTREE && r.slots[i].Live?
    ensures Sound(g, next) && next.made == r.made && next.tick == r.tick
    ensures next.slots == r.slots[i := Empty] && next.lru == Removed(r.lru, r.slots[i].id)
  {
    var k := RankOf(r.slots, r.tick, r.lru, r.at, i);
    Dropped(r.slots, r.tick, r.lru, r.at, k);
    next := Registry(r.slots[i := Empty], r.tick, Without(r.lru, k), Without(r.at, k), r.made);
  }

  lemma Admit(g: Grammar, r: Registry, i: nat, src: Source) returns (next: Registry)
    requires Sound(g, r) && i < MAXTREE && r.slots[i].Empty?
    ensures Sound(g, next) && next.made == r.made + [src] && next.tick == r.tick + 1
    ensures next.slots == r.slots[i := Live(|r.made| + 1, g.parse(src), r.tick + 1)]
    ensures next.lru == r.lru + [Held(|r.made| + 1, g.parse(src))]
  {
    var s := Live(|r.made| + 1, g.parse(src), r.tick + 1);
    Filled(r.slots, r.tick, r.lru, r.at, i, s);
    next := Registry(r.slots[i := s], r.tick + 1, r.lru + [Held(s.id, s.tree)], r.at + [i], r.made + [src]);
  }

  lemma MadeTouched(g: Grammar, l: seq<Held>, made: seq<Source>, id: nat)
    requires Made(g, l, made)
    ensures Made(g, Touched(l, id), made)
  {}

  // ----- the server -----

  class Server {
    const g: Grammar
    const trees: array<Slot>
    var tick: nat
    var nextId: nat
    ghost var r: Registry

    ghost predicate Valid()
      reads this, trees
    {
      trees[..] == r.slots && tick == r.tick && nextId == |r.made| + 1 && Sound(g, r)
    }

    constructor (grammar: Grammar)
      ensures Valid() && g == grammar && r.lru == [] && r.made == [] && tick == 0 && fresh(trees)
    {
      g, trees := grammar, new Slot[MAXTREE](_ => Empty);
      tick, nextId := 0, 1;
      r := Registry(seq(MAXTREE, _ => Empty), 0, [], [], []);
    }

    /** `slot_of`: a tree that is found is also used. */
    method SlotOf(id: nat) returns (slot: int)
      requires Valid()
      modifies this`tick, this`r, trees
      ensures Valid() && r.lru == Touched(old(r).lru, id) && r.made == old(r).made && tick <= old(tick) + 1
      ensures (slot < 0) == (Position(old(r).lru, id) < 0)
      ensures slot >= 0 ==> slot < MAXTREE && trees[slot].Live? && trees[slot].id == id
      ensures slot >= 0 ==> trees[slot].tree == old(r).lru[Position(old(r).lru, id)].tree
    {
      slot := Lookup(id);
      if slot >= 0 { Stamp(slot); }
    }

    /** `trees[i].used = ++tick` */
    method Stamp(slot: nat)
      requires Valid() && slot < MAXTREE && trees[slot].Live?
      modifies this`tick, this`r, trees
      ensures Valid() && r.made == old(r).made && tick == old(tick) + 1
      ensures trees[slot].Live? && trees[slot].id == old(trees[slot]).id && trees[slot].tree == old(trees[slot]).tree
      ensures r.lru == Touched(old(r).lru, trees[slot].id)
      ensures var k := Position(old(r).lru, trees[slot].id);
              k >= 0 && old(r).lru[k].tree == trees[slot].tree
    {
      ghost var next := Use(g, r, slot);
      tick := tick + 1;
      trees[slot] := trees[slot].(used := tick);
      r := next;
    }

    /** The scan of `slot_of`. */
    method Lookup(id: nat) returns (slot: int)
      requires Valid()
      ensures -1 <= slot < MAXTREE
      ensures slot >= 0 ==> trees[slot].Live? && trees[slot].id == id
      ensures slot < 0 ==> Position(r.lru, id) < 0
    {
      slot := 0;
      while slot < MAXTREE
        invariant 0 <= slot <= MAXTREE
        invariant forall i | 0 <= i < slot :: trees[i].Live? ==> trees[i].id != id
      {
        if trees[slot].Live? && trees[slot].id == id { return; }
        slot := slot + 1;
      }
      slot := -1;
      NotHeld(r.slots, tick, r.lru, r.at, id);
    }

    /** `drop` */
    method Drop(slot: nat)
      requires Valid() && slot < MAXTREE
      modifies this`r, trees
      ensures Valid() && trees[slot].Empty? && r.made == old(r).made
      ensures r.lru == if old(trees[slot]).Live? then Removed(old(r).lru, old(trees[slot]).id) else old(r).lru
    {
      if trees[slot].Empty? { return; }
      ghost var next := Vacate(g, r, slot);
      trees[slot] := Empty;
      r := next;
    }

    /** The choice made by `parse`: a free slot, else the one used least recently. */
    method Victim() returns (slot: nat)
      requires Valid() && tick < ULONG_MAX
      ensures slot < MAXTREE
      ensures trees[slot].Empty? ==> |r.lru| < MAXTREE
      ensures trees[slot].Live? ==> |r.lru| == MAXTREE && r.lru[0].id == trees[slot].id
    {
      ghost var view := r.slots;
      HowFull(view, tick, r.lru, r.at);
      var chosen, oldest, i := -1, ULONG_MAX, 0;
      while i < MAXTREE
        invariant 0 <= i <= MAXTREE && -1 <= chosen < i && (i > 0 ==> chosen >= 0)
        invariant forall j | 0 <= j < i :: trees[j].Live?
        invariant oldest == if chosen < 0 then ULONG_MAX else trees[chosen].used
        invariant forall j | 0 <= j < i :: oldest <= trees[j].used
      {
        if trees[i].Empty? {
          assert !view[i].Live?;
          return i;
        }
        Timely(view, tick, r.lru, r.at, i);
        if trees[i].used < oldest {
          oldest, chosen := trees[i].used, i;
        }
        i := i + 1;
      }
      slot := chosen;
      assert forall j | 0 <= j < MAXTREE :: view[j].Live?;
      Oldest(view, tick, r.lru, r.at, slot);
    }

    /** `parse`: the new tree takes the slot under a fresh id. */
    method Parse(src: Source) returns (id: nat)
      requires Valid() && tick < ULONG_MAX
      modifies this`tick, this`nextId, this`r, trees
      ensures Valid() && tick == old(tick) + 1
      ensures r.made == old(r).made + [src] && id == |r.made|
      ensures r.lru == Opened(old(r).lru, Held(id, g.parse(src)))
    {
      var slot := Victim();
      Evicted(r.lru);
      Drop(slot);
      id := Install(slot, src);
    }

    method Install(slot: nat, src: Source) returns (id: nat)
      requires Valid() && slot < MAXTREE && trees[slot].Empty?
      modifies this`tick, this`nextId, this`r, trees
      ensures Valid() && tick == old(tick) + 1
      ensures r.made == old(r).made + [src] && id == |r.made|
      ensures r.lru == old(r).lru + [Held(id, g.parse(src))]
    {
      ghost var next := Admit(g, r, slot, src);
      id := nextId;
      tick := tick + 1;
      trees[slot] := Live(id, g.parse(src), tick);
      nextId := nextId + 1;
      r := next;
    }

    /** `query`, `sexpr` and `desc`. */
    method Ask(id: nat, req: string) returns (reply: Reply)
      requires Valid()
      modifies this`tick, this`r, trees
      ensures Valid() && r.lru == Touched(old(r).lru, id) && r.made == old(r).made && tick <= old(tick) + 1
      ensures reply == Answered(g, old(r).lru, id, req)
    {
      var slot := SlotOf(id);
      if slot < 0 { return Miss; }
      reply := Reply(g.answer(trees[slot].tree, req));
    }

    /** `free` */
    method Free(id: nat)
      requires Valid()
      modifies this`tick, this`r, trees
      ensures Valid() && r.lru == Removed(old(r).lru, id) && r.made == old(r).made && tick <= old(tick) + 1
    {
      var slot := SlotOf(id);
      TouchedRemoved(old(r).lru, id);
      if slot >= 0 { Drop(slot); }
    }
  }
}
