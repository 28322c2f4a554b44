/** pack.js, `ts_tree`: a request about a tree, parsed again when the server no longer has it. */
module TreeRequests {
  import opened TreeServer

  /** The client's tree object: its source, and the id the server last gave it. */
  class Handle {
    const src: Source
    var tid: nat

    /** The id is one the server gave for this source. */
    ghost predicate Current(made: seq<Source>)
      reads this
    {
      1 <= tid <= |made| && made[tid - 1] == src
    }

    /** The id given by the server's answer to the first parse. */
    constructor (s: Source, id: nat)
      ensures src == s && tid == id
    {
      src, tid := s, id;
    }
  }

  /** What is held under an id is the parse of the source the id was given for: a request reaches that tree or none. */
  lemma HeldAnswer(g: Grammar, l: seq<Held>, made: seq<Source>, id: nat, req: string)
    requires Made(g, l, made) && 1 <= id <= |made|
    ensures Answered(g, l, id, req) == Miss
         || Answered(g, l, id, req) == Reply(g.answer(g.parse(made[id - 1]), req))
  {}

  /** A tree just opened is held. */
  lemma OpenedAnswers(g: Grammar, l: seq<Held>, h: Held, req: string)
    ensures Answered(g, Opened(l, h), h.id, req) == Reply(g.answer(h.tree, req))
  {
    var after := Opened(l, h);
    assert after[|after| - 1] == h;
  }

  // ----- over whole runs -----

  /** What may happen: a source is parsed into a new tree object, a request is made through one, the server is told to
      free an id. */
  datatype Event = Open(src: Source) | Request(handle: nat, req: string) | Free(id: nat)

  datatype Holder = Holder(src: Source, tid: nat)

  /** The server's list of trees, the sources it parsed, and the tree objects. */
  datatype World = World(lru: seq<Held>, made: seq<Source>, holders: seq<Holder>)

  function Parsed(g: Grammar, w: World, src: Source): World {
    w.(lru := Opened(w.lru, Held(|w.made| + 1, g.parse(src))), made := w.made + [src])
  }

  /** One event; a request through a tree object that does not exist gets no reply. */
  function Step(g: Grammar, w: World, e: Event): (World, Reply) {
    match e
    case Open(src) =>
      var next := Parsed(g, w, src);
      (next.(holders := w.holders + [Holder(src, |next.made|)]), Miss)
    case Free(id) => (w.(lru := Removed(w.lru, id)), Miss)
    case Request(h, req) =>
      if h >= |w.holders| then (w, Miss)
      else
        var t := w.holders[h];
        var asked := w.(lru := Touched(w.lru, t.tid));
        var reply := Answered(g, w.lru, t.tid, req);
        if reply.Reply? then (asked, reply)
        else
          var next := Parsed(g, asked, t.src);
          var id := |next.made|;
          (next.(lru := Touched(next.lru, id), holders := w.holders[h := t.(tid := id)]),
           Answered(g, next.lru, id, req))
  }

  function Replies(g: Grammar, w: World, events: seq<Event>): (replies: seq<Reply>)
    ensures |replies| == |events|
    decreases |events|
  {
    if events == [] then []
    else
      var (next, reply) := Step(g, w, events[0]);
      [reply] + Replies(g, next, events[1..])
  }

  /** A server that keeps every tree: a request is answered by the tree of its source. */
  function Forever(g: Grammar, sources: seq<Source>, events: seq<Event>): (replies: seq<Reply>)
    ensures |replies| == |events|
    decreases |events|
  {
    if events == [] then []
    else
      match events[0]
      case Open(src) => [Miss] + Forever(g, sources + [src], events[1..])
      case Free(_) => [Miss] + Forever(g, sources, events[1..])
      case Request(h, req) =>
        [if h < |sources| then Reply(g.answer(g.parse(sources[h]), req)) else Miss]
        + Forever(g, sources, events[1..])
  }

  ghost predicate Consistent(g: Grammar, w: World, sources: seq<Source>) {
    && ListSound(g, w.lru, w.made)
    && |w.holders| == |sources|
    && forall h | 0 <= h < |sources| :: HolderOf(w, h, sources[h])
  }

  ghost predicate HolderOf(w: World, h: nat, src: Source) {
    h < |w.holders| && w.holders[h].src == src && 1 <= w.holders[h].tid <= |w.made|
        && w.made[w.holders[h].tid - 1] == src
  }

  ghost predicate ListSound(g: Grammar, l: seq<Held>, made: seq<Source>) {
    Made(g, l, made) && Distinct(l) && |l| <= MAXTREE
  }

  /** The list keeps its invariants through every server request. */
  lemma ListRemoved(g: Grammar, l: seq<Held>, made: seq<Source>, id: nat)
    requires ListSound(g, l, made)
    ensures ListSound(g, Removed(l, id), made)
  {
    var k := Position(l, id);
    if k >= 0 { ListWithout(g, l, made, k); }
  }

  lemma ListWithout(g: Grammar, l: seq<Held>, made: seq<Source>, k: nat)
    requires ListSound(g, l, made) && k < |l|
    ensures ListSound(g, Without(l, k), made)
  {
    forall m | 0 <= m < |l| - 1 ensures Without(l, k)[m] == l[Was(m, k)] { WithoutAt(l, k, m); }
    forall a, b | 0 <= a < b < |l| - 1 ensures Without(l, k)[a].id != Without(l, k)[b].id {
      assert l[Was(a, k)].id != l[Was(b, k)].id;
    }
  }

  lemma ListTouched(g: Grammar, l: seq<Held>, made: seq<Source>, id: nat)
    requires ListSound(g, l, made)
    ensures ListSound(g, Touched(l, id), made)
  {
    var k := Position(l, id);
    if k >= 0 {
      ListWithout(g, l, made, k);
      forall m | 0 <= m < |l| - 1 ensures Without(l, k)[m].id != id {
        WithoutAt(l, k, m);
        assert l[Was(m, k)].id != l[k].id;
      }
    }
  }

  lemma ListOpened(g: Grammar, l: seq<Held>, made: seq<Source>, src: Source)
    requires ListSound(g, l, made)
    ensures ListSound(g, Opened(l, Held(|made| + 1, g.parse(src))), made + [src])
  {}

  lemma HoldersGrow(w: World, sources: seq<Source>, src: Source)
    requires |w.holders| == |sources| && forall h | 0 <= h < |sources| :: HolderOf(w, h, sources[h])
    ensures
      var next := World(w.lru, w.made + [src], w.holders + [Holder(src, |w.made| + 1)]);
      forall h | 0 <= h < |sources| + 1 :: HolderOf(next, h, (sources + [src])[h])
  {}

  /** A request answered at once. */
  lemma AskHeld(g: Grammar, w: World, sources: seq<Source>, h: nat, req: string)
    requires Consistent(g, w, sources) && h < |sources|
    requires Answered(g, w.lru, w.holders[h].tid, req).Reply?
    ensures Consistent(g, Step(g, w, Request(h, req)).0, sources)
    ensures Step(g, w, Request(h, req)).1 == Reply(g.answer(g.parse(sources[h]), req))
  {
    assert HolderOf(w, h, sources[h]);
    HeldAnswer(g, w.lru, w.made, w.holders[h].tid, req);
    ListTouched(g, w.lru, w.made, w.holders[h].tid);
    HoldersKept(w, Touched(w.lru, w.holders[h].tid), sources);
  }

  lemma HoldersKept(w: World, l: seq<Held>, sources: seq<Source>)
    requires |w.holders| == |sources| && forall k | 0 <= k < |sources| :: HolderOf(w, k, sources[k])
    ensures forall k | 0 <= k < |sources| :: HolderOf(w.(lru := l), k, sources[k])
  {
    forall k | 0 <= k < |sources| ensures HolderOf(w.(lru := l), k, sources[k]) {
      assert HolderOf(w, k, sources[k]);
    }
  }

  lemma StepMissed(g: Grammar, w: World, h: nat, req: string)
    requires h < |w.holders| && Answered(g, w.lru, w.holders[h].tid, req).Miss?
    ensures
      var t, id := w.holders[h], |w.made| + 1;
      var again := Opened(Touched(w.lru, t.tid), Held(id, g.parse(t.src)));
      Step(g, w, Request(h, req))
      == (World(Touched(again, id), w.made + [t.src], w.holders[h := t.(tid := id)]), Answered(g, again, id, req))
  {}

  /** A request that missed: the source is parsed again and the request made again. */
  lemma AskMissed(g: Grammar, w: World, sources: seq<Source>, h: nat, req: string)
    requires Consistent(g, w, sources) && h < |sources|
    requires Answered(g, w.lru, w.holders[h].tid, req).Miss?
    ensures Consistent(g, Step(g, w, Request(h, req)).0, sources)
    ensures Step(g, w, Request(h, req)).1 == Reply(g.answer(g.parse(sources[h]), req))
  {
    var src := sources[h];
    assert HolderOf(w, h, src);
    var asked := Touched(w.lru, w.holders[h].tid);
    var held := Held(|w.made| + 1, g.parse(src));
    var again := Opened(asked, held);
    ListTouched(g, w.lru, w.made, w.holders[h].tid);
    ListOpened(g, asked, w.made, src);
    OpenedAnswers(g, asked, held, req);
    ListTouched(g, again, w.made + [src], held.id);
    HolderMoves(w, Touched(again, held.id), sources, h);
    StepMissed(g, w, h, req);
  }

  lemma HolderMoves(w: World, l: seq<Held>, sources: seq<Source>, h: nat)
    requires |w.holders| == |sources| && h < |sources|
    requires forall k | 0 <= k < |sources| :: HolderOf(w, k, sources[k])
    ensures
      var next := World(l, w.made + [sources[h]], w.holders[h := w.holders[h].(tid := |w.made| + 1)]);
      forall k | 0 <= k < |sources| :: HolderOf(next, k, sources[k])
  {
    var next := World(l, w.made + [sources[h]], w.holders[h := w.holders[h].(tid := |w.made| + 1)]);
    forall k | 0 <= k < |sources| ensures HolderOf(next, k, sources[k]) {
      assert HolderOf(w, k, sources[k]);
    }
  }

  lemma StepConsistent(g: Grammar, w: World, sources: seq<Source>, e: Event)
    requires Consistent(g, w, sources)
    ensures Consistent(g, Step(g, w, e).0, if e.Open? then sources + [e.src] else sources)
    ensures Step(g, w, e).1 == if e.Request? && e.handle < |sources|
                               then Reply(g.answer(g.parse(sources[e.handle]), e.req)) else Miss
  {
    match e
    case Open(src) =>
      ListOpened(g, w.lru, w.made, src);
      HoldersGrow(w, sources, src);
    case Free(id) =>
      ListRemoved(g, w.lru, w.made, id);
    case Request(h, req) =>
      if h < |sources| {
        if Answered(g, w.lru, w.holders[h].tid, req).Miss? { AskMissed(g, w, sources, h, req); }
        else { AskHeld(g, w, sources, h, req); }
      }
  }

  /** Eviction is transparent: over any run, the replies are those of a server that keeps every tree. */
  lemma {:induction false} EvictionTransparent(g: Grammar, w: World, sources: seq<Source>, events: seq<Event>)
    requires Consistent(g, w, sources)
    ensures Replies(g, w, events) == Forever(g, sources, events)
    decreases |events|
  {
    if events != [] {
      var e := events[0];
      StepConsistent(g, w, sources, e);
      EvictionTransparent(g, Step(g, w, e).0, if e.Open? then sources + [e.src] else sources, events[1..]);
    }
  }

  // ----- the code -----

  /** What a server and one tree object amount to. */
  ghost function Seen(server: Server, t: Handle): World
    reads server, t
  {
    World(server.r.lru, server.r.made, [Holder(t.src, t.tid)])
  }

  lemma StepHeld(g: Grammar, w: World, h: nat, req: string)
    requires h < |w.holders| && Answered(g, w.lru, w.holders[h].tid, req).Reply?
    ensures Step(g, w, Request(h, req))
         == (w.(lru := Touched(w.lru, w.holders[h].tid)), Answered(g, w.lru, w.holders[h].tid, req))
  {}

  /** `ts_tree`: whatever the server evicted, the answer is that of the parse of the handle's source. */
  method TsTree(server: Server, t: Handle, req: string) returns (out: string)
    requires server.Valid() && t.Current(server.r.made) && server.tick + 3 < ULONG_MAX
    modifies server`tick, server`nextId, server`r, server.trees, t`tid
    ensures server.Valid() && t.Current(server.r.made) && server.tick <= old(server.tick) + 3
    ensures out == server.g.answer(server.g.parse(t.src), req)
    ensures old(server.r).made <= server.r.made
    ensures Step(server.g, old(Seen(server, t)), Request(0, req)) == (Seen(server, t), Reply(out))
  {
    ghost var w := Seen(server, t);
    HeldAnswer(server.g, server.r.lru, server.r.made, t.tid, req);
    var reply := server.Ask(t.tid, req);
    if reply.Miss? {
      out := AskAgain(server, t, req, w);
    } else {
      StepHeld(server.g, w, 0, req);
      out := reply.text;
    }
  }

  lemma StepAgain(g: Grammar, w: World, t: Holder, req: string, id: nat, again: seq<Held>)
    requires w.holders == [t] && Answered(g, w.lru, t.tid, req).Miss? && id == |w.made| + 1
    requires again == Opened(Touched(w.lru, t.tid), Held(id, g.parse(t.src)))
    ensures Step(g, w, Request(0, req))
         == (World(Touched(again, id), w.made + [t.src], [Holder(t.src, id)]), Reply(g.answer(g.parse(t.src), req)))
  {
    StepMissed(g, w, 0, req);
    OpenedAnswers(g, Touched(w.lru, t.tid), Held(id, g.parse(t.src)), req);
    assert w.holders[0 := Holder(t.src, id)] == [Holder(t.src, id)];
  }

  /** The source parsed again, and the request made again. */
  method AskAgain(server: Server, t: Handle, req: string, ghost w: World) returns (out: string)
    requires server.Valid() && server.tick + 2 < ULONG_MAX && Answered(server.g, w.lru, t.tid, req).Miss?
    requires Seen(server, t) == w.(lru := Touched(w.lru, t.tid))
    modifies server`tick, server`nextId, server`r, server.trees, t`tid
    ensures server.Valid() && server.tick <= old(server.tick) + 2
    ensures t.tid == |server.r.made| && server.r.made == old(server.r).made + [t.src]
    ensures out == server.g.answer(server.g.parse(t.src), req)
    ensures Step(server.g, w, Request(0, req)) == (Seen(server, t), Reply(out))
  {
    ghost var again := Opened(server.r.lru, Held(|w.made| + 1, server.g.parse(t.src)));
    StepAgain(server.g, w, Holder(t.src, t.tid), req, |w.made| + 1, again);
    OpenedAnswers(server.g, server.r.lru, Held(|w.made| + 1, server.g.parse(t.src)), req);
    t.tid := server.Parse(t.src);
    var reply := server.Ask(t.tid, req);
    out := reply.text;
  }
}
