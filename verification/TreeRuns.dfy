/** tsbridge.c and pack.js: the server and its clients' tree objects through any sequence of events. */
module TreeRuns {
  import opened TreeServer
  import opened TreeRequests

  /** The server and the tree objects are as `w` says, each object another one. */
  ghost predicate Mirrors(w: World, server: Server, handles: seq<Handle>)
    reads server, handles
  {
    && w.lru == server.r.lru && w.made == server.r.made && |w.holders| == |handles|
    && (forall i | 0 <= i < |handles| :: w.holders[i] == Holder(handles[i].src, handles[i].tid))
    && forall i, j | 0 <= i < j < |handles| :: handles[i] != handles[j]
  }

  /** A request touches the tree object it is made through, and no other. */
  lemma StepOne(g: Grammar, w: World, h: nat, req: string)
    requires h < |w.holders|
    ensures
      var (one, reply) := Step(g, World(w.lru, w.made, [w.holders[h]]), Request(0, req));
      |one.holders| == 1
      && Step(g, w, Request(h, req)) == (World(one.lru, one.made, w.holders[h := one.holders[0]]), reply)
  {
    assert w.holders[h := w.holders[h]] == w.holders;
  }

  method OpenOne(server: Server, handles: seq<Handle>, src: Source, ghost w: World)
      returns (now: seq<Handle>, ghost next: World)
    requires server.Valid() && server.tick + 1 < ULONG_MAX && Mirrors(w, server, handles)
    modifies server`tick, server`nextId, server`r, server.trees
    ensures server.Valid() && server.tick <= old(server.tick) + 1
    ensures Step(server.g, w, Open(src)) == (next, Miss) && Mirrors(next, server, now)
    ensures |now| == |handles| + 1 && handles <= now && fresh(now[|handles|])
  {
    next := Step(server.g, w, Open(src)).0;
    var id := server.Parse(src);
    var t := new Handle(src, id);
    now := handles + [t];
  }

  method FreeOne(server: Server, id: nat, ghost handles: seq<Handle>, ghost w: World) returns (ghost next: World)
    requires server.Valid() && Mirrors(w, server, handles)
    modifies server`tick, server`r, server.trees
    ensures server.Valid() && server.tick <= old(server.tick) + 1
    ensures Step(server.g, w, Free(id)) == (next, Miss) && Mirrors(next, server, handles)
  {
    next := Step(server.g, w, Free(id)).0;
    server.Free(id);
  }

  method RequestOne(server: Server, t: Handle, req: string, ghost handles: seq<Handle>, ghost h: nat, ghost w: World,
      ghost src: Source) returns (reply: Reply, ghost next: World)
    requires server.Valid() && server.tick + 3 < ULONG_MAX && Mirrors(w, server, handles)
    requires h < |handles| && t == handles[h] && HolderOf(w, h, src)
    modifies server`tick, server`nextId, server`r, server.trees, t`tid
    ensures server.Valid() && server.tick <= old(server.tick) + 3
    ensures Step(server.g, w, Request(h, req)) == (next, reply) && Mirrors(next, server, handles)
  {
    next := Step(server.g, w, Request(h, req)).0;
    StepOne(server.g, w, h, req);
    assert w.holders[h] == Holder(t.src, t.tid);
    var out := TsTree(server, t, req);
    reply := Reply(out);
  }

  /** One event, on the server and the tree objects. */
  method PerformOne(server: Server, handles: seq<Handle>, e: Event, ghost w: World, ghost sources: seq<Source>,
      ghost objects: set<Handle>)
      returns (now: seq<Handle>, reply: Reply, ghost next: World, ghost more: set<Handle>)
    requires server.Valid() && server.tick + 3 < ULONG_MAX
    requires Mirrors(w, server, handles) && Consistent(server.g, w, sources)
    requires forall i | 0 <= i < |handles| :: handles[i] in objects
    modifies server`tick, server`nextId, server`r, server.trees, objects
    ensures server.Valid() && server.tick <= old(server.tick) + 3
    ensures Step(server.g, w, e) == (next, reply) && Mirrors(next, server, now)
    ensures fresh(more - objects) && forall i | 0 <= i < |now| :: now[i] in more
  {
    now, reply, next, more := handles, Miss, w, objects;
    match e
    case Open(src) =>
      now, next := OpenOne(server, handles, src, w);
      more := objects + {now[|handles|]};
    case Free(id) =>
      next := FreeOne(server, id, handles, w);
    case Request(h, req) =>
      if h < |handles| {
        HeldBy(server.g, w, sources, h);
        reply, next := RequestOne(server, handles[h], req, handles, h, w, sources[h]);
      }
  }

  lemma HeldBy(g: Grammar, w: World, sources: seq<Source>, h: nat)
    requires Consistent(g, w, sources) && h < |w.holders|
    ensures h < |sources| && HolderOf(w, h, sources[h])
  {}

  lemma {:induction false} OneReply(g: Grammar, w: World, events: seq<Event>, i: nat, replies: seq<Reply>)
    requires i < |events|
    ensures
      var (next, reply) := Step(g, w, events[i]);
      replies + Replies(g, w, events[i..]) == replies + [reply] + Replies(g, next, events[i + 1..])
  {
    assert events[i..][1..] == events[i + 1..];
  }

  lemma ServerSound(server: Server)
    requires server.Valid()
    ensures Consistent(server.g, World(server.r.lru, server.r.made, []), [])
  {
    HowFull(server.r.slots, server.tick, server.r.lru, server.r.at);
  }

  /** One event and its reply, with what is left to come. */
  method PerformNext(server: Server, handles: seq<Handle>, replies: seq<Reply>, events: seq<Event>, i: nat,
      ghost w: World, ghost sources: seq<Source>, ghost objects: set<Handle>)
      returns (now: seq<Handle>, all: seq<Reply>, ghost next: World, ghost later: seq<Source>, ghost more: set<Handle>)
    requires server.Valid() && server.tick + 3 < ULONG_MAX && i < |events|
    requires Mirrors(w, server, handles) && Consistent(server.g, w, sources)
    requires forall k | 0 <= k < |handles| :: handles[k] in objects
    modifies server`tick, server`nextId, server`r, server.trees, objects
    ensures server.Valid() && server.tick <= old(server.tick) + 3
    ensures Mirrors(next, server, now) && Consistent(server.g, next, later)
    ensures fresh(more - objects) && forall k | 0 <= k < |now| :: now[k] in more
    ensures all + Replies(server.g, next, events[i + 1..]) == replies + Replies(server.g, w, events[i..])
  {
    var e := events[i];
    StepConsistent(server.g, w, sources, e);
    OneReply(server.g, w, events, i, replies);
    later := if e.Open? then sources + [e.src] else sources;
    var reply;
    now, reply, next, more := PerformOne(server, handles, e, w, sources, objects);
    all := replies + [reply];
  }

  /** Any run on a server that is there: the replies are those of a server that keeps every tree. */
  method Perform(server: Server, events: seq<Event>) returns (replies: seq<Reply>)
    requires server.Valid() && server.tick + 3 * |events| + 3 < ULONG_MAX
    modifies server`tick, server`nextId, server`r, server.trees
    ensures server.Valid() && replies == Forever(server.g, [], events)
  {
    replies := [];
    var handles: seq<Handle> := [];
    ghost var w, sources := World(server.r.lru, server.r.made, []), [];
    ghost var objects: set<Handle> := {};
    ServerSound(server);
    EvictionTransparent(server.g, w, sources, events);
    for i := 0 to |events|
      invariant server.Valid() && server.tick <= old(server.tick) + 3 * i
      invariant Mirrors(w, server, handles) && Consistent(server.g, w, sources)
      invariant fresh(objects) && forall k | 0 <= k < |handles| :: handles[k] in objects
      invariant replies + Replies(server.g, w, events[i..]) == Forever(server.g, [], events)
    {
      handles, replies, w, sources, objects
        := PerformNext(server, handles, replies, events, i, w, sources, objects);
    }
    assert replies + [] == replies;
  }
}
