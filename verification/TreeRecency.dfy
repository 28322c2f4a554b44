/** tsbridge.c, the registry over whole runs: the trees are in the order of their last use, so the one that makes room
    was used least recently, and a tree stays while fewer than 512 others are used. */
module TreeRecency {
  import opened Sets
  import opened TreeServer

  datatype Event = Open(h: Held) | Use(id: nat) | Close(id: nat)

  function Named(e: Event): nat {
    match e
    case Open(h) => h.id
    case Use(id) => id
    case Close(id) => id
  }

  function Step(l: seq<Held>, e: Event): seq<Held> {
    match e
    case Open(h) => Opened(l, h)
    case Use(id) => Touched(l, id)
    case Close(id) => Removed(l, id)
  }

  function Last(es: seq<Event>): Event
    requires es != []
  {
    es[|es| - 1]
  }

  function Before(es: seq<Event>): seq<Event>
    requires es != []
  {
    es[..|es| - 1]
  }

  /** The list after a run of events. */
  function Run(es: seq<Event>): seq<Held> {
    if es == [] then [] else Step(Run(Before(es)), Last(es))
  }

  /** No id is given twice. */
  predicate FreshIds(es: seq<Event>) {
    forall i, j | 0 <= i < j < |es| && es[i].Open? && es[j].Open? :: es[i].h.id != es[j].h.id
  }

  /** When the id was last named, or -1. */
  function LastUse(es: seq<Event>, id: nat): (n: int)
    ensures -1 <= n < |es|
  {
    if es == [] then -1 else if Named(Last(es)) == id then |es| - 1 else LastUse(Before(es), id)
  }

  /** The list holds trees that were opened, each once, and the later ones were used later. */
  ghost predicate InOrder(es: seq<Event>, l: seq<Held>) {
    && (forall i | 0 <= i < |l| :: Open(l[i]) in es)
    && (forall i, j | 0 <= i < j < |l| :: l[i].id != l[j].id && LastUse(es, l[i].id) < LastUse(es, l[j].id))
  }

  /** Taking a tree away keeps the order. */
  lemma {:induction false} OrderWithout(es: seq<Event>, l: seq<Held>, k: nat)
    requires InOrder(es, l) && k < |l|
    ensures InOrder(es, Without(l, k)) && forall m | 0 <= m < |l| - 1 :: Without(l, k)[m].id != l[k].id
  {
    forall m | 0 <= m < |l| - 1
      ensures Without(l, k)[m] == l[Was(m, k)] && Without(l, k)[m].id != l[k].id
    {
      WithoutAt(l, k, m);
      assert if m < k then l[m].id != l[k].id else l[k].id != l[m + 1].id;
    }
  }

  /** An event about another tree changes nothing among these. */
  lemma {:induction false} OrderLater(es: seq<Event>, l: seq<Held>)
    requires es != [] && InOrder(Before(es), l) && forall i | 0 <= i < |l| :: l[i].id != Named(Last(es))
    ensures InOrder(es, l)
  {
    forall i | 0 <= i < |l|
      ensures Open(l[i]) in es && LastUse(es, l[i].id) == LastUse(Before(es), l[i].id)
    {
      assert es == Before(es) + [Last(es)];
    }
  }

  /** The tree named last goes at the end. */
  lemma {:induction false} OrderEnd(es: seq<Event>, l: seq<Held>, h: Held)
    requires es != [] && InOrder(Before(es), l) && forall i | 0 <= i < |l| :: l[i].id != h.id
    requires Named(Last(es)) == h.id && Open(h) in es
    ensures InOrder(es, l + [h])
  {
    OrderLater(es, l);
    forall i | 0 <= i < |l|
      ensures LastUse(es, l[i].id) < LastUse(es, h.id)
    {}
  }

  lemma {:induction false} OpenedBefore(es: seq<Event>, l: seq<Held>, i: nat)
    requires FreshIds(es) && es != [] && Last(es).Open? && InOrder(Before(es), l) && i < |l|
    ensures l[i].id != Last(es).h.id
  {
    var k :| 0 <= k < |es| - 1 && Before(es)[k] == Open(l[i]);
    assert es[k] == Open(l[i]);
  }

  /** After every run the trees stand in the order of their last use. */
  lemma {:induction false} RunInOrder(es: seq<Event>)
    requires FreshIds(es)
    ensures InOrder(es, Run(es))
    decreases |es|
  {
    if es != [] {
      RunInOrder(Before(es));
      var l := Run(Before(es));
      match Last(es)
      case Open(h) =>
        forall i | 0 <= i < |l| ensures l[i].id != h.id { OpenedBefore(es, l, i); }
        if |l| == MAXTREE {
          OrderWithout(Before(es), l, 0);
          assert Without(l, 0) == l[1..];
        }
        OrderEnd(es, if |l| == MAXTREE then l[1..] else l, h);
      case Use(id) => NamedInOrder(es, l, id);
      case Close(id) => NamedInOrder(es, l, id);
    }
  }

  lemma {:induction false} MovedOrGone(l: seq<Held>, m: nat, e: Event)
    requires m < |l| && m == Position(l, Named(e)) && !e.Open?
    ensures Step(l, e) == if e.Use? then Without(l, m) + [l[m]] else Without(l, m)
  {}

  lemma {:induction false} UsedInOrder(es: seq<Event>, l: seq<Held>, k: nat)
    requires es != [] && InOrder(Before(es), l) && k < |l| && Named(Last(es)) == l[k].id
    ensures InOrder(es, Without(l, k) + [l[k]]) && InOrder(es, Without(l, k))
  {
    OrderWithout(Before(es), l, k);
    OpenedStill(es, l[k]);
    OrderEnd(es, Without(l, k), l[k]);
    OrderLater(es, Without(l, k));
  }

  lemma OpenedStill(es: seq<Event>, h: Held)
    requires es != [] && Open(h) in Before(es)
    ensures Open(h) in es
  {}

  lemma {:induction false} NamedInOrder(es: seq<Event>, l: seq<Held>, id: nat)
    requires es != [] && InOrder(Before(es), l) && (Last(es) == Use(id) || Last(es) == Close(id))
    ensures InOrder(es, Step(l, Last(es)))
  {
    var k := Position(l, id);
    if k < 0 {
      OrderLater(es, l);
    } else {
      UsedInOrder(es, l, k);
      MovedOrGone(l, k, Last(es));
    }
  }

  /** So a full registry loses the tree whose last use is longest ago, and only that one. */
  lemma {:induction false} LeastRecentlyUsed(es: seq<Event>, h: Held)
    requires FreshIds(es + [Open(h)]) && |Run(es)| >= 512
    ensures
      var l := Run(es);
      && Run(es + [Open(h)]) == (if |l| == 512 then l[1..] else l) + [h]
      && forall i | 1 <= i < |l| :: LastUse(es, l[0].id) < LastUse(es, l[i].id)
  {
    assert Before(es + [Open(h)]) == es;
    assert FreshIds(es) by {
      forall i, j | 0 <= i < j < |es| && es[i].Open? && es[j].Open?
        ensures es[i].h.id != es[j].h.id
      {
        assert (es + [Open(h)])[i] == es[i] && (es + [Open(h)])[j] == es[j];
      }
    }
    RunInOrder(es);
  }

  // ----- how long a tree stays -----

  /** The other ids named since the id was. */
  function Others(es: seq<Event>, id: nat): set<nat> {
    if es == [] || Named(Last(es)) == id then {} else Others(Before(es), id) + {Named(Last(es))}
  }

  /** Since it was opened the tree was not closed, and never were as many as 512 others named between its uses. */
  predicate Kept(es: seq<Event>, id: nat) {
    es != [] && if Last(es).Open? && Last(es).h.id == id then true
                else Last(es) != Close(id) && Kept(Before(es), id) && |Others(es, id)| < 512
  }

  ghost function Ids(l: seq<Held>): (r: set<nat>)
    requires forall i, j | 0 <= i < j < |l| :: l[i].id != l[j].id
    ensures |r| == |l| && forall x :: x in r <==> exists i :: 0 <= i < |l| && l[i].id == x
  {
    if l == [] then {}
    else
      var most := l[..|l| - 1];
      assert l == most + [l[|l| - 1]];
      Ids(most) + {l[|l| - 1].id}
  }

  /** What was used after the tree is among the others named since. */
  lemma {:induction false} LaterNamed(es: seq<Event>, id: nat, other: nat)
    requires other != id && LastUse(es, id) < LastUse(es, other)
    ensures other in Others(es, id)
    decreases |es|
  {
    if Named(Last(es)) != other { LaterNamed(Before(es), id, other); }
  }

  /** When the tree is the oldest of a full registry and another one is opened, 512 others were named since. */
  lemma {:induction false} Crowded(es: seq<Event>, l: seq<Held>, id: nat)
    requires FreshIds(es) && es != [] && Last(es).Open? && Last(es).h.id != id && InOrder(Before(es), l)
    requires |l| == 512 && l[0].id == id
    ensures |Others(es, id)| >= 512
  {
    var tail, new0 := l[1..], Last(es).h.id;
    var ids := Ids(tail);
    forall x | x in ids
      ensures x != new0 && x in Others(Before(es), id)
    {
      var i :| 0 <= i < |tail| && tail[i].id == x;
      OpenedBefore(es, l, i + 1);
      assert l[0].id != l[i + 1].id && LastUse(Before(es), l[0].id) < LastUse(Before(es), l[i + 1].id);
      LaterNamed(Before(es), id, x);
    }
    Smaller(ids + {new0}, Others(es, id));
  }

  lemma {:induction false} OthersStay(l: seq<Held>, k: nat, e: Event, id: nat)
    requires k < |l| && l[k].id == id && !e.Open? && e != Close(id) && k == Position(l, id)
    ensures Position(Step(l, e), id) >= 0
  {
    var m := Position(l, Named(e));
    if m < 0 {
      assert Step(l, e) == l;
    } else {
      MovedOrGone(l, m, e);
      var now := Step(l, e);
      if m == k {
        assert now[|l| - 1].id == id;
      } else {
        var at := OtherPlace(l, m, k);
        assert now[at].id == id;
      }
    }
  }

  lemma {:induction false} OtherPlace(l: seq<Held>, m: nat, k: nat) returns (at: nat)
    requires m < |l| && k < |l| && m != k
    ensures at < |l| - 1 && Without(l, m)[at] == l[k]
  {
    at := if k < m then k else k - 1;
    WithoutAt(l, m, at);
  }

  /** A tree stays as long as no 512 others are used after it. */
  lemma {:induction false} Stays(es: seq<Event>, id: nat)
    requires FreshIds(es) && Kept(es, id)
    ensures Position(Run(es), id) >= 0
    decreases |es|
  {
    var l, e := Run(Before(es)), Last(es);
    RunInOrder(Before(es));
    RunInOrder(es);
    if e.Open? && e.h.id == id {
      var now := Run(es);
      assert now[|now| - 1].id == id;
    } else {
      Stays(Before(es), id);
      var k := Position(l, id);
      match e
      case Open(h) =>
        if |l| == MAXTREE && k == 0 { Crowded(es, l, id); }
        if |l| == MAXTREE { assert l[1..][k - 1].id == id; }
        var now := Run(es);
        assert now[if |l| == MAXTREE then k - 1 else k].id == id;
      case Use(other) => OthersStay(l, k, e, id);
      case Close(other) => OthersStay(l, k, e, id);
    }
  }
}
