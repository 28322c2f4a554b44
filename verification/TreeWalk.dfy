/** tsbridge.c, `push` and `walk`: the nodes of a tree collected and sent in preorder, with an explicit stack. */
module TreeWalk {
  import opened SyntaxTree

  /** What is still to be visited once the focus is done: the later siblings along the way up. */
  ghost function Rest(steps: seq<Step>, ids: seq<nat>, next: nat): (visits: seq<Visit>)
    requires |ids| == |steps| && Proper(steps)
    decreases |steps|
  {
    if steps == [] then []
    else
      var last, above := steps[|steps| - 1], |steps| - 1;
      VisitsFrom(last.up, last.index + 1, next, ids[above])
      + Rest(steps[..above], ids[..above], next + SizeFrom(last.up, last.index + 1))
  }

  function Top(ids: seq<nat>): int {
    if ids == [] then -1 else ids[|ids| - 1]
  }

  /** What is to be visited when the cursor stands on `focus` and has not emitted it. */
  ghost function Facing(steps: seq<Step>, focus: Tree, ids: seq<nat>, id: nat): (visits: seq<Visit>)
    requires |ids| == |steps| && Proper(steps)
  {
    Visits(focus, id, Top(ids)) + Rest(steps, ids, id + Size(focus))
  }

  /** Emitting a node and entering its children. */
  lemma Entered(steps: seq<Step>, focus: Tree, ids: seq<nat>, id: nat)
    requires |ids| == |steps| && Proper(steps) && focus.kids != []
    ensures Facing(steps, focus, ids, id)
            == [Visit(id, Top(ids), focus)] + Facing(steps + [Step(focus, 0)], focus.kids[0], ids + [id], id + 1)
  {
    var down, below := steps + [Step(focus, 0)], ids + [id];
    assert down[..|steps|] == steps && below[..|ids|] == ids;
    var first, rest := Visits(focus.kids[0], id + 1, id), VisitsFrom(focus, 1, id + 1 + Size(focus.kids[0]), id);
    assert Visits(focus, id, Top(ids)) == [Visit(id, Top(ids), focus)] + (first + rest);
  }

  /** Emitting a leaf. */
  lemma Finished(steps: seq<Step>, focus: Tree, ids: seq<nat>, id: nat)
    requires |ids| == |steps| && Proper(steps) && focus.kids == []
    ensures Facing(steps, focus, ids, id) == [Visit(id, Top(ids), focus)] + Rest(steps, ids, id + 1)
  {}

  /** Moving to the next sibling of a finished node. */
  lemma Passed(steps: seq<Step>, ids: seq<nat>, id: nat)
    requires |ids| == |steps| > 0 && Proper(steps)
    requires steps[|steps| - 1].index + 1 < |steps[|steps| - 1].up.kids|
    ensures
      var last, above := steps[|steps| - 1], |steps| - 1;
      var over := steps[..above] + [last.(index := last.index + 1)];
      Rest(steps, ids, id) == Facing(over, last.up.kids[last.index + 1], ids, id)
  {
    var last, above := steps[|steps| - 1], |steps| - 1;
    var over := steps[..above] + [last.(index := last.index + 1)];
    assert over[..above] == steps[..above];
  }

  /** Going up from the last sibling. */
  lemma Risen(steps: seq<Step>, ids: seq<nat>, id: nat)
    requires |ids| == |steps| > 0 && Proper(steps)
    requires steps[|steps| - 1].index + 1 == |steps[|steps| - 1].up.kids|
    ensures Rest(steps, ids, id) == Rest(steps[..|steps| - 1], ids[..|steps| - 1], id)
  {}

  /** The moves open to a cursor whose node is finished. */
  ghost predicate CanPass(steps: seq<Step>) {
    steps != [] && var last := steps[|steps| - 1]; last.index + 1 < |last.up.kids|
  }

  lemma Steps(steps: seq<Step>, ids: seq<nat>, id: nat)
    requires |ids| == |steps| && Proper(steps)
    ensures steps == [] ==> Rest(steps, ids, id) == []
    ensures CanPass(steps) ==>
      var last, above := steps[|steps| - 1], |steps| - 1;
      var over := steps[..above] + [last.(index := last.index + 1)];
      Rest(steps, ids, id) == Facing(over, last.up.kids[last.index + 1], ids, id)
    ensures steps != [] && !CanPass(steps) ==>
      Rest(steps, ids, id) == Rest(steps[..|steps| - 1], ids[..|steps| - 1], id)
  {
    if CanPass(steps) { Passed(steps, ids, id); }
    else if steps != [] { Risen(steps, ids, id); }
  }

  /** A growable array of the nodes met. */
  class Nodes {
    var v: array<Tree>
    var n: nat

    ghost predicate Valid()
      reads this
    {
      n <= v.Length
    }

    ghost function Contents(): seq<Tree>
      reads this, v
      requires Valid()
    {
      v[..n]
    }

    /** The record zeroed by `memset`. */
    constructor (x: Tree)
      ensures Valid() && fresh(v) && Contents() == []
    {
      v, n := new Tree[0](_ => x), 0;
    }

    /** `push`: the capacity starts at 1024 and doubles. */
    method Push(x: Tree)
      requires Valid()
      modifies this, v
      ensures Valid() && (v == old(v) || fresh(v))
      ensures Contents() == old(Contents()) + [x]
    {
      if n == v.Length {
        var capacity := if v.Length > 0 then v.Length * 2 else 1024;
        var bigger := new Tree[capacity](_ => x);
        forall i | 0 <= i < n { bigger[i] := v[i]; }
        v := bigger;
      }
      v[n] := x;
      n := n + 1;
    }
  }

  /** The explicit stack of ids: 4096 entries, doubled when full. */
  class IdStack {
    var ids: array<nat>
    var sp: nat

    ghost predicate Valid()
      reads this
    {
      sp <= ids.Length && ids.Length > 0
    }

    ghost function Contents(): seq<nat>
      reads this, ids
      requires Valid()
    {
      ids[..sp]
    }

    constructor ()
      ensures Valid() && fresh(ids) && Contents() == []
    {
      ids, sp := new nat[4096], 0;
    }

    method Push(id: nat)
      requires Valid()
      modifies this, ids
      ensures Valid() && (ids == old(ids) || fresh(ids))
      ensures Contents() == old(Contents()) + [id]
    {
      if sp == ids.Length {
        var bigger := new nat[ids.Length * 2];
        forall i | 0 <= i < sp { bigger[i] := ids[i]; }
        ids := bigger;
      }
      ids[sp] := id;
      sp := sp + 1;
    }

    method Pop()
      requires Valid() && sp > 0
      modifies this`sp
      ensures Valid() && Contents() == old(Contents())[..old(sp) - 1]
    {
      sp := sp - 1;
    }
  }

  /** The state of the walk over `root`: what was visited, and what is still to come. */
  ghost predicate Walking(root: Tree, done: seq<Visit>, todo: seq<Visit>, nodes: seq<Tree>, lines: seq<Line>) {
    && done + todo == Visits(root, 0, -1)
    && |done| == |nodes| == |lines|
    && forall i | 0 <= i < |done| :: nodes[i] == done[i].node && lines[i] == Written(done[i])
  }

  lemma Visited(root: Tree, done: seq<Visit>, todo: seq<Visit>, nodes: seq<Tree>, lines: seq<Line>,
                v: Visit, rest: seq<Visit>)
    requires Walking(root, done, todo, nodes, lines) && todo == [v] + rest
    ensures Walking(root, done + [v], rest, nodes + [v.node], lines + [Written(v)])
  {
    assert done + [v] + rest == done + todo;
  }

  lemma Complete(root: Tree, done: seq<Visit>, nodes: seq<Tree>, lines: seq<Line>)
    requires Walking(root, done, [], nodes, lines)
    ensures lines == Lines(root) && |nodes| == Size(root)
    ensures forall i | 0 <= i < |nodes| :: nodes[i] == Visits(root, 0, -1)[i].node
  {
    assert done == Visits(root, 0, -1);
  }

  /** The cursor and the stack agree on the depth. */
  ghost predicate Paired(c: Cursor, stack: IdStack)
    reads c, stack
  {
    c.Valid() && stack.Valid() && stack.sp == |c.steps|
  }

  /** `goto_first_child`, and the push that goes with it. */
  method Descend(c: Cursor, stack: IdStack, id: nat, ghost todo: seq<Visit>) returns (down: bool)
    requires Paired(c, stack) && todo == Facing(c.steps, c.focus, stack.Contents(), id)
    modifies c, stack, stack.ids
    ensures Paired(c, stack) && (stack.ids == old(stack.ids) || fresh(stack.ids))
    ensures todo == [Visit(id, Top(old(stack.Contents())), old(c.focus))] + todo[1..]
    ensures down ==> todo[1..] == Facing(c.steps, c.focus, stack.Contents(), id + 1)
    ensures !down ==> todo[1..] == Rest(c.steps, stack.Contents(), id + 1)
  {
    if c.focus.kids != [] {
      Entered(c.steps, c.focus, stack.Contents(), id);
    } else {
      Finished(c.steps, c.focus, stack.Contents(), id);
    }
    down := c.GotoFirstChild();
    if down { stack.Push(id); }
  }

  /** The inner loop of `walk`: up to the first ancestor with a next sibling, or out of the tree. */
  method Climb(c: Cursor, stack: IdStack, ghost id: nat, ghost todo: seq<Visit>) returns (over: bool)
    requires Paired(c, stack) && todo == Rest(c.steps, stack.Contents(), id)
    modifies c, stack`sp
    ensures Paired(c, stack)
    ensures over ==> todo == Facing(c.steps, c.focus, stack.Contents(), id)
    ensures !over ==> todo == []
  {
    while true
      invariant Paired(c, stack) && todo == Rest(c.steps, stack.Contents(), id)
      decreases |c.steps|
    {
      Steps(c.steps, stack.Contents(), id);
      over := c.GotoNextSibling();
      if over { return; }
      var up := c.GotoParent();
      if !up { return; }
      stack.Pop();
    }
  }

  /** One turn of the outer loop: a node is collected and sent, and the cursor moves on unless it was the last. */
  method Turn(ghost root: Tree, c: Cursor, stack: IdStack, ns: Nodes, sent: seq<Line>,
              ghost done: seq<Visit>, ghost todo: seq<Visit>)
    returns (more: bool, lines: seq<Line>)
    requires Paired(c, stack) && ns.Valid()
    requires Walking(root, done, todo, ns.Contents(), sent)
    requires todo == Facing(c.steps, c.focus, stack.Contents(), ns.n)
    modifies c, stack, stack.ids, ns, ns.v
    ensures Paired(c, stack) && (stack.ids == old(stack.ids) || fresh(stack.ids))
    ensures ns.Valid() && (ns.v == old(ns.v) || fresh(ns.v))
    ensures todo != [] && Walking(root, done + [todo[0]], todo[1..], ns.Contents(), lines)
    ensures more ==> todo[1..] == Facing(c.steps, c.focus, stack.Contents(), ns.n)
    ensures !more ==> todo[1..] == []
  {
    var id, n := ns.n, c.focus;
    var parent: int := if stack.sp > 0 then stack.ids[stack.sp - 1] else -1;
    more := Descend(c, stack, id, todo);
    Visited(root, done, todo, ns.Contents(), sent, Visit(id, parent, n), todo[1..]);
    ns.Push(n);
    lines := sent + [Line(id, parent, n.facts)];
    if !more { more := Climb(c, stack, ns.n, todo[1..]); }
  }

  /** `walk` with `emit`: every node once, in preorder, with its id, its parent's id and its facts. */
  method Walk(root: Tree, ns: Nodes) returns (lines: seq<Line>)
    requires ns.Valid() && ns.n == 0
    modifies ns, ns.v
    ensures ns.Valid() && (ns.v == old(ns.v) || fresh(ns.v))
    ensures lines == Lines(root)
    ensures ns.n == Size(root) && forall i | 0 <= i < ns.n :: ns.v[i] == Visits(root, 0, -1)[i].node
  {
    var c := new Cursor(root);
    var stack := new IdStack();
    lines := [];
    ghost var done: seq<Visit> := [];
    ghost var todo := Visits(root, 0, -1);
    assert todo + Rest([], [], Size(root)) == todo;
    var more := true;
    while more
      invariant ns.Valid() && (ns.v == old(ns.v) || fresh(ns.v))
      invariant fresh(c) && fresh(stack) && fresh(stack.ids) && Paired(c, stack)
      invariant Walking(root, done, todo, ns.Contents(), lines)
      invariant more ==> todo == Facing(c.steps, c.focus, stack.Contents(), ns.n)
      invariant !more ==> todo == []
      decreases |todo|, more
    {
      more, lines := Turn(root, c, stack, ns, lines, done, todo);
      done, todo := done + [todo[0]], todo[1..];
    }
    Complete(root, done, ns.Contents(), lines);
  }
}
