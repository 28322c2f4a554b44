/** Syntax trees, the cursor that walks them, and the preorder rows that carry one over the wire. */
module SyntaxTree {

  /** What the bridge reports of a node besides its place: C integers of 16 and 32 bits, and four flags. */
  datatype Facts = Facts(field: bv16, symbol: bv16, isNamed: bool, isMissing: bool, isExtra: bool, hasError: bool,
                         startByte: bv32, endByte: bv32, startRow: bv32, startColumn: bv32, endRow: bv32,
                             endColumn: bv32)

  /** `pointer` is the address of the subtree, which the wire does not carry. */
  datatype Tree = Node(pointer: nat, facts: Facts, kids: seq<Tree>)

  /** A node met by the walk: its id and its parent's (-1 at the root). */
  datatype Visit = Visit(id: nat, parent: int, node: Tree)

  /** One `N` line of a parse response. */
  datatype Line = Line(id: nat, parent: int, facts: Facts)

  function Size(t: Tree): (n: nat)
    ensures n > 0
    decreases t, 1
  {
    1 + SizeFrom(t, 0)
  }

  /** The number of nodes in the children of `t` from the `k`-th on. */
  function SizeFrom(t: Tree, k: nat): (n: nat)
    requires k <= |t.kids|
    ensures n >= |t.kids| - k
    decreases t, 0, |t.kids| - k
  {
    if k == |t.kids| then 0 else Size(t.kids[k]) + SizeFrom(t, k + 1)
  }

  /** The nodes of `t` in preorder, numbered from `id`. */
  function Visits(t: Tree, id: nat, parent: int): (visits: seq<Visit>)
    ensures |visits| == Size(t)
    decreases t, 1
  {
    [Visit(id, parent, t)] + VisitsFrom(t, 0, id + 1, id)
  }

  /** The same for the children of `t` from the `k`-th on. */
  function VisitsFrom(t: Tree, k: nat, id: nat, parent: int): (visits: seq<Visit>)
    requires k <= |t.kids|
    ensures |visits| == SizeFrom(t, k)
    decreases t, 0, |t.kids| - k
  {
    if k == |t.kids| then []
    else Visits(t.kids[k], id, parent) + VisitsFrom(t, k + 1, id + Size(t.kids[k]), parent)
  }

  function Written(v: Visit): Line {
    Line(v.id, v.parent, v.node.facts)
  }

  /** The `N` lines of the whole tree. */
  function Lines(t: Tree): (lines: seq<Line>)
    ensures |lines| == Size(t)
  {
    var visits := Visits(t, 0, -1);
    seq(|visits|, i requires 0 <= i < |visits| => Written(visits[i]))
  }

  // ----- the cursor -----

  /** A step down the tree: from `up` to its `index`-th child. */
  datatype Step = Step(up: Tree, index: nat)

  /** A zipper: the steps from the root, and the node they lead to. */
  ghost predicate Leads(root: Tree, steps: seq<Step>, focus: Tree)
    decreases |steps|
  {
    if steps == [] then focus == root
    else
      var last := steps[|steps| - 1];
      last.index < |last.up.kids| && last.up.kids[last.index] == focus && Leads(root, steps[..|steps| - 1], last.up)
  }

  ghost predicate Proper(steps: seq<Step>) {
    forall k | 0 <= k < |steps| :: steps[k].index < |steps[k].up.kids|
  }

  class Cursor {
    const root: Tree
    var steps: seq<Step>
    var focus: Tree

    ghost predicate Valid()
      reads this
    {
      Leads(root, steps, focus) && Proper(steps)
    }

    constructor (t: Tree)
      ensures Valid() && root == t && steps == [] && focus == t
    {
      root, steps, focus := t, [], t;
    }

    method GotoFirstChild() returns (moved: bool)
      requires Valid()
      modifies this
      ensures Valid() && moved == (old(focus).kids != [])
      ensures moved ==> steps == old(steps) + [Step(old(focus), 0)] && focus == old(focus).kids[0]
      ensures !moved ==> steps == old(steps) && focus == old(focus)
    {
      moved := focus.kids != [];
      if moved {
        assert (steps + [Step(focus, 0)])[..|steps|] == steps;
        steps, focus := steps + [Step(focus, 0)], focus.kids[0];
      }
    }

    method GotoNextSibling() returns (moved: bool)
      requires Valid()
      modifies this
      ensures Valid()
      ensures moved == (old(steps) != [] &&
                        var last := old(steps)[|old(steps)| - 1]; last.index + 1 < |last.up.kids|)
      ensures moved ==>
        var last := old(steps)[|old(steps)| - 1];
        steps == old(steps)[..|old(steps)| - 1] + [last.(index := last.index + 1)] &&
        focus == last.up.kids[last.index + 1]
      ensures !moved ==> steps == old(steps) && focus == old(focus)
    {
      if steps == [] { return false; }
      var above, last := steps[..|steps| - 1], steps[|steps| - 1];
      moved := last.index + 1 < |last.up.kids|;
      if moved {
        var next := last.(index := last.index + 1);
        assert (above + [next])[..|above|] == above;
        steps, focus := above + [next], last.up.kids[last.index + 1];
      }
    }

    method GotoParent() returns (moved: bool)
      requires Valid()
      modifies this
      ensures Valid() && moved == (old(steps) != [])
      ensures moved ==> steps == old(steps)[..|old(steps)| - 1] && focus == old(steps)[|old(steps)| - 1].up
      ensures !moved ==> steps == old(steps) && focus == old(focus)
    {
      moved := steps != [];
      if moved {
        steps, focus := steps[..|steps| - 1], steps[|steps| - 1].up;
      }
    }
  }
}
