/** pack.js, `mktree`: the client's flat arrays, and the tree they stand for. */
module TreeClient {
  import opened SyntaxTree
  import opened TreeWalk

  /** A node's facts as the client keeps them, the four flags packed in one byte. */
  datatype Stored = Stored(field: bv16, symbol: bv16, flags: bv8, startByte: bv32, endByte: bv32,
                           startRow: bv32, startColumn: bv32, endRow: bv32, endColumn: bv32)

  function Bit(b: bool): bv8 { if b then 1 else 0 }

  function Packed(f: Facts): Stored {
    Stored(f.field, f.symbol, Bit(f.isNamed) | (Bit(f.isMissing) << 1) | (Bit(f.isExtra) << 2) | (Bit(f.hasError) << 3),
           f.startByte, f.endByte, f.startRow, f.startColumn, f.endRow, f.endColumn)
  }

  /** What `named`, `missing`, `extra`, `has_error` and the other accessors read. */
  function Read(s: Stored): Facts {
    Facts(s.field, s.symbol, s.flags & 1 != 0, s.flags & 2 != 0, s.flags & 4 != 0, s.flags & 8 != 0,
          s.startByte, s.endByte, s.startRow, s.startColumn, s.endRow, s.endColumn)
  }

  lemma FlagsKept(n: bv8, m: bv8, e: bv8, x: bv8)
    requires n <= 1 && m <= 1 && e <= 1 && x <= 1
    ensures var flags := n | (m << 1) | (e << 2) | (x << 3);
            flags & 1 == n && flags & 2 == m << 1 && flags & 4 == e << 2 && flags & 8 == x << 3
  {}

  lemma PackingKeepsFacts(f: Facts)
    ensures Read(Packed(f)) == f
  {
    FlagsKept(Bit(f.isNamed), Bit(f.isMissing), Bit(f.isExtra), Bit(f.hasError));
  }

  /** The lines come in order, each after its parent's. */
  predicate Numbered(lines: seq<Line>) {
    forall i | 0 <= i < |lines| :: lines[i].id == i && -1 <= lines[i].parent < i
  }

  /** The ids among the first `n` lines whose parent is `p`, in order. */
  function KidsOf(lines: seq<Line>, p: int, n: nat): seq<nat>
    requires n <= |lines|
  {
    if n == 0 then []
    else KidsOf(lines, p, n - 1) + (if lines[n - 1].parent == p then [n - 1] else [])
  }

  /** The arrays of a tree object. */
  datatype View = View(parent: seq<int>, stored: seq<Stored>, kids: seq<seq<nat>>)

  /** The arrays once the first `n` lines are read. */
  ghost predicate Holds(v: View, lines: seq<Line>, n: nat) {
    && n <= |lines| == |v.parent| == |v.stored| == |v.kids|
    && (forall i | 0 <= i < n :: v.parent[i] == lines[i].parent && v.stored[i] == Packed(lines[i].facts))
    && forall i | 0 <= i < |lines| :: v.kids[i] == KidsOf(lines, i, n)
  }

  class TreeObject {
    const parent: array<int>
    const stored: array<Stored>
    const kids: array<seq<nat>>

    ghost function Arrays(): View
      reads parent, stored, kids
    {
      View(parent[..], stored[..], kids[..])
    }

    constructor (n: nat)
      ensures fresh(parent) && fresh(stored) && fresh(kids)
      ensures parent.Length == stored.Length == kids.Length == n
      ensures forall i | 0 <= i < n :: kids[i] == []
    {
      parent := new int[n];
      stored := new Stored[n](_ => Stored(0, 0, 0, 0, 0, 0, 0, 0, 0));
      kids := new seq<nat>[n](_ => []);
    }

    /** One `N` line put in its place. */
    method Place(line: Line, ghost lines: seq<Line>, ghost n: nat)
      requires Holds(Arrays(), lines, n) && Numbered(lines) && n < |lines| && line == lines[n]
      modifies parent, stored, kids
      ensures Holds(Arrays(), lines, n + 1)
    {
      var i := line.id;
      parent[i] := line.parent;
      stored[i] := Packed(line.facts);
      if parent[i] >= 0 {
        kids[parent[i]] := kids[parent[i]] + [i];
      }
    }
  }

  /** `mktree`: the lines of a parse response become the arrays of a tree object. */
  method MkTree(lines: seq<Line>) returns (t: TreeObject)
    requires Numbered(lines)
    ensures fresh(t) && Holds(t.Arrays(), lines, |lines|)
  {
    t := new TreeObject(|lines|);
    var k := 0;
    while k < |lines|
      invariant 0 <= k <= |lines| && fresh(t) && fresh(t.parent) && fresh(t.stored) && fresh(t.kids)
      invariant Holds(t.Arrays(), lines, k)
    {
      t.Place(lines[k], lines, k);
      k := k + 1;
    }
  }

  // ----- the arrays stand for the tree the server walked -----

  /** Node `i` of the arrays is `t`: its facts, and its children in order. */
  ghost predicate Stands(v: View, t: Tree, i: nat)
    decreases t
  {
    && i < |v.stored| == |v.kids|
    && Read(v.stored[i]) == t.facts
    && |v.kids[i]| == |t.kids|
    && forall k | 0 <= k < |t.kids| :: Stands(v, t.kids[k], v.kids[i][k])
  }

  /** The same tree, whatever the addresses of its nodes. */
  ghost predicate Alike(t: Tree, u: Tree)
    decreases t
  {
    && t.facts == u.facts
    && |t.kids| == |u.kids|
    && forall k | 0 <= k < |t.kids| :: Alike(t.kids[k], u.kids[k])
  }

  /** The arrays stand for one tree only. */
  lemma {:induction false} OneTree(v: View, t: Tree, u: Tree, i: nat)
    requires Stands(v, t, i) && Stands(v, u, i)
    ensures Alike(t, u)
    decreases t
  {
    forall k | 0 <= k < |t.kids| ensures Alike(t.kids[k], u.kids[k]) {
      OneTree(v, t.kids[k], u.kids[k], v.kids[i][k]);
    }
  }

  lemma {:induction false} VisitsNumbered(t: Tree, id: nat, parent: int)
    requires parent < id
    ensures forall i | 0 <= i < Size(t) :: Visits(t, id, parent)[i].id == id + i
    ensures forall i | 0 <= i < Size(t) :: Visits(t, id, parent)[i].parent < id + i
    ensures forall i | 0 < i < Size(t) :: id <= Visits(t, id, parent)[i].parent
    decreases t, 1
  {
    VisitsFromNumbered(t, 0, id + 1, id);
  }

  lemma {:induction false} VisitsFromNumbered(t: Tree, k: nat, id: nat, parent: nat)
    requires k <= |t.kids| && parent < id
    ensures forall i | 0 <= i < SizeFrom(t, k) :: VisitsFrom(t, k, id, parent)[i].id == id + i
    ensures forall i | 0 <= i < SizeFrom(t, k) :: VisitsFrom(t, k, id, parent)[i].parent < id + i
    ensures forall i | 0 <= i < SizeFrom(t, k) ::
      VisitsFrom(t, k, id, parent)[i].parent == parent || id <= VisitsFrom(t, k, id, parent)[i].parent
    decreases t, 0, |t.kids| - k
  {
    if k < |t.kids| {
      var child := t.kids[k];
      VisitsNumbered(child, id, parent);
      VisitsFromNumbered(t, k + 1, id + Size(child), parent);
      var first, rest := Visits(child, id, parent), VisitsFrom(t, k + 1, id + Size(child), parent);
      assert VisitsFrom(t, k, id, parent) == first + rest;
      assert first[0] == Visit(id, parent, child);
      forall i | 0 <= i < SizeFrom(t, k)
        ensures
          var v := (first + rest)[i];
          v.id == id + i && v.parent < id + i && (v.parent == parent || id <= v.parent)
      {
        if i >= |first| { assert (first + rest)[i] == rest[i - |first|]; }
      }
    }
  }

  /** Every node is sent after its parent: the numbering `mktree` needs. */
  lemma ParentsFirst(root: Tree)
    ensures Numbered(Lines(root))
    ensures forall i | 0 <= i < Size(root) :: Lines(root)[i].parent == -1 <==> i == 0
  {
    VisitsNumbered(root, 0, -1);
  }

  // ----- the children found by parent are the children in the tree -----

  /** The ids of the children of a node, from the `k`-th on, the first of them at `id`. */
  ghost function ChildIds(t: Tree, k: nat, id: nat): (ids: seq<nat>)
    requires k <= |t.kids|
    ensures |ids| == |t.kids| - k
    decreases |t.kids| - k
  {
    if k == |t.kids| then [] else [id] + ChildIds(t, k + 1, id + Size(t.kids[k]))
  }

  lemma {:induction false} NoKids(lines: seq<Line>, p: int, a: nat, b: nat)
    requires a <= b <= |lines| && forall j | a <= j < b :: lines[j].parent != p
    ensures KidsOf(lines, p, b) == KidsOf(lines, p, a)
    decreases b
  {
    if a < b { NoKids(lines, p, a, b - 1); }
  }

  /** The lines from `at` on are those of the walk `part`. */
  ghost predicate Carry(lines: seq<Line>, part: seq<Visit>, at: nat) {
    at + |part| <= |lines| && forall j | at <= j < at + |part| :: lines[j] == Written(part[j - at])
  }

  lemma {:induction false} KidsAmong(lines: seq<Line>, t: Tree, k: nat, at: nat, id: nat)
    requires k <= |t.kids| && id < at && Carry(lines, VisitsFrom(t, k, at, id), at)
    ensures KidsOf(lines, id, at + SizeFrom(t, k)) == KidsOf(lines, id, at) + ChildIds(t, k, at)
    decreases |t.kids| - k
  {
    if k < |t.kids| {
      var after := at + Size(t.kids[k]);
      CarryEach(lines, t, k, at, after, id);
      OneChild(lines, t.kids[k], at, id);
      KidsAmong(lines, t, k + 1, after, id);
    }
  }

  lemma OneChild(lines: seq<Line>, child: Tree, at: nat, id: nat)
    requires id < at && Carry(lines, Visits(child, at, id), at)
    ensures KidsOf(lines, id, at + Size(child)) == KidsOf(lines, id, at) + [at]
  {
    VisitsNumbered(child, at, id);
    assert Visits(child, at, id)[0] == Visit(at, id, child);
    NoKids(lines, id, at + 1, at + Size(child));
  }

  lemma CarryEach(lines: seq<Line>, t: Tree, k: nat, at: nat, after: nat, id: nat)
    requires k < |t.kids| && Carry(lines, VisitsFrom(t, k, at, id), at) && after == at + Size(t.kids[k])
    ensures Carry(lines, Visits(t.kids[k], at, id), at) && Carry(lines, VisitsFrom(t, k + 1, after, id), after)
  {
    CarryParts(lines, Visits(t.kids[k], at, id), VisitsFrom(t, k + 1, after, id), at, after);
  }

  lemma CarryParts(lines: seq<Line>, first: seq<Visit>, rest: seq<Visit>, at: nat, mid: nat)
    requires Carry(lines, first + rest, at) && mid == at + |first|
    ensures Carry(lines, first, at) && Carry(lines, rest, mid)
  {
    forall j | mid <= j < at + |first + rest| ensures lines[j] == Written(rest[j - mid]) {
      assert (first + rest)[j - at] == rest[j - at - |first|];
    }
  }

  /** No line outside [lo, hi) has its parent inside. */
  ghost predicate Apart(lines: seq<Line>, lo: int, hi: int) {
    forall j | 0 <= j < |lines| && !(lo <= j < hi) :: !(lo <= lines[j].parent < hi)
  }

  /** Apart from the rest, a node's lines come apart again where its children's begin. */
  lemma ApartBelow(lines: seq<Line>, t: Tree, id: nat, parent: int)
    requires parent < id && Carry(lines, Visits(t, id, parent), id) && Apart(lines, id, id + Size(t))
    ensures Carry(lines, VisitsFrom(t, 0, id + 1, id), id + 1) && Apart(lines, id + 1, id + Size(t))
    ensures lines[id] == Line(id, parent, t.facts)
  {
    CarryParts(lines, [Visit(id, parent, t)], VisitsFrom(t, 0, id + 1, id), id, id + 1);
    assert lines[id] == Written(Visit(id, parent, t));
  }

  /** And the lines of the children come apart one child at a time. */
  lemma ApartEach(lines: seq<Line>, t: Tree, k: nat, at: nat, after: nat, id: nat)
    requires k < |t.kids| && id < at && after == at + Size(t.kids[k])
    requires Carry(lines, VisitsFrom(t, k, at, id), at) && Apart(lines, at, at + SizeFrom(t, k))
    ensures Apart(lines, at, after) && Apart(lines, after, after + SizeFrom(t, k + 1))
  {
    CarryEach(lines, t, k, at, after, id);
    ChildLines(lines, t.kids[k], at, id);
    LaterLines(lines, t, k + 1, after, id);
    ApartSplit(lines, at, after, at + SizeFrom(t, k));
  }

  lemma ChildLines(lines: seq<Line>, child: Tree, at: nat, id: nat)
    requires id < at && Carry(lines, Visits(child, at, id), at)
    ensures forall j | at <= j < at + Size(child) :: lines[j].parent < at + Size(child)
  {
    VisitsNumbered(child, at, id);
  }

  lemma LaterLines(lines: seq<Line>, t: Tree, k: nat, at: nat, id: nat)
    requires k <= |t.kids| && id < at && Carry(lines, VisitsFrom(t, k, at, id), at)
    ensures forall j | at <= j < at + SizeFrom(t, k) :: lines[j].parent == id || at <= lines[j].parent
  {
    VisitsFromNumbered(t, k, at, id);
  }

  lemma ApartSplit(lines: seq<Line>, lo: nat, mid: nat, hi: nat)
    requires lo <= mid <= hi <= |lines| && Apart(lines, lo, hi)
    requires forall j | lo <= j < mid :: lines[j].parent < mid
    requires forall j | mid <= j < hi :: lines[j].parent < lo || mid <= lines[j].parent
    ensures Apart(lines, lo, mid) && Apart(lines, mid, hi)
  {}

  lemma {:induction false} Placed(v: View, lines: seq<Line>, t: Tree, id: nat, parent: int)
    requires Holds(v, lines, |lines|) && parent < id
    requires Carry(lines, Visits(t, id, parent), id) && Apart(lines, id, id + Size(t))
    ensures Stands(v, t, id)
    decreases t, 1
  {
    ApartBelow(lines, t, id, parent);
    KidsFound(lines, t, id, parent);
    PackingKeepsFacts(t.facts);
    forall j | 0 <= j < |t.kids| ensures Stands(v, t.kids[j], v.kids[id][j]) {
      PlacedFrom(v, lines, t, 0, id + 1, id, j);
    }
  }

  lemma KidsFound(lines: seq<Line>, t: Tree, id: nat, parent: int)
    requires parent < id && Carry(lines, Visits(t, id, parent), id) && Apart(lines, id, id + Size(t))
    ensures KidsOf(lines, id, |lines|) == ChildIds(t, 0, id + 1)
  {
    var end := id + 1 + SizeFrom(t, 0);
    assert end == id + Size(t);
    ApartBelow(lines, t, id, parent);
    NoKids(lines, id, 0, id + 1);
    KidsAmong(lines, t, 0, id + 1, id);
    NoKids(lines, id, end, |lines|);
    assert KidsOf(lines, id, end) == [] + ChildIds(t, 0, id + 1);
  }

  lemma {:induction false} PlacedFrom(v: View, lines: seq<Line>, t: Tree, k: nat, at: nat, id: nat, j: nat)
    requires Holds(v, lines, |lines|) && k <= j < |t.kids| && id < at
    requires Carry(lines, VisitsFrom(t, k, at, id), at) && Apart(lines, at, at + SizeFrom(t, k))
    ensures Stands(v, t.kids[j], ChildIds(t, k, at)[j - k])
    decreases t, 0, |t.kids| - k
  {
    var after := at + Size(t.kids[k]);
    CarryEach(lines, t, k, at, after, id);
    ApartEach(lines, t, k, at, after, id);
    if j == k {
      Placed(v, lines, t.kids[k], at, id);
    } else {
      PlacedFrom(v, lines, t, k + 1, after, id, j);
    }
  }

  /** What the client builds from the server's lines is the server's tree. */
  lemma Rebuilt(v: View, root: Tree)
    requires Holds(v, Lines(root), Size(root))
    ensures Stands(v, root, 0)
  {
    var lines := Lines(root);
    assert Carry(lines, Visits(root, 0, -1), 0);
    Placed(v, lines, root, 0, -1);
  }

  /** So two trees with the same lines are the same tree. */
  lemma LinesDetermine(t: Tree, u: Tree)
    requires Lines(t) == Lines(u)
    ensures Alike(t, u)
  {
    var lines := Lines(t);
    var v := View(seq(|lines|, i requires 0 <= i < |lines| => lines[i].parent),
                  seq(|lines|, i requires 0 <= i < |lines| => Packed(lines[i].facts)),
                  seq(|lines|, i => KidsOf(lines, i, |lines|)));
    Rebuilt(v, t);
    Rebuilt(v, u);
    OneTree(v, t, u, 0);
  }

  /** A tree sent by `walk` and taken in by `mktree` stands on the client's side as it was. */
  method SendTree(root: Tree, ns: Nodes) returns (t: TreeObject)
    requires ns.Valid() && ns.n == 0
    modifies ns, ns.v
    ensures Stands(t.Arrays(), root, 0)
  {
    var lines := Walk(root, ns);
    ParentsFirst(root);
    t := MkTree(lines);
    Rebuilt(t.Arrays(), root);
  }
}
