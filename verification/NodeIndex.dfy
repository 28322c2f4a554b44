/** tsbridge.c, `index_nodes` and `id_of`: an open-addressing table from (subtree pointer, start byte) to
    preorder id. */
module NodeIndex {
  import opened Exact
  import opened Bits
  import opened Sets
  import opened SyntaxTree
  import opened TreeWalk
  import opened TreeClient

  datatype Key = Key(pointer: nat, byte: nat)

  /** A cell is empty when its pointer is null. */
  datatype Cell = Cell(key: Key, id: nat)

  predicate Occupied(cells: seq<Cell>, j: nat)
    requires j < |cells|
  {
    cells[j].key.pointer != 0
  }

  /** The steps from cell `a` to cell `b` of a ring of `n`. */
  function Dist(a: nat, b: nat, n: nat): int {
    if a <= b then b - a else b - a + n
  }

  /** The table holds the map `m`, the cell of each key being the one `at` tells. */
  ghost predicate Tabulates(cells: seq<Cell>, home: Key -> nat, m: map<Key, nat>, at: map<Key, nat>) {
    && m.Keys == at.Keys
    && (forall k | k in m :: Reachable(cells, home(k), k, m[k], at[k]))
    && forall j | 0 <= j < |cells| && Occupied(cells, j) :: cells[j].key in m && at[cells[j].key] == j
  }

  /** Probing from `start`, cell `j` with the key is met before any empty one. */
  ghost predicate Reachable(cells: seq<Cell>, start: nat, k: Key, id: nat, j: nat) {
    && k.pointer != 0 && j < |cells| && start < |cells| && cells[j] == Cell(k, id)
    && forall i | 0 <= i < |cells| && Dist(start, i, |cells|) < Dist(start, j, |cells|) :: Occupied(cells, i)
  }

  /** Probing from `start` has passed every cell before `j` without meeting `k`. */
  ghost predicate Missed(cells: seq<Cell>, k: Key, start: nat, j: nat) {
    && start < |cells| && j < |cells|
    && forall i | 0 <= i < |cells| && Dist(start, i, |cells|) < Dist(start, j, |cells|) ::
         Occupied(cells, i) && cells[i].key != k
  }

  /** Reaching an empty cell means the key is absent. */
  lemma Absent(cells: seq<Cell>, home: Key -> nat, m: map<Key, nat>, at: map<Key, nat>, k: Key, j: nat)
    requires Tabulates(cells, home, m, at) && Missed(cells, k, home(k), j) && !Occupied(cells, j)
    ensures k !in m
  {}

  lemma Next(cells: seq<Cell>, k: Key, start: nat, j: nat, empty: nat) returns (next: nat)
    requires Missed(cells, k, start, j) && Occupied(cells, j) && cells[j].key != k
    requires empty < |cells| && !Occupied(cells, empty)
    ensures next == if j + 1 == |cells| then 0 else j + 1
    ensures Missed(cells, k, start, next)
    ensures 0 <= Dist(next, empty, |cells|) < Dist(j, empty, |cells|)
  {
    next := if j + 1 == |cells| then 0 else j + 1;
    forall i | 0 <= i < |cells| && Dist(start, i, |cells|) < Dist(start, next, |cells|)
      ensures Occupied(cells, i) && cells[i].key != k
    {
      assert i == j || Dist(start, i, |cells|) < Dist(start, j, |cells|);
    }
  }

  /** Writing at the cell where probing stopped adds or replaces the entry. */
  lemma CellStored(cells: seq<Cell>, home: Key -> nat, m: map<Key, nat>, at: map<Key, nat>, k: Key, j: nat, id: nat)
    requires Tabulates(cells, home, m, at) && k.pointer != 0 && Missed(cells, k, home(k), j)
    requires !Occupied(cells, j) || cells[j].key == k
    ensures Tabulates(cells[j := Cell(k, id)], home, m[k := id], at[k := j])
  {
    var after := cells[j := Cell(k, id)];
    if !Occupied(cells, j) { Absent(cells, home, m, at, k, j); }
    forall x | x in m && x != k ensures Reachable(after, home(x), x, m[x], at[x]) {
      StillReached(cells, home(x), x, m[x], at[x], j, Cell(k, id));
    }
  }

  lemma StillReached(cells: seq<Cell>, start: nat, x: Key, xid: nat, at: nat, j: nat, c: Cell)
    requires Reachable(cells, start, x, xid, at) && j < |cells| && j != at && c.key.pointer != 0
    ensures Reachable(cells[j := c], start, x, xid, at)
  {}

  /** A table with fewer keys than cells has an empty cell. */
  lemma HasEmpty(cells: seq<Cell>, home: Key -> nat, m: map<Key, nat>, at: map<Key, nat>) returns (j: nat)
    requires Tabulates(cells, home, m, at) && |m| < |cells|
    ensures j < |cells| && !Occupied(cells, j)
  {
    if forall i | 0 <= i < |cells| :: Occupied(cells, i) {
      var keys := AllKeys(cells, m, at, |cells|);
      Smaller(keys, m.Keys);
      assert false;
    }
    j :| 0 <= j < |cells| && !Occupied(cells, j);
  }

  lemma {:induction false} AllKeys(cells: seq<Cell>, m: map<Key, nat>, at: map<Key, nat>, n: nat)
    returns (keys: set<Key>)
    requires n <= |cells| && m.Keys == at.Keys
    requires forall j | 0 <= j < |cells| :: cells[j].key in m && at[cells[j].key] == j
    ensures keys <= m.Keys && |keys| == n && forall k | k in keys :: at[k] < n
    decreases n
  {
    if n == 0 { return {}; }
    var fewer := AllKeys(cells, m, at, n - 1);
    keys := fewer + {cells[n - 1].key};
  }

  // ----- what the index answers -----

  /** The id of the last node with key `k`, or -1. */
  function LastWith(keys: seq<Key>, k: Key): (i: int)
    ensures -1 <= i < |keys|
    ensures i >= 0 ==> keys[i] == k
  {
    if keys == [] then -1
    else if keys[|keys| - 1] == k then |keys| - 1
    else LastWith(keys[..|keys| - 1], k)
  }

  /** `m` sends every key to the last node with it. */
  ghost predicate Indexes(m: map<Key, nat>, keys: seq<Key>) {
    && |m| <= |keys|
    && forall k :: LastWith(keys, k) == if k in m then m[k] else -1
  }

  lemma Extended(m: map<Key, nat>, keys: seq<Key>, k: Key)
    requires Indexes(m, keys)
    ensures Indexes(m[k := |keys|], keys + [k])
  {
    var more := keys + [k];
    assert more[..|keys|] == keys;
    assert m[k := |keys|].Keys == m.Keys + {k};
  }

  /** On distinct keys the index inverts the numbering, and only that. */
  lemma {:induction false} Inverts(keys: seq<Key>, k: Key)
    requires forall i, j | 0 <= i < j < |keys| :: keys[i] != keys[j]
    ensures forall i | 0 <= i < |keys| && keys[i] == k :: LastWith(keys, k) == i
    ensures k !in keys ==> LastWith(keys, k) == -1
  {
    if keys != [] && keys[|keys| - 1] != k { Inverts(keys[..|keys| - 1], k); }
  }

  /** `hslot`: the products wrap at 64 and at 32 bits. */
  function HSlot(k: Key, hcap: nat): nat
    requires hcap > 0
  {
    And(Xor(k.pointer * 2654435761 % WORD, k.byte * 40503 % 0x1_0000_0000), hcap - 1)
  }

  lemma HSlotWithin(k: Key, e: nat)
    ensures HSlot(k, Pow(2, e)) < Pow(2, e)
  {
    AndMask(Xor(k.pointer * 2654435761 % WORD, k.byte * 40503 % 0x1_0000_0000), e);
  }

  lemma NextWraps(j: nat, e: nat)
    requires j < Pow(2, e)
    ensures And(j + 1, Pow(2, e) - 1) == if j + 1 == Pow(2, e) then 0 else j + 1
  {
    AndMask(j + 1, e);
    Wraps(j, Pow(2, e));
  }

  method Follow(j: nat, hcap: nat, ghost e: nat) returns (next: nat)
    requires j < hcap == Pow(2, e)
    ensures next == if j + 1 == hcap then 0 else j + 1
  {
    NextWraps(j, e);
    next := And(j + 1, hcap - 1);
  }

  lemma Wraps(j: nat, n: nat)
    requires j < n
    ensures (j + 1) % n == if j + 1 == n then 0 else j + 1
  {}

  /** The smallest power of two that leaves the table at most half full. */
  method Capacity(n: nat) returns (hcap: nat, ghost e: nat)
    ensures hcap == Pow(2, e) && 2 * n + 2 <= hcap
    ensures hcap < 2 * (2 * n + 2)
  {
    hcap, e := 1, 0;
    while hcap < n * 2 + 2
      invariant hcap == Pow(2, e) && hcap < 2 * (2 * n + 2)
      decreases n * 2 + 2 - hcap
    {
      hcap, e := hcap * 2, e + 1;
    }
  }

  class Index {
    const hkey: array<nat>
    const hbyte: array<nat>
    const hval: array<nat>
    const hcap: nat
    const home: Key -> nat
    ghost const e: nat
    ghost var cells: seq<Cell>
    ghost var keys: seq<Key>
    ghost var entries: map<Key, nat>
    ghost var at: map<Key, nat>

    /** The cells are what the three arrays say. */
    ghost predicate Mirrors()
      reads this, hkey, hbyte, hval
    {
      && hkey.Length == hbyte.Length == hval.Length == hcap == |cells|
      && hkey != hbyte && hkey != hval && hbyte != hval
      && forall i | 0 <= i < hcap :: cells[i] == Cell(Key(hkey[i], hbyte[i]), hval[i])
    }

    /** The table is the index of `keys`, and it has room for `spare` more. */
    ghost predicate Valid(spare: nat)
      reads this, hkey, hbyte, hval
    {
      && Mirrors() && hcap == Pow(2, e)
      && (forall k :: home(k) < hcap)
      && 2 * (|keys| + spare) + 2 <= hcap
      && Indexes(entries, keys) && Tabulates(cells, home, entries, at)
    }

    /** The empty table for `n` nodes. */
    constructor (n: nat)
      ensures Valid(n) && keys == [] && fresh(hkey) && fresh(hbyte) && fresh(hval)
    {
      var capacity: nat;
      ghost var exponent: nat;
      capacity, exponent := Capacity(n);
      forall k: Key ensures HSlot(k, capacity) < capacity { HSlotWithin(k, exponent); }
      hcap, e, home := capacity, exponent, k => HSlot(k, capacity);
      hkey, hbyte, hval := new nat[capacity](_ => 0), new nat[capacity](_ => 0), new nat[capacity](_ => 0);
      cells := seq(capacity, _ => Cell(Key(0, 0), 0));
      keys, entries, at := [], map[], map[];
    }

    /** The probe loop shared by `index_nodes` and `id_of`: it ends at the key's cell or at an empty one. */
    method Probe(k: Key) returns (j: nat)
      requires Valid(0)
      ensures j < hcap && Missed(cells, k, home(k), j)
      ensures hkey[j] == 0 || (hkey[j] == k.pointer && hbyte[j] == k.byte)
    {
      ghost var empty := HasEmpty(cells, home, entries, at);
      j := home(k);
      while hkey[j] != 0 && !(hkey[j] == k.pointer && hbyte[j] == k.byte)
        invariant Missed(cells, k, home(k), j)
        decreases Dist(j, empty, hcap)
      {
        ghost var next := Next(cells, k, home(k), j, empty);
        j := Follow(j, hcap, e);
        assert j == next;
      }
    }

    /** One turn of `index_nodes`. */
    method Add(k: Key, id: nat, ghost spare: nat)
      requires Valid(spare + 1) && k.pointer != 0 && id == |keys|
      modifies this`cells, this`keys, this`entries, this`at, hkey, hbyte, hval
      ensures Valid(spare) && keys == old(keys) + [k]
    {
      var j := Probe(k);
      CellStored(cells, home, entries, at, k, j, id);
      Extended(entries, keys, k);
      hkey[j], hbyte[j], hval[j] := k.pointer, k.byte, id;
      cells, entries, at, keys := cells[j := Cell(k, id)], entries[k := id], at[k := j], keys + [k];
    }

    /** `id_of`; the C code returns `(size_t)-1` for an absent node. */
    method IdOf(k: Key) returns (id: int)
      requires Valid(0)
      ensures id == LastWith(keys, k)
    {
      var j := Probe(k);
      if hkey[j] == 0 {
        Absent(cells, home, entries, at, k, j);
        return -1;
      }
      assert Occupied(cells, j);
      id := hval[j];
    }
  }

  function KeyOf(t: Tree): Key {
    Key(t.pointer, t.facts.startByte as nat)
  }

  function KeysOf(nodes: seq<Tree>): (keys: seq<Key>)
    ensures |keys| == |nodes|
  {
    seq(|nodes|, i requires 0 <= i < |nodes| => KeyOf(nodes[i]))
  }

  lemma OneMoreKey(nodes: seq<Tree>, i: nat)
    requires i < |nodes|
    ensures KeysOf(nodes[..i + 1]) == KeysOf(nodes[..i]) + [KeyOf(nodes[i])]
  {}

  /** `index_nodes`: the table of the collected nodes. */
  method IndexNodes(ns: Nodes) returns (index: Index)
    requires ns.Valid() && forall t | t in ns.Contents() :: t.pointer != 0
    ensures fresh(index) && index.Valid(0) && index.keys == KeysOf(ns.Contents())
  {
    ghost var nodes := ns.Contents();
    index := new Index(ns.n);
    var i := 0;
    while i < ns.n
      invariant 0 <= i <= ns.n && index.Valid(ns.n - i)
      invariant fresh(index) && fresh(index.hkey) && fresh(index.hbyte) && fresh(index.hval)
      invariant index.keys == KeysOf(nodes[..i])
    {
      assert ns.v[i] == nodes[i] && nodes[i] in nodes;
      OneMoreKey(nodes, i);
      index.Add(KeyOf(ns.v[i]), i, ns.n - i - 1);
      i := i + 1;
    }
    assert nodes[..i] == nodes;
  }

  /** In a tree whose nodes have distinct keys, every node gets back the id it was sent under. */
  lemma {:induction false} IdsInvert(root: Tree, keys: seq<Key>)
    requires |keys| == Size(root) && forall i | 0 <= i < |keys| :: keys[i] == KeyOf(Visits(root, 0, -1)[i].node)
    requires forall i, j | 0 <= i < j < |keys| :: keys[i] != keys[j]
    ensures forall i | 0 <= i < Size(root) ::
      var v := Visits(root, 0, -1)[i];
      LastWith(keys, KeyOf(v.node)) == v.id
  {
    VisitsNumbered(root, 0, -1);
    forall i | 0 <= i < Size(root) ensures LastWith(keys, KeyOf(Visits(root, 0, -1)[i].node)) == i {
      Inverts(keys, keys[i]);
    }
  }
}
