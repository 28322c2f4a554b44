/** pack.js, `pairs_iter` and `next`: walking a table visits every key once. */
module TablePairs {
  import opened LuaTables

  /** The indexes from `i` on that hold something. */
  function ItemKeys(items: seq<Value>, i: nat): seq<Value>
    decreases |items| - i
  {
    if i >= |items| then []
    else if items[i] != Nil then [Int(i)] + ItemKeys(items, i + 1)
    else ItemKeys(items, i + 1)
  }

  /** The keys in the order of a walk: the shaped part, then the side map. */
  function Order(s: State): seq<Value> {
    match s.shape
    case MAP => s.hash.order
    case ARRAY => ItemKeys(s.items, 1) + s.hash.order
    case RECORD => s.fields.order + s.hash.order
  }

  datatype Step = Entry(key: Value, val: Value) | End | Invalid

  function Head(s: State, left: seq<Value>): Step {
    if left == [] then End else Entry(left[0], Look(s, left[0]))
  }

  function Tail(left: seq<Value>): seq<Value> {
    if left == [] then [] else left[1..]
  }

  function Rank(ks: seq<Value>, k: Value): (p: int)
    ensures -1 <= p < |ks| && (p >= 0 ==> ks[p] == k) && (p < 0 ==> k !in ks)
  {
    if ks == [] then -1
    else if ks[0] == k then 0
    else var p := Rank(ks[1..], k); if p < 0 then -1 else p + 1
  }

  /** The entry after a key, the first after nil; a key that is not in the table is invalid. */
  function After(s: State, k: Value): Step
  {
    if k == Nil then Head(s, Order(s))
    else if Rank(Order(s), k) >= 0 then Head(s, Order(s)[Rank(Order(s), k) + 1..])
    else Invalid
  }

  /** The first key from place `j` on that still has a value. */
  method NextHeld(o: Ordered, j: nat) returns (m: nat)
    requires j <= |o.order|
    ensures j <= m <= |o.order| && forall k | j <= k < m :: Get(o, o.order[k]) == Nil
    ensures m < |o.order| ==> Get(o, o.order[m]) != Nil
  {
    m := j;
    while m < |o.order| && Get(o, o.order[m]) == Nil
      invariant j <= m <= |o.order| && forall k | j <= k < m :: Get(o, o.order[k]) == Nil
    {
      m := m + 1;
    }
  }

  /** In a well-formed table that is the key at `j`. */
  lemma NoneSkipped(o: Ordered, j: nat, m: nat)
    requires Proper(o) && j <= m <= |o.order| && forall k | j <= k < m :: Get(o, o.order[k]) == Nil
    ensures m == j
  {
    assert j < |o.order| ==> o.order[j] in o.vals;
  }

  lemma FirstField(s: State, m: nat, rest: seq<Value>)
    requires WellFormed(s) && s.shape == RECORD && m < |s.fields.order|
    ensures
      var left := s.fields.order[m..] + rest;
      Head(s, left) == Entry(s.fields.order[m], Get(s.fields, s.fields.order[m])) &&
      Tail(left) == s.fields.order[m + 1..] + rest
  {
    assert s.fields.order[m] in s.fields.vals;
  }

  /** The closure `pairs_iter` makes over a table that does not change while it is walked. */
  class Pairs {
    const s: State
    /** Places in the shaped part and in the Map. */
    var i: nat
    var j: nat

    ghost predicate Valid()
      reads this
    {
      WellFormed(s) && j <= |s.hash.order| && (s.shape == RECORD ==> i <= |s.fields.order|)
    }

    ghost function Remaining(): seq<Value>
      requires Valid()
      reads this
    {
      match s.shape
      case MAP => s.hash.order[j..]
      case ARRAY => ItemKeys(s.items, i + 1) + s.hash.order[j..]
      case RECORD => s.fields.order[i..] + s.hash.order[j..]
    }

    constructor (t: State)
      requires WellFormed(t)
      ensures Valid() && s == t && Remaining() == Order(t)
    {
      s, i, j := t, 0, 0;
    }

    /** The next entry of the Map. */
    method FromHash() returns (e: Step)
      requires Valid()
      modifies this`j
      ensures Valid()
      ensures
        var left := old(s.hash.order[j..]);
        if left == [] then e == End && j == old(j)
        else e == Entry(left[0], Get(s.hash, left[0])) && s.hash.order[j..] == left[1..]
    {
      var m := NextHeld(s.hash, j);
      NoneSkipped(s.hash, j, m);
      if m == |s.hash.order| { return End; }
      j := m + 1;
      e := Entry(s.hash.order[m], Get(s.hash, s.hash.order[m]));
    }

    /** The next own property of a RECORD, then the side map. */
    method FromFields() returns (e: Step)
      requires Valid() && s.shape == RECORD
      modifies this`i, this`j
      ensures Valid()
      ensures e == Head(s, old(Remaining())) && Remaining() == Tail(old(Remaining()))
    {
      var m := NextHeld(s.fields, i);
      NoneSkipped(s.fields, i, m);
      if m == |s.fields.order| {
        e := FromHash();
      } else {
        FirstField(s, m, s.hash.order[j..]);
        i := m + 1;
        e := Entry(s.fields.order[m], Get(s.fields, s.fields.order[m]));
      }
    }

    /** The next element of an ARRAY, then the side map. */
    method FromItems() returns (e: Step)
      requires Valid() && s.shape == ARRAY
      modifies this`i, this`j
      ensures Valid()
      ensures e == Head(s, old(Remaining())) && Remaining() == Tail(old(Remaining()))
    {
      i := i + 1;
      while i < |s.items|
        invariant j == old(j) && i > 0 && ItemKeys(s.items, i) == ItemKeys(s.items, old(i) + 1)
      {
        if s.items[i] != Nil {
          assert ItemKeys(s.items, i) + s.hash.order[j..] == [Int(i)] + (ItemKeys(s.items, i + 1) + s.hash.order[j..]);
          assert IsIndex(Int(i)) && IndexOf(Int(i)) == i;
          return Entry(Int(i), s.items[i]);
        }
        i := i + 1;
      }
      e := FromHash();
    }

    /** One call of the closure. */
    method Call() returns (e: Step)
      requires Valid()
      modifies this`i, this`j
      ensures Valid()
      ensures e == Head(s, old(Remaining())) && Remaining() == Tail(old(Remaining()))
    {
      match s.shape
      case MAP => e := FromHash();
      case ARRAY => e := FromItems();
      case RECORD => e := FromFields();
    }
  }

  // ----- next -----

  lemma {:induction false} RankIs(ks: seq<Value>, k: Value, p: nat)
    requires p < |ks| && ks[p] == k && k !in ks[..p]
    ensures Rank(ks, k) == p
  {
    if p > 0 {
      assert ks[0] == ks[..p][0];
      assert ks[1..][..p - 1] == ks[..p][1..];
      RankIs(ks[1..], k, p - 1);
    }
  }

  /** The search of `next` through a Map. */
  method NextInMap(s: State, k: Value) returns (r: Step)
    requires WellFormed(s) && s.shape == MAP && k != Nil
    ensures r == After(s, k)
  {
    var order, m := s.hash.order, 0;
    while m < |order| && order[m] != k
      invariant 0 <= m <= |order| && k !in order[..m]
    {
      m := m + 1;
    }
    if m == |order| { return Invalid; }
    RankIs(order, k, m);
    var n := NextHeld(s.hash, m + 1);
    NoneSkipped(s.hash, m + 1, n);
    r := if n < |order| then Entry(order[n], Get(s.hash, order[n])) else End;
  }

  /** `left` is what comes from the `p`-th key on, and `k` was none of those before. */
  ghost predicate Passed(s: State, k: Value, p: nat, left: seq<Value>) {
    p <= |Order(s)| && left == Order(s)[p..] && k !in Order(s)[..p]
  }

  lemma AfterFound(s: State, k: Value, p: nat, left: seq<Value>)
    requires k != Nil && Passed(s, k, p, left) && left != [] && left[0] == k
    ensures After(s, k) == Head(s, Tail(left))
  {
    RankIs(Order(s), k, p);
    assert left[1..] == Order(s)[p + 1..];
  }

  lemma OneFurther(s: State, k: Value, p: nat, left: seq<Value>)
    requires Passed(s, k, p, left) && left != [] && left[0] != k
    ensures Passed(s, k, p + 1, Tail(left))
  {
    var order := Order(s);
    assert order[..p + 1] == order[..p] + [order[p]];
  }

  lemma NotThere(s: State, k: Value, p: nat, left: seq<Value>)
    requires k != Nil && Passed(s, k, p, left) && left == []
    ensures After(s, k) == Invalid
  {
    assert Order(s)[..p] == Order(s);
  }

  /** The search through the closure of an ARRAY or a RECORD. */
  method NextByWalking(s: State, k: Value) returns (r: Step)
    requires WellFormed(s) && k != Nil
    ensures r == After(s, k)
  {
    var it := new Pairs(s);
    ghost var p, left := 0, Order(s);
    r := it.Call();
    while r != End
      invariant it.Valid() && it.s == s && fresh(it)
      invariant Passed(s, k, p, left) && r == Head(s, left) && it.Remaining() == Tail(left)
      decreases |left|
    {
      if r.key == k {
        AfterFound(s, k, p, left);
        r := it.Call();
        return;
      }
      OneFurther(s, k, p, left);
      r := it.Call();
      p, left := p + 1, Tail(left);
    }
    NotThere(s, k, p, left);
    r := Invalid;
  }

  /** `next` */
  method Next(t: LuaTable, k: Value) returns (r: Step)
    requires WellFormed(t.View())
    ensures r == After(t.View(), k)
  {
    var s := State(t.shape, t.items, t.fields, t.hash, t.hasHash, t.border);
    if k == Nil {
      var it := new Pairs(s);
      r := it.Call();
    } else if t.shape == MAP {
      r := NextInMap(s, k);
    } else {
      r := NextByWalking(s, k);
    }
  }

  // ----- the walk is complete -----

  lemma {:induction false} ItemKeysOnce(items: seq<Value>, i: nat)
    requires i >= 1
    ensures Distinct(ItemKeys(items, i))
    ensures forall k :: k in ItemKeys(items, i) <==>
      IsIndex(k) && i <= IndexOf(k) < |items| && items[IndexOf(k)] != Nil
    decreases |items| - i
  {
    if i < |items| {
      ItemKeysOnce(items, i + 1);
      assert IsIndex(Int(i)) && IndexOf(Int(i)) == i;
    }
  }

  lemma Joined(a: seq<Value>, b: seq<Value>)
    requires Distinct(a) && Distinct(b) && forall k | k in a :: k !in b
    ensures Distinct(a + b) && forall k :: k in a + b <==> k in a || k in b
  {
    assert forall i | 0 <= i < |a| :: a[i] in a;
    assert forall i | 0 <= i < |b| :: b[i] in b;
  }

  /** The walk lists every key that has a value, once. */
  lemma OrderComplete(s: State)
    requires WellFormed(s)
    ensures Distinct(Order(s)) && forall k :: k in Order(s) <==> Look(s, k) != Nil
  {
    match s.shape
    case MAP =>
    case ARRAY =>
      ItemKeysOnce(s.items, 1);
      Joined(ItemKeys(s.items, 1), s.hash.order);
    case RECORD =>
      Joined(s.fields.order, s.hash.order);
  }

  /** The place of the walk after `k`. */
  function Since(s: State, k: Value): nat
    requires k == Nil || k in Order(s)
  {
    if k == Nil then 0 else Rank(Order(s), k) + 1
  }

  /** The keys met by asking for the key after `k`, and so on to the end. */
  ghost function Walked(s: State, k: Value): seq<Value>
    requires WellFormed(s) && (k == Nil || k in Order(s))
    decreases |Order(s)| - Since(s, k)
  {
    match After(s, k)
    case End => []
    case Entry(next, _) =>
      Follows(s, k);
      [next] + Walked(s, next)
  }

  lemma Follows(s: State, k: Value)
    requires WellFormed(s) && (k == Nil || k in Order(s))
    ensures After(s, k) == Head(s, Order(s)[Since(s, k)..])
    ensures
      var left := Order(s)[Since(s, k)..];
      left != [] ==> left[0] != Nil && left[0] in Order(s) && Since(s, left[0]) == Since(s, k) + 1
  {
    OrderComplete(s);
    var p := Since(s, k);
    if p < |Order(s)| {
      assert Order(s)[p] in Order(s);
      RankIs(Order(s), Order(s)[p], p);
      assert Look(s, Nil) == Nil;
    }
  }

  /** Walking from nil meets every key that has a value, once. */
  lemma NextVisitsAll(s: State)
    requires WellFormed(s)
    ensures Distinct(Walked(s, Nil)) && forall k :: k in Walked(s, Nil) <==> Look(s, k) != Nil
  {
    OrderComplete(s);
    WalkedFrom(s, Nil);
  }

  lemma {:induction false} WalkedFrom(s: State, k: Value)
    requires WellFormed(s) && (k == Nil || k in Order(s))
    ensures Walked(s, k) == Order(s)[Since(s, k)..]
    decreases |Order(s)| - Since(s, k)
  {
    var next := WalkStep(s, k);
    if next != Nil {
      WalkedFrom(s, next);
      FirstAndRest(Order(s), Since(s, k));
    }
  }

  lemma {:induction false} WalkStep(s: State, k: Value) returns (next: Value)
    requires WellFormed(s) && (k == Nil || k in Order(s))
    ensures next == Nil ==> Since(s, k) == |Order(s)| && Walked(s, k) == []
    ensures next != Nil ==> Since(s, k) < |Order(s)| && next == Order(s)[Since(s, k)] && next in Order(s)
    ensures next != Nil ==> Since(s, next) == Since(s, k) + 1 && Walked(s, k) == [next] + Walked(s, next)
  {
    Follows(s, k);
    next := if Since(s, k) < |Order(s)| then Order(s)[Since(s, k)] else Nil;
  }

  lemma FirstAndRest(order: seq<Value>, p: nat)
    requires p < |order|
    ensures order[p..] == [order[p]] + order[p + 1..]
  {}
}
