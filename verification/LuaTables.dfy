/** pack.js, tables: three shapes and a side map behind one meaning. */
module LuaTables {

  /** A Lua value. Tables, functions and userdata are references; numbers are finite ones and NaN. */
  datatype Value = Nil | NaN | Num(x: real) | Bool(b: bool) | Str(s: string) | Ref(r: nat)

  datatype Shape = ARRAY | RECORD | MAP

  datatype Error = IndexIsNil | IndexIsNaN | InvalidKey

  /** An index that a JS array holds as an element. */
  const ARRAY_LIMIT: nat := 0xffff_ffff

  function Int(i: int): Value { Num(i as real) }

  /** `Number.isInteger(k) && k >= 1`. */
  predicate IsIndex(k: Value) {
    k.Num? && k.x >= 1.0 && k.x.Floor as real == k.x
  }

  function IndexOf(k: Value): (i: nat)
    requires IsIndex(k)
    ensures i >= 1 && Int(i) == k
  {
    k.x.Floor
  }

  // ----- an ordered map: a JS Map, or the own properties of a JS object -----

  datatype Ordered = Ordered(order: seq<Value>, vals: map<Value, Value>)

  predicate Distinct(ks: seq<Value>) {
    forall i, j | 0 <= i < j < |ks| :: ks[i] != ks[j]
  }

  ghost predicate Proper(o: Ordered) {
    && Distinct(o.order)
    && (forall k :: k in o.order <==> k in o.vals)
    && forall k | k in o.vals :: k != Nil && k != NaN && o.vals[k] != Nil
  }

  const NONE: Ordered := Ordered([], map[])

  function Get(o: Ordered, k: Value): Value {
    if k in o.vals then o.vals[k] else Nil
  }

  /** A new key goes in at position `at`; an old one keeps its place. */
  function Put(o: Ordered, k: Value, v: Value, at: nat): Ordered
    requires at <= |o.order|
  {
    Ordered(if k in o.vals then o.order else o.order[..at] + [k] + o.order[at..], o.vals[k := v])
  }

  function Without(ks: seq<Value>, k: Value): seq<Value> {
    if ks == [] then []
    else if ks[|ks| - 1] == k then ks[..|ks| - 1]
    else Without(ks[..|ks| - 1], k) + [ks[|ks| - 1]]
  }

  function Delete(o: Ordered, k: Value): Ordered {
    Ordered(Without(o.order, k), o.vals - {k})
  }

  lemma {:induction false} WithoutKeeps(ks: seq<Value>, k: Value)
    requires Distinct(ks)
    ensures Distinct(Without(ks, k)) && forall x :: x in Without(ks, k) <==> x in ks && x != k
  {
    if ks != [] {
      var most, last := ks[..|ks| - 1], ks[|ks| - 1];
      assert ks == most + [last];
      WithoutKeeps(most, k);
      assert last !in most;
    }
  }

  lemma PutProper(o: Ordered, k: Value, v: Value, at: nat)
    requires Proper(o) && at <= |o.order| && k != Nil && k != NaN && v != Nil
    ensures Proper(Put(o, k, v, at))
  {
    if k !in o.vals { InsertDistinct(o.order, k, at); }
  }

  lemma InsertDistinct(ks: seq<Value>, k: Value, at: nat)
    requires Distinct(ks) && k !in ks && at <= |ks|
    ensures Distinct(ks[..at] + [k] + ks[at..]) && forall x :: x in ks[..at] + [k] + ks[at..] <==> x == k || x in ks
  {
    JoinDistinct(ks[..at], ks[at..], k);
    assert ks == ks[..at] + ks[at..];
  }

  lemma JoinDistinct(a: seq<Value>, b: seq<Value>, k: Value)
    requires Distinct(a + b) && k !in a && k !in b
    ensures Distinct(a + [k] + b)
  {
    var now := a + [k] + b;
    forall i, j | 0 <= i < j < |now|
      ensures now[i] != now[j]
    {
      if i != |a| && j != |a| {
        var u, v := if i < |a| then i else i - 1, if j < |a| then j else j - 1;
        assert now[i] == (a + b)[u] && now[j] == (a + b)[v];
      }
    }
  }

  lemma DeleteProper(o: Ordered, k: Value)
    requires Proper(o)
    ensures Proper(Delete(o, k))
  {
    WithoutKeeps(o.order, k);
  }

  // ----- the order of an object's own keys: array-like ones ascending, then the others as they came -----

  predicate IsDigit(c: char) { '0' <= c <= '9' }

  /** A canonical numeral below 2^32 - 1. */
  predicate ArrayLike(s: string) {
    && 0 < |s| <= 10 && (forall i | 0 <= i < |s| :: IsDigit(s[i])) && (s[0] == '0' ==> |s| == 1)
    && Reading(s) < ARRAY_LIMIT
  }

  function Reading(s: string): int {
    if s == [] then 0 else 10 * Reading(s[..|s| - 1]) + (s[|s| - 1] as int - '0' as int)
  }

  /** Where a new own property goes. */
  function Place(ks: seq<Value>, k: string): (at: nat)
    ensures at <= |ks|
  {
    if ks != [] && (ArrayLike(k) && !(ks[|ks| - 1].Str? && ArrayLike(ks[|ks| - 1].s)
                                      && Reading(ks[|ks| - 1].s) < Reading(k)))
    then Place(ks[..|ks| - 1], k)
    else |ks|
  }

  /** An array-like key comes after array-like ones only, none of them greater. */
  predicate Precedes(a: Value, b: Value) {
    b.Str? && ArrayLike(b.s) ==> a.Str? && ArrayLike(a.s) && Reading(a.s) <= Reading(b.s)
  }

  /** Array-like keys come first and ascend. */
  predicate OwnOrder(ks: seq<Value>) {
    forall i, j | 0 <= i < j < |ks| :: Precedes(ks[i], ks[j])
  }

  lemma {:induction false} OwnOrderBefore(ks: seq<Value>)
    requires OwnOrder(ks) && ks != []
    ensures OwnOrder(ks[..|ks| - 1])
  {}

  /** What comes before the place of a new key precedes it, and it precedes what comes after. */
  lemma {:induction false} PlaceBetween(ks: seq<Value>, k: string)
    requires OwnOrder(ks)
    ensures forall i | 0 <= i < Place(ks, k) :: Precedes(ks[i], Str(k))
    ensures forall i | Place(ks, k) <= i < |ks| :: Precedes(Str(k), ks[i])
    ensures !ArrayLike(k) ==> Place(ks, k) == |ks|
    decreases |ks|
  {
    if ks != [] && ArrayLike(k) {
      var last := ks[|ks| - 1];
      if last.Str? && ArrayLike(last.s) && Reading(last.s) < Reading(k) {
        forall i | 0 <= i < |ks|
          ensures Precedes(ks[i], Str(k))
        {
          assert i < |ks| - 1 ==> Precedes(ks[i], last);
        }
      } else {
        OwnOrderBefore(ks);
        PlaceBetween(ks[..|ks| - 1], k);
      }
    }
  }

  lemma {:induction false} PlaceOrdered(ks: seq<Value>, k: string)
    requires OwnOrder(ks)
    ensures OwnOrder(ks[..Place(ks, k)] + [Str(k)] + ks[Place(ks, k)..])
  {
    PlaceBetween(ks, k);
  }

  /** Taking a key away leaves the others as they were. */
  lemma {:induction false} WithoutOne(a: seq<Value>, k: Value, b: seq<Value>)
    requires k !in b
    ensures Without(a + [k] + b, k) == a + b
    decreases |b|
  {
    var ks := a + [k] + b;
    if b == [] {
      assert ks[..|ks| - 1] == a == a + b;
    } else {
      var c := b[..|b| - 1];
      assert ks[..|ks| - 1] == a + [k] + c && ks[|ks| - 1] == b[|b| - 1] != k;
      WithoutOne(a, k, c);
      assert a + c + [b[|b| - 1]] == a + b;
    }
  }

  lemma {:induction false} WithoutOrdered(ks: seq<Value>, k: Value)
    requires OwnOrder(ks)
    ensures OwnOrder(Without(ks, k)) && forall x | x in Without(ks, k) :: x in ks
    decreases |ks|
  {
    if ks != [] {
      OwnOrderBefore(ks);
      WithoutOrdered(ks[..|ks| - 1], k);
      var last, less := ks[|ks| - 1], Without(ks[..|ks| - 1], k);
      forall x | x in less
        ensures Precedes(x, last)
      {
        var i :| 0 <= i < |ks| - 1 && ks[i] == x;
      }
    }
  }

  // ----- the state of a table and what it means -----

  /** `items` is the element list of an ARRAY (index 0 unused), `fields` the own properties of a RECORD; `hash` is the
      Map of a MAP, or the side map of the others once it exists; `border` is what BORDER remembers of that map. */
  datatype State = State(shape: Shape, items: seq<Value>, fields: Ordered, hash: Ordered, hasHash: bool, border: Option)

  datatype Option = None | Some(b: real)

  /** The raw value at a key, nil when there is none. */
  function Look(t: State, k: Value): Value {
    match t.shape
    case MAP => Get(t.hash, k)
    case ARRAY => if IsIndex(k) then (if IndexOf(k) < |t.items| then t.items[IndexOf(k)] else Nil) else Get(t.hash, k)
    case RECORD => if k.Str? then Get(t.fields, k) else Get(t.hash, k)
  }

  /** A trimmed element list: something at the end, or nothing at all. */
  predicate Trimmed(items: seq<Value>) {
    |items| > 0 && items[0] == Nil && (|items| > 1 ==> items[|items| - 1] != Nil)
  }

  ghost predicate WellFormed(t: State) {
    && Proper(t.hash) && Proper(t.fields)
    && (!t.hasHash ==> t.hash == NONE && t.border == None)
    && (t.shape == MAP ==> t.hasHash)
    && (t.shape == ARRAY ==> Trimmed(t.items) && |t.items| <= ARRAY_LIMIT)
    && (forall k | k in t.fields.vals :: k.Str?)
    && (t.shape == ARRAY ==> forall k | k in t.hash.vals :: !IsIndex(k))
    && (t.shape == RECORD ==> forall k | k in t.hash.vals :: !k.Str?)
  }

  /** Whether a key is kept in the Map rather than in the shape. */
  predicate InHash(t: State, k: Value) {
    match t.shape
    case MAP => true
    case ARRAY => !IsIndex(k)
    case RECORD => !k.Str?
  }

  /** What `mdel` leaves of the remembered border. */
  function BorderAfter(t: State, k: Value, v: Value): Option {
    if v == Nil && InHash(t, k) && k.Num? && t.border.Some? && k.x <= t.border.b then Some(k.x - 1.0) else t.border
  }

  /** The element list with `v` at `i`: a JS array grows by holes. */
  function WithElement(items: seq<Value>, i: nat, v: Value): (r: seq<Value>)
    ensures |r| > i && r[i] == v && |r| >= |items|
    ensures forall j | 0 <= j < |r| && j != i :: r[j] == if j < |items| then items[j] else Nil
  {
    if i < |items| then items[i := v] else items + seq(i - |items|, _ => Nil) + [v]
  }

  /** `trim` */
  method Trim(a: seq<Value>) returns (r: seq<Value>)
    requires |a| > 0 && a[0] == Nil
    ensures Trimmed(r) && r <= a
    ensures forall j | |r| <= j < |a| :: a[j] == Nil
  {
    r := a;
    while |r| > 1 && r[|r| - 1] == Nil
      invariant 0 < |r| <= |a| && r == a[..|r|]
      invariant forall j | |r| <= j < |a| :: a[j] == Nil
    {
      r := r[..|r| - 1];
    }
  }

  /** The own properties with a key set or, by nil, deleted. */
  function WithField(o: Ordered, k: Value, v: Value): Ordered
    requires k.Str?
  {
    if v == Nil then Delete(o, k) else Put(o, k, v, Place(o.order, k.s))
  }

  lemma {:induction false} FieldSet(o: Ordered, k: Value, v: Value)
    requires Proper(o) && k.Str?
    ensures Proper(WithField(o, k, v)) && forall x :: Get(WithField(o, k, v), x) == if x == k then v else Get(o, x)
  {
    if v == Nil { DeleteProper(o, k); } else { PutProper(o, k, v, Place(o.order, k.s)); }
  }

  /** The order of the own keys is kept. */
  lemma {:induction false} FieldOrdered(o: Ordered, k: Value, v: Value)
    requires k.Str? && OwnOrder(o.order)
    ensures OwnOrder(WithField(o, k, v).order)
  {
    WithoutOrdered(o.order, k);
    PlaceOrdered(o.order, k.s);
  }

  /** A new key goes at the end unless it is array-like, and the others stay in their order. */
  lemma {:induction false} FieldAdded(o: Ordered, k: Value, v: Value)
    requires Proper(o) && k.Str? && v != Nil && k !in o.vals
    ensures var now := WithField(o, k, v).order;
            Without(now, k) == o.order && (!ArrayLike(k.s) ==> now == o.order + [k])
  {
    var at := Place(o.order, k.s);
    WithoutOne(o.order[..at], k, o.order[at..]);
    assert o.order[..at] + o.order[at..] == o.order;
  }

  /** Without the key just set or deleted the order is the one before. */
  lemma {:induction false} FieldOrder(o: Ordered, k: Value, v: Value)
    requires Proper(o) && k.Str?
    ensures Without(WithField(o, k, v).order, k) == Without(o.order, k)
    ensures v != Nil && k in o.vals ==> WithField(o, k, v).order == o.order
  {
    if v == Nil {
      WithoutKeeps(o.order, k);
      WithoutAbsent(Without(o.order, k), k);
    } else if k !in o.vals {
      FieldAdded(o, k, v);
      WithoutAbsent(o.order, k);
    }
  }

  lemma {:induction false} WithoutAbsent(ks: seq<Value>, k: Value)
    requires k !in ks
    ensures Without(ks, k) == ks
  {
    if ks != [] { WithoutAbsent(ks[..|ks| - 1], k); }
  }

  class LuaTable {
    const shape: Shape
    var items: seq<Value>
    var fields: Ordered
    var hash: Ordered
    var hasHash: bool
    var border: Option

    ghost function View(): State
      reads this
    {
      State(shape, items, fields, hash, hasHash, border)
    }

    /** An empty table of a shape. */
    constructor (s: Shape)
      ensures WellFormed(View()) && shape == s && border == None && OwnOrder(fields.order)
      ensures forall k :: Look(View(), k) == Nil
    {
      shape, items, fields, hash, hasHash, border := s, [Nil], NONE, NONE, s.MAP?, None;
    }

    method RawGet(k: Value) returns (v: Value)
      requires WellFormed(View())
      ensures v == Look(View(), k)
    {
      match shape
      case MAP => v := Get(hash, k);
      case ARRAY =>
        if IsIndex(k) { v := if IndexOf(k) < |items| then items[IndexOf(k)] else Nil; }
        else { v := if hasHash then Get(hash, k) else Nil; }
      case RECORD =>
        if k.Str? { v := Get(fields, k); }
        else { v := if hasHash then Get(hash, k) else Nil; }
    }

    /** `mdel` */
    method MapDelete(k: Value)
      requires WellFormed(View()) && InHash(View(), k)
      modifies this`hash, this`border
      ensures WellFormed(View()) && border == BorderAfter(old(View()), k, Nil)
      ensures hash == Delete(old(hash), k)
    {
      DeleteProper(hash, k);
      hash := Delete(hash, k);
      if k.Num? && border.Some? && k.x <= border.b {
        border := Some(k.x - 1.0);
      }
    }

    /** A key of the Map, set or deleted. */
    method SetHash(k: Value, v: Value)
      requires WellFormed(View()) && InHash(View(), k) && k != Nil && k != NaN
      modifies this`hash, this`hasHash, this`border
      ensures WellFormed(View()) && border == BorderAfter(old(View()), k, v)
      ensures forall x :: Get(hash, x) == if x == k then v else Get(old(hash), x)
      ensures v != Nil ==> hash.order == if k in old(hash).vals then old(hash).order else old(hash).order + [k]
    {
      if v == Nil {
        if hasHash { MapDelete(k); }
      } else {
        PutProper(hash, k, v, |hash.order|);
        hasHash, hash := true, Put(hash, k, v, |hash.order|);
      }
    }

    /** A string key of a RECORD. */
    method SetField(k: Value, v: Value)
      requires WellFormed(View()) && shape == RECORD && k.Str?
      modifies this`fields
      ensures WellFormed(View())
      ensures forall x :: Get(fields, x) == if x == k then v else Get(old(fields), x)
      ensures fields == WithField(old(fields), k, v)
      ensures OwnOrder(old(fields).order) ==> OwnOrder(fields.order)
    {
      FieldSet(fields, k, v);
      if OwnOrder(fields.order) { FieldOrdered(fields, k, v); }
      if v == Nil {
        fields := Delete(fields, k);
      } else {
        fields := Put(fields, k, v, Place(fields.order, k.s));
      }
    }

    /** An element of an ARRAY. */
    method SetElement(k: Value, v: Value)
      requires WellFormed(View()) && shape == ARRAY && IsIndex(k) && IndexOf(k) < ARRAY_LIMIT
      modifies this`items
      ensures WellFormed(View())
      ensures forall x :: Look(View(), x) == if x == k then v else Look(old(View()), x)
    {
      items := WithElement(items, IndexOf(k), v);
      if v == Nil { items := Trim(items); }
    }

    /** `rawset`: whatever its shape, the table is the map with one entry changed. */
    method RawSet(k: Value, v: Value) returns (e: Result)
      requires WellFormed(View()) && (shape == ARRAY && IsIndex(k) ==> IndexOf(k) < ARRAY_LIMIT)
      modifies this`items, this`fields, this`hash, this`hasHash, this`border
      ensures WellFormed(View())
      ensures e == if k == Nil then Raised(IndexIsNil) else if k == NaN then Raised(IndexIsNaN) else Fine
      ensures e != Fine ==> View() == old(View())
      ensures e == Fine ==> forall x :: Look(View(), x) == if x == k then v else Look(old(View()), x)
      ensures e == Fine ==> border == BorderAfter(old(View()), k, v)
      ensures OwnOrder(old(fields).order) ==> OwnOrder(fields.order)
    {
      if k == Nil { return Raised(IndexIsNil); }
      if k == NaN { return Raised(IndexIsNaN); }
      if shape == ARRAY && IsIndex(k) { SetElement(k, v); }
      else if shape == RECORD && k.Str? { SetField(k, v); }
      else { SetHash(k, v); }
      e := Fine;
    }
  }

  datatype Result = Fine | Raised(error: Error)
}
