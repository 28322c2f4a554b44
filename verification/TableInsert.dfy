/** pack.js, `table.insert` and `table.remove`, which shift a sequence through `rawget` and `rawset`. */
module TableInsert {
  import opened LuaTables
  import opened TableBorder

  /** The `i`-th value of a sequence, nil outside it. */
  function At(s: seq<Value>, i: int): Value {
    if 1 <= i <= |s| then s[i - 1] else Nil
  }

  /** The positive integer keys of the table are those of the sequence, without a hole. */
  ghost predicate HoleFree(t: State, s: seq<Value>) {
    && (forall i | 0 <= i < |s| :: s[i] != Nil)
    && forall i: int | i >= 1 :: Look(t, Int(i)) == At(s, i)
  }

  ghost predicate SameElsewhere(t: State, u: State) {
    forall x | !IsIndex(x) :: Look(u, x) == Look(t, x)
  }

  /** On a hole-free sequence the only border is its length. */
  lemma OnlyBorder(t: State, s: seq<Value>, n: real)
    requires HoleFree(t, s) && IsBorder(t, n)
    ensures n == |s| as real
  {
    var i := n.Floor;
    assert n == i as real && Num(n + 1.0) == Int(i + 1);
    assert Look(t, Int(i + 1)) == At(s, i + 1);
    if i > 0 { assert Look(t, Int(i)) == At(s, i); }
  }

  function Inserted(s: seq<Value>, p: nat, v: Value): seq<Value>
    requires 1 <= p <= |s| + 1
  {
    s[..p - 1] + [v] + s[p - 1..]
  }

  function Removed(s: seq<Value>, p: nat): seq<Value>
    requires 1 <= p <= |s|
  {
    s[..p - 1] + s[p..]
  }

  /** The table can grow by one element. */
  predicate HasRoom(t: LuaTable, s: seq<Value>) {
    t.shape == ARRAY ==> |s| + 1 < ARRAY_LIMIT
  }

  /** What an ARRAY holds is within its limit. */
  lemma InArray(t: State, s: seq<Value>)
    requires WellFormed(t) && HoleFree(t, s)
    ensures t.shape == ARRAY ==> |s| < ARRAY_LIMIT
  {
    if t.shape == ARRAY && s != [] {
      assert Look(t, Int(|s|)) == At(s, |s|);
      assert IsIndex(Int(|s|)) && IndexOf(Int(|s|)) == |s|;
    }
  }

  /** `#` of a hole-free sequence. */
  method CountOf(t: LuaTable, ghost s: seq<Value>) returns (n: nat)
    requires WellFormed(t.View()) && Remembers(t.View()) && HoleFree(t.View(), s)
    modifies t`border
    ensures WellFormed(t.View()) && Remembers(t.View()) && HoleFree(t.View(), s) && n == |s|
    ensures SameElsewhere(old(t.View()), t.View())
  {
    ghost var before := t.View();
    var r := Length(t);
    LengthIsBorder(before, r);
    OnlyBorder(before, s, r);
    n := r.Floor;
    assert t.border != before.border ==> t.View() == before.(border := Some(r));
    assert forall x :: Look(t.View(), x) == Look(before, x);
  }

  /** `rawset` at a positive integer. */
  method SetAt(t: LuaTable, i: nat, v: Value)
    requires WellFormed(t.View()) && Remembers(t.View()) && i >= 1 && (t.shape == ARRAY ==> i < ARRAY_LIMIT)
    modifies t`items, t`fields, t`hash, t`hasHash, t`border
    ensures WellFormed(t.View()) && Remembers(t.View())
    ensures forall x :: Look(t.View(), x) == if x == Int(i) then v else Look(old(t.View()), x)
  {
    ghost var before := t.View();
    assert IsIndex(Int(i)) && IndexOf(Int(i)) == i;
    var e := t.RawSet(Int(i), v);
    RemembersAfter(before, t.View(), Int(i), v);
  }

  /** Up to `k` the sequence is in place, after `k` it is one further. */
  ghost predicate ShiftedUp(t: State, s: seq<Value>, k: int) {
    forall i: int | i >= 1 :: Look(t, Int(i)) == At(s, if i <= k then i else i - 1)
  }

  lemma ShiftUp(t: State, u: State, s: seq<Value>, k: nat)
    requires ShiftedUp(t, s, k + 1) && k >= 1
    requires forall x :: Look(u, x) == if x == Int(k + 1) then At(s, k) else Look(t, x)
    ensures ShiftedUp(u, s, k) && SameElsewhere(t, u)
  {
    assert IsIndex(Int(k + 1)) && IndexOf(Int(k + 1)) == k + 1;
    forall i: int | i >= 1 ensures Look(u, Int(i)) == At(s, if i <= k then i else i - 1) {
      assert Int(i) == Int(k + 1) <==> i == k + 1;
    }
  }

  /** `table.insert(t, p, v)` */
  method InsertAt(t: LuaTable, p: nat, v: Value, ghost s: seq<Value>)
    requires WellFormed(t.View()) && Remembers(t.View()) && HoleFree(t.View(), s) && HasRoom(t, s)
    requires 1 <= p <= |s| + 1 && v != Nil
    modifies t`items, t`fields, t`hash, t`hasHash, t`border
    ensures WellFormed(t.View()) && Remembers(t.View()) && HoleFree(t.View(), Inserted(s, p, v))
    ensures SameElsewhere(old(t.View()), t.View())
  {
    var n := CountOf(t, s);
    OpenGap(t, p, n, s);
    ghost var before := t.View();
    SetAt(t, p, v);
    Placed(before, t.View(), s, p, v);
  }

  /** `t` came from `first`, with `s` moved up after `k`. */
  ghost predicate Opened(first: State, t: State, s: seq<Value>, k: int) {
    WellFormed(t) && Remembers(t) && ShiftedUp(t, s, k) && SameElsewhere(first, t)
  }

  /** The loop of `table.insert`. */
  method OpenGap(t: LuaTable, p: nat, n: nat, ghost s: seq<Value>)
    requires WellFormed(t.View()) && Remembers(t.View()) && HoleFree(t.View(), s) && HasRoom(t, s)
    requires 1 <= p <= n + 1 && n == |s|
    modifies t`items, t`fields, t`hash, t`hasHash, t`border
    ensures WellFormed(t.View()) && Remembers(t.View()) && SameElsewhere(old(t.View()), t.View())
    ensures ShiftedUp(t.View(), s, p)
  {
    ghost var first := t.View();
    var k: int := n;
    while k >= p
      invariant p - 1 <= k <= n && Opened(first, t.View(), s, k + 1)
    {
      MoveUp(t, k, first, s);
      k := k - 1;
    }
  }

  /** One element moved up by one. */
  method MoveUp(t: LuaTable, k: nat, ghost first: State, ghost s: seq<Value>)
    requires HasRoom(t, s) && 1 <= k <= |s| && Opened(first, t.View(), s, k + 1)
    modifies t`items, t`fields, t`hash, t`hasHash, t`border
    ensures Opened(first, t.View(), s, k)
  {
    ghost var before := t.View();
    var x := t.RawGet(Int(k));
    assert x == At(s, k);
    SetAt(t, k + 1, x);
    ShiftUp(before, t.View(), s, k);
  }

  /** `table.insert(t, v)`, the form without a position. */
  method Append(t: LuaTable, v: Value, ghost s: seq<Value>)
    requires WellFormed(t.View()) && Remembers(t.View()) && HoleFree(t.View(), s) && HasRoom(t, s) && v != Nil
    modifies t`items, t`fields, t`hash, t`hasHash, t`border
    ensures WellFormed(t.View()) && Remembers(t.View()) && HoleFree(t.View(), s + [v])
    ensures SameElsewhere(old(t.View()), t.View())
  {
    var n := CountOf(t, s);
    ghost var before := t.View();
    SetAt(t, n + 1, v);
    assert Inserted(s, n + 1, v) == s + [v];
    Placed(before, t.View(), s, n + 1, v);
  }

  lemma Placed(t: State, u: State, s: seq<Value>, p: nat, v: Value)
    requires 1 <= p <= |s| + 1 && v != Nil && ShiftedUp(t, s, p) && forall i | 0 <= i < |s| :: s[i] != Nil
    requires forall x :: Look(u, x) == if x == Int(p) then v else Look(t, x)
    ensures HoleFree(u, Inserted(s, p, v)) && SameElsewhere(t, u)
  {
    var r := Inserted(s, p, v);
    assert IsIndex(Int(p)) && IndexOf(Int(p)) == p;
    forall i: int | i >= 1 ensures Look(u, Int(i)) == At(r, i) {
      assert Int(i) == Int(p) <==> i == p;
      assert Look(t, Int(i)) == At(s, if i <= p then i else i - 1);
    }
  }

  /** Before `k` the sequence is in place but for its `p`-th, from `k` on nothing was moved. */
  ghost predicate ShiftedDown(t: State, s: seq<Value>, p: int, k: int) {
    forall i: int | i >= 1 :: Look(t, Int(i)) == At(s, if p <= i < k then i + 1 else i)
  }

  lemma ShiftDown(t: State, u: State, s: seq<Value>, p: nat, k: nat)
    requires 1 <= p <= k && ShiftedDown(t, s, p, k)
    requires forall x :: Look(u, x) == if x == Int(k) then At(s, k + 1) else Look(t, x)
    ensures ShiftedDown(u, s, p, k + 1) && SameElsewhere(t, u)
  {
    assert IsIndex(Int(k)) && IndexOf(Int(k)) == k;
    forall i: int | i >= 1 ensures Look(u, Int(i)) == At(s, if p <= i < k + 1 then i + 1 else i) {
      assert Int(i) == Int(k) <==> i == k;
    }
  }

  /** `table.remove(t, p)`; an empty sequence is left alone. */
  method RemoveAt(t: LuaTable, p: nat, ghost s: seq<Value>) returns (v: Value)
    requires WellFormed(t.View()) && Remembers(t.View()) && HoleFree(t.View(), s)
    requires 1 <= p <= |s| || s == []
    modifies t`items, t`fields, t`hash, t`hasHash, t`border
    ensures WellFormed(t.View()) && Remembers(t.View()) && SameElsewhere(old(t.View()), t.View())
    ensures s == [] ==> v == Nil && HoleFree(t.View(), s)
    ensures s != [] ==> v == s[p - 1] && HoleFree(t.View(), Removed(s, p))
  {
    var n := CountOf(t, s);
    if n == 0 { return Nil; }
    v := TakeOut(t, p, n, s);
  }

  /** `table.remove(t)`: the last one. */
  method RemoveLast(t: LuaTable, ghost s: seq<Value>) returns (v: Value)
    requires WellFormed(t.View()) && Remembers(t.View()) && HoleFree(t.View(), s)
    modifies t`items, t`fields, t`hash, t`hasHash, t`border
    ensures WellFormed(t.View()) && Remembers(t.View()) && SameElsewhere(old(t.View()), t.View())
    ensures s == [] ==> v == Nil && HoleFree(t.View(), s)
    ensures s != [] ==> v == s[|s| - 1] && HoleFree(t.View(), s[..|s| - 1])
  {
    var n := CountOf(t, s);
    if n == 0 { return Nil; }
    v := TakeOut(t, n, n, s);
    assert Removed(s, n) == s[..n - 1];
  }

  /** The value at `p` of `n`, the others closing up. */
  method TakeOut(t: LuaTable, p: nat, n: nat, ghost s: seq<Value>) returns (v: Value)
    requires WellFormed(t.View()) && Remembers(t.View()) && HoleFree(t.View(), s)
    requires 1 <= p <= n == |s|
    modifies t`items, t`fields, t`hash, t`hasHash, t`border
    ensures WellFormed(t.View()) && Remembers(t.View()) && SameElsewhere(old(t.View()), t.View())
    ensures v == s[p - 1] && HoleFree(t.View(), Removed(s, p))
  {
    v := t.RawGet(Int(p));
    assert v == At(s, p);
    InArray(t.View(), s);
    CloseGap(t, p, n, s);
    ghost var before := t.View();
    SetAt(t, n, Nil);
    Taken(before, t.View(), s, p);
  }

  /** The loop of `table.remove`. */
  method CloseGap(t: LuaTable, p: nat, n: nat, ghost s: seq<Value>)
    requires WellFormed(t.View()) && Remembers(t.View()) && HoleFree(t.View(), s)
    requires 1 <= p <= n == |s|
    modifies t`items, t`fields, t`hash, t`hasHash, t`border
    ensures WellFormed(t.View()) && Remembers(t.View()) && SameElsewhere(old(t.View()), t.View())
    ensures ShiftedDown(t.View(), s, p, n)
  {
    InArray(t.View(), s);
    var k := p;
    while k < n
      invariant p <= k <= n && WellFormed(t.View()) && Remembers(t.View())
      invariant ShiftedDown(t.View(), s, p, k) && SameElsewhere(old(t.View()), t.View())
    {
      ghost var before := t.View();
      var x := t.RawGet(Int(k + 1));
      assert x == At(s, k + 1);
      SetAt(t, k, x);
      ShiftDown(before, t.View(), s, p, k);
      k := k + 1;
    }
  }

  lemma Taken(t: State, u: State, s: seq<Value>, p: nat)
    requires 1 <= p <= |s| && ShiftedDown(t, s, p, |s|) && forall i | 0 <= i < |s| :: s[i] != Nil
    requires forall x :: Look(u, x) == if x == Int(|s|) then Nil else Look(t, x)
    ensures HoleFree(u, Removed(s, p)) && SameElsewhere(t, u)
  {
    var n, r := |s|, Removed(s, p);
    assert IsIndex(Int(n)) && IndexOf(Int(n)) == n;
    forall i: int | i >= 1 ensures Look(u, Int(i)) == At(r, i) {
      assert Int(i) == Int(n) <==> i == n;
      assert Look(t, Int(i)) == At(s, if p <= i < n then i + 1 else i);
    }
  }

  /** Removing what was just inserted restores the table and gives the value back. */
  method InsertThenRemove(t: LuaTable, p: nat, v: Value, ghost s: seq<Value>) returns (back: Value)
    requires WellFormed(t.View()) && Remembers(t.View()) && HoleFree(t.View(), s)
    requires HasRoom(t, s)
    requires 1 <= p <= |s| + 1 && v != Nil
    modifies t`items, t`fields, t`hash, t`hasHash, t`border
    ensures back == v && forall x :: Look(t.View(), x) == Look(old(t.View()), x)
  {
    InsertAt(t, p, v, s);
    back := RemoveAt(t, p, Inserted(s, p, v));
    assert Removed(Inserted(s, p, v), p) == s;
    forall x ensures Look(t.View(), x) == Look(old(t.View()), x) {
      if IsIndex(x) { assert x == Int(IndexOf(x)); }
    }
  }
}
