/** pack.js, `mp_decode` drops an entry whose key is vim.NIL: exactly the values without one come back the same. */
module MsgPackNullKeys {
  import opened MsgPack
  import opened MsgPackRoundTrip

  // ----- sums in any order -----

  function Total(ws: seq<nat>): nat {
    if ws == [] then 0 else ws[0] + Total(ws[1..])
  }

  function Without(ws: seq<nat>, p: nat): (r: seq<nat>)
    requires p < |ws|
    ensures |r| == |ws| - 1
  {
    ws[..p] + ws[p + 1..]
  }

  lemma {:induction false} TotalWithout(ws: seq<nat>, p: nat)
    requires p < |ws|
    ensures Total(ws) == Total(Without(ws, p)) + ws[p]
  {
    if p > 0 {
      TotalWithout(ws[1..], p - 1);
      assert Without(ws, p)[0] == ws[0] && Without(ws, p)[1..] == Without(ws[1..], p - 1);
    } else {
      assert Without(ws, p) == ws[1..];
    }
  }

  lemma {:induction false} TotalPermuted(ws: seq<nat>, us: seq<nat>, at: seq<nat>)
    requires |us| == |ws| && Permutes(at, |ws|) && forall i | 0 <= i < |ws| :: us[i] == ws[at[i]]
    ensures Total(us) == Total(ws)
  {
    if ws != [] {
      var p := at[0];
      var less: seq<nat> := seq(|ws| - 1, i requires 0 <= i < |ws| - 1 =>
        if at[i + 1] < p then at[i + 1] else at[i + 1] - 1);
      TotalWithout(ws, p);
      TotalPermuted(Without(ws, p), us[1..], less);
    } else {
      assert us == [];
    }
  }

  lemma {:induction false} TotalMono(us: seq<nat>, ws: seq<nat>)
    requires |us| == |ws| && forall i | 0 <= i < |ws| :: us[i] <= ws[i]
    ensures Total(us) <= Total(ws)
    ensures (exists i :: 0 <= i < |ws| && us[i] < ws[i]) ==> Total(us) < Total(ws)
  {
    if ws != [] {
      TotalMono(us[1..], ws[1..]);
      if i :| 0 <= i < |ws| && us[i] < ws[i] {
        if i > 0 { assert us[1..][i - 1] < ws[1..][i - 1]; }
      }
    }
  }

  // ----- how many entries there are, at every depth -----

  function Weight(v: Value): nat {
    match v
    case Table(es) => Total(Weights(es))
    case _ => 0
  }

  function Weights(es: seq<Entry>): (ws: seq<nat>)
    ensures |ws| == |es|
  {
    if es == [] then [] else [EntryWeight(es[0])] + Weights(es[1..])
  }

  function EntryWeight(e: Entry): nat {
    1 + Weight(e.key) + Weight(e.val)
  }

  lemma {:induction false} WeightsAt(es: seq<Entry>, i: nat)
    requires i < |es|
    ensures Weights(es)[i] == EntryWeight(es[i])
  {
    if i > 0 { WeightsAt(es[1..], i - 1); }
  }

  /** Values that are the same have as many entries. */
  lemma {:induction false} SameWeight(v: Value, w: Value)
    requires Same(v, w)
    ensures Weight(v) == Weight(w)
    decreases v
  {
    if v.Table? && w.Table? {
      var at: seq<nat> :| Permutes(at, |v.entries|) && Matched(v, w, at);
      forall i | 0 <= i < |at| ensures Weights(w.entries)[i] == Weights(v.entries)[at[i]] {
        assert MatchedAt(v, w, at, i);
        var e, f := v.entries[at[i]], w.entries[i];
        SameWeight(e.key, f.key);
        SameWeight(e.val, f.val);
        WeightsAt(w.entries, i);
        WeightsAt(v.entries, at[i]);
      }
      TotalPermuted(Weights(v.entries), Weights(w.entries), at);
    }
  }

  // ----- what comes back -----

  /** No entry is gained on the way, and with a vim.NIL key somewhere one is lost. */
  lemma {:induction false} ReturnedWeight(v: Value)
    requires Encodable(v)
    ensures Weight(Returned(v)) <= Weight(v) && (!NoNullKey(v) ==> Weight(Returned(v)) < Weight(v))
    decreases v, 2
  {
    if v.Table? {
      if IsSequence(v.entries) {
        SequenceWeight(v);
      } else {
        EntriesWeight(v, 0);
        if !NoNullKey(v) { var j :| 0 <= j < |v.entries| && Loses(v.entries[j]); }
      }
    }
  }

  ghost predicate Loses(e: Entry) {
    e.key == Null || !NoNullKey(e.key) || !NoNullKey(e.val)
  }

  lemma {:induction false} EntriesWeight(v: Value, j: nat)
    requires v.Table? && Encodable(v) && j <= |v.entries|
    ensures Total(Weights(ReturnedEntries(v, j))) <= Total(Weights(v.entries[j..]))
    ensures (exists m :: j <= m < |v.entries| && Loses(v.entries[m])) ==>
      Total(Weights(ReturnedEntries(v, j))) < Total(Weights(v.entries[j..]))
    decreases v, 1, |v.entries| - j
  {
    if j < |v.entries| {
      var e := v.entries[j];
      EntriesWeight(v, j + 1);
      assert v.entries[j..][1..] == v.entries[j + 1..];
      if e.key != Null {
        ReturnedWeight(e.key);
        ReturnedWeight(e.val);
        assert ReturnedEntries(v, j)[1..] == ReturnedEntries(v, j + 1);
      } else {
        assert ReturnedEntries(v, j) == ReturnedEntries(v, j + 1);
      }
    } else {
      assert v.entries[j..] == [];
    }
  }

  lemma {:induction false} SequenceWeight(v: Value)
    requires v.Table? && Encodable(v) && IsSequence(v.entries)
    ensures Weight(Returned(v)) <= Weight(v) && (!NoNullKey(v) ==> Weight(Returned(v)) < Weight(v))
    decreases v, 1
  {
    var es, w := v.entries, Returned(v);
    var at := Places(es);
    var ws: seq<nat> := seq(|es|, i requires 0 <= i < |es| => Weights(es)[at[i]]);
    TotalPermuted(Weights(es), ws, at);
    forall i | 0 <= i < |es|
      ensures Weights(w.entries)[i] <= ws[i] && (Loses(es[at[i]]) ==> Weights(w.entries)[i] < ws[i])
    {
      SequenceItemWeight(v, i);
      WeightsAt(w.entries, i);
      WeightsAt(es, at[i]);
    }
    TotalMono(Weights(w.entries), ws);
    if !NoNullKey(v) {
      var j :| 0 <= j < |es| && Loses(es[j]);
      var i := es[j].key.i - 1;
      assert at[i] == j;
    }
  }

  lemma {:induction false} SequenceItemWeight(v: Value, i: nat)
    requires v.Table? && Encodable(v) && IsSequence(v.entries) && i < |v.entries| && Find(v.entries, i + 1) >= 0
    ensures
      var e, f := v.entries[Find(v.entries, i + 1)], Returned(v).entries[i];
      EntryWeight(f) <= EntryWeight(e) && (Loses(e) ==> EntryWeight(f) < EntryWeight(e))
    decreases v, 0
  {
    ReturnedSequenceAt(v, i);
    ReturnedWeight(v.entries[Find(v.entries, i + 1)].val);
  }

  /** Decoding what was encoded gives back the same key/value map if and only if no table in it has a vim.NIL key. */
  lemma SameUnlessNullKey(v: Value, rest: seq<Byte>)
    requires Encodable(v)
    ensures var r := One(Encode(v) + rest); r.Done? && r.rest == rest && (Same(v, r.val) <==> NoNullKey(v))
  {
    RoundTrip(v, rest);
    ReturnedWeight(v);
    if NoNullKey(v) {
      ReturnedSame(v);
    } else if Same(v, Returned(v)) {
      SameWeight(v, Returned(v));
      assert false;
    }
  }

  /** The table `{[vim.NIL] = true}` comes back empty. */
  lemma NullKeyExample(v: Value, rest: seq<Byte>)
    requires v == Table([Entry(Null, Bool(true))])
    ensures Encodable(v)
    ensures var r := One(Encode(v) + rest); r == Done(Table([]), rest) && !Same(v, r.val)
  {
    RoundTrip(v, rest);
    SameUnlessNullKey(v, rest);
    assert ReturnedEntries(v, 1) == [] && ReturnedEntries(v, 0) == [] + ReturnedEntries(v, 1);
  }
}
