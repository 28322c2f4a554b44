/** The MessagePack codec: what was written is read back, in the shortest form. */
module MsgPackRoundTrip {
  import opened Exact
  import opened MsgPack

  // ----- integers -----

  lemma SafeBits() returns (w: nat)
    ensures 53 <= w <= 53 && Pow(2, w) == MAX_SAFE_INTEGER + 1
  {
    w := 53;
    assert Pow(2, 1) == 2 && Pow(2, 2) == 2 * Pow(2, 1) && Pow(2, 3) == 2 * Pow(2, 2);
    PowAdd(2, 3, 3);
    PowAdd(2, 6, 6);
    PowAdd(2, 12, 12);
    PowAdd(2, 24, 24);
    PowAdd(2, 48, 3);
    PowAdd(2, 51, 2);
  }

  /** Reading a safe integer through a BigInt loses nothing. */
  lemma NumberExact(n: int)
    requires Abs(n) <= MAX_SAFE_INTEGER
    ensures Number(n) == n
  {
    if n != 0 {
      var w := SafeBits();
      BitLenBounds(Abs(n));
      if BitLen(Abs(n)) > w {
        PowMono(2, w, BitLen(Abs(n)) - 1);
        assert false;
      }
    }
  }

  lemma NaturalReadBack(i: int, rest: seq<Byte>)
    requires 0 <= i <= MAX_SAFE_INTEGER
    ensures One(EncodeInt(i) + rest) == Done(Int(i), rest)
  {
    if i <= 0x7f {
      assert ([i] + rest)[1..] == rest;
    } else if i <= 0xff {
      TagRead(0xcc, U1(i), rest);
    } else if i <= 0xffff {
      TagRead(0xcd, U2(i), rest);
      ReadBack2(i, rest);
    } else if i <= 0xffff_ffff {
      TagRead(0xce, U4(i), rest);
      ReadBack4(i, rest);
    } else {
      TagRead(0xcf, U8(i), rest);
      ReadBack8(i, rest);
      NumberExact(i);
    }
  }

  lemma NegativeReadBack(i: int, rest: seq<Byte>)
    requires -MAX_SAFE_INTEGER <= i < 0
    ensures One(EncodeInt(i) + rest) == Done(Int(i), rest)
  {
    if i >= -32768 { NegativeShort(i, rest); }
    else if i >= -2147483648 { NegativeLong(i, rest); }
    else { NegativeWord(i, rest); }
  }

  lemma NegativeShort(i: int, rest: seq<Byte>)
    requires -32768 <= i < 0
    ensures One(EncodeInt(i) + rest) == Done(Int(i), rest)
  {
    if i >= -32 {
      assert ([i + 256] + rest)[1..] == rest;
    } else if i >= -128 {
      TagRead(0xd0, U1(i + 0x100), rest);
    } else {
      TagRead(0xd1, U2(i + 0x1_0000), rest);
      ReadBack2(i + 0x1_0000, rest);
    }
  }

  lemma NegativeLong(i: int, rest: seq<Byte>)
    requires -2147483648 <= i < -32768
    ensures One(EncodeInt(i) + rest) == Done(Int(i), rest)
  {
    TagRead(0xd2, U4(i + 0x1_0000_0000), rest);
    ReadBack4(i + 0x1_0000_0000, rest);
  }

  lemma {:induction false} NegativeWord(i: int, rest: seq<Byte>)
    requires -MAX_SAFE_INTEGER <= i < -2147483648
    ensures One(EncodeInt(i) + rest) == Done(Int(i), rest)
  {
    TagRead(0xd3, U8(i + 0x1_0000_0000_0000_0000), rest);
    ReadBack8(i + 0x1_0000_0000_0000_0000, rest);
    assert Tagged(0xd3, U8(i + 0x1_0000_0000_0000_0000) + rest) == Done(Int(Number(i)), rest);
    NumberExact(i);
  }

  lemma TagRead(c: Byte, body: seq<Byte>, rest: seq<Byte>)
    requires 0xc0 <= c < 0xe0
    ensures One([c] + body + rest) == Tagged(c, body + rest)
  {
    assert ([c] + body + rest)[1..] == body + rest;
  }

  /** No bytes that read as an integer are fewer than those written for it. */
  lemma {:induction false} ShortestInt(i: int, b: seq<Byte>)
    requires Abs(i) <= MAX_SAFE_INTEGER && One(b) == Done(Int(i), [])
    ensures |EncodeInt(i)| <= |b|
  {
    IntSize(i, b);
  }

  /** What the integers read from so many bytes can be. */
  lemma {:induction false} IntSize(i: int, b: seq<Byte>)
    requires One(b) == Done(Int(i), [])
    ensures (|b| == 1 && -32 <= i <= 0x7f) || (|b| == 2 && -128 <= i <= 0xff) || (|b| == 3 && -32768 <= i <= 0xffff)
         || (|b| == 5 && -2147483648 <= i <= 0xffff_ffff) || |b| == 9
  {
    var c, t := b[0], b[1..];
    if 0xc0 <= c < 0xe0 { TaggedSize(i, c, t); }
  }

  lemma {:induction false} TaggedSize(i: int, c: Byte, t: seq<Byte>)
    requires Tagged(c, t) == Done(Int(i), [])
    ensures (|t| == 1 && -128 <= i <= 0xff) || (|t| == 2 && -32768 <= i <= 0xffff)
         || (|t| == 4 && -2147483648 <= i <= 0xffff_ffff) || |t| == 8
  {
    assert c == 0xcc || c == 0xd0 ==> |t| == 1;
    assert c == 0xcd || c == 0xd1 ==> |t| == 2;
    assert c == 0xce || c == 0xd2 ==> |t| == 4;
  }

  /** Nor are any that read as a string. */
  lemma {:induction false} ShortestStr(s: seq<Byte>, b: seq<Byte>)
    requires |s| < 0x1_0000_0000 && One(b) == Done(Str(s), [])
    ensures |StrHeader(|s|) + s| <= |b|
  {
    StrSize(s, b);
    HeaderSize(|s|);
  }

  lemma {:induction false} HeaderSize(n: int)
    requires 0 <= n < 0x1_0000_0000
    ensures |StrHeader(n)| == if n < 32 then 1 else if n < 0x100 then 2 else if n < 0x1_0000 then 3 else 5
  {}

  /** How long the strings read from so many bytes can be. */
  lemma {:induction false} StrSize(s: seq<Byte>, b: seq<Byte>)
    requires One(b) == Done(Str(s), [])
    ensures (|b| == |s| + 1 && |s| < 32) || (|b| == |s| + 2 && |s| < 0x100) || (|b| == |s| + 3 && |s| < 0x1_0000)
         || |b| == |s| + 5
  {
    var c, t := b[0], b[1..];
    if 0xc0 <= c < 0xe0 {
      TaggedStrSize(s, c, t);
    } else {
      assert Text(t, c - 0xa0) == Done(Str(s), []);
      TextSize(s, t, c - 0xa0);
    }
  }

  lemma {:induction false} TextSize(s: seq<Byte>, t: seq<Byte>, n: nat)
    requires Text(t, n) == Done(Str(s), [])
    ensures |t| == |s| == n
  {}

  lemma {:induction false} TaggedStrSize(s: seq<Byte>, c: Byte, t: seq<Byte>)
    requires Tagged(c, t) == Done(Str(s), [])
    ensures (|t| == |s| + 1 && |s| < 0x100) || (|t| == |s| + 2 && |s| < 0x1_0000) || |t| == |s| + 4
  {
    if c == 0xc4 || c == 0xd9 {
      TextSize(s, t[1..], t[0]);
    } else if c == 0xc5 || c == 0xda {
      TextSize(s, t[2..], Read2(t));
    } else {
      assert c == 0xc6 || c == 0xdb;
      TextSize(s, t[4..], Read4(t));
    }
  }

  // ----- headers -----

  lemma StrRead(n: int, t: seq<Byte>)
    requires 0 <= n < 0x1_0000_0000
    ensures One(StrHeader(n) + t) == Text(t, n)
  {
    assert (StrHeader(n) + t)[1..] == StrHeader(n)[1..] + t;
    if 0xff < n <= 0xffff { ReadBack2(n, t); }
    else if 0xffff < n { ReadBack4(n, t); }
  }

  lemma ArrayRead(n: int, t: seq<Byte>)
    requires 0 <= n < 0x1_0000_0000
    ensures One(ArrayHeader(n) + t) == Items(t, n, [])
  {
    assert (ArrayHeader(n) + t)[1..] == ArrayHeader(n)[1..] + t;
    if 15 < n <= 0xffff { ReadBack2(n, t); }
    else if 0xffff < n { ReadBack4(n, t); }
  }

  lemma MapRead(n: int, t: seq<Byte>)
    requires 0 <= n < 0x1_0000_0000
    ensures One(MapHeader(n) + t) == Entries(t, n, [])
  {
    assert (MapHeader(n) + t)[1..] == MapHeader(n)[1..] + t;
    if 15 < n <= 0xffff { ReadBack2(n, t); }
    else if 0xffff < n { ReadBack4(n, t); }
  }

  // ----- whole values -----

  /** What comes back: a sequence in the order of its indexes, a map without its vim.NIL key. */
  function Returned(v: Value): (r: Value)
    ensures !v.Table? ==> r == v
    ensures v.Table? ==> r.Table?
    decreases v, 1
  {
    match v
    case Table(es) => Table(if IsSequence(es) then Indexed(ReturnedItems(v, 1)) else ReturnedEntries(v, 0))
    case _ => v
  }

  function ReturnedItems(v: Value, k: nat): (items: seq<Value>)
    requires v.Table? && 1 <= k <= |v.entries| + 1
    ensures |items| == |v.entries| + 1 - k
    decreases v, 0, |v.entries| + 1 - k
  {
    if k == |v.entries| + 1 then []
    else
      var p := Find(v.entries, k);
      [if p < 0 then Null else Returned(v.entries[p].val)] + ReturnedItems(v, k + 1)
  }

  function ReturnedEntries(v: Value, j: nat): (es: seq<Entry>)
    requires v.Table? && j <= |v.entries|
    decreases v, 0, |v.entries| - j
  {
    if j == |v.entries| then []
    else
      var e := v.entries[j];
      (if e.key == Null then [] else [Entry(Returned(e.key), Returned(e.val))]) + ReturnedEntries(v, j + 1)
  }

  /** Decoding what was encoded, whatever follows it, gives the value back and stops where it ends. */
  lemma {:induction false} RoundTrip(v: Value, rest: seq<Byte>)
    requires Encodable(v)
    ensures One(Encode(v) + rest) == Done(Returned(v), rest)
    decreases v, 1
  {
    match v
    case Int(i) => if i >= 0 { NaturalReadBack(i, rest); } else { NegativeReadBack(i, rest); }
    case Str(s) =>
      StrRead(|s|, s + rest);
      Regroup(StrHeader(|s|), s, rest);
    case Table(es) =>
      if IsSequence(es) { ArrayReadBack(v, rest); } else { MapReadBack(v, rest); }
    case _ =>
  }

  lemma Regroup(a: seq<Byte>, b: seq<Byte>, c: seq<Byte>)
    ensures a + b + c == a + (b + c)
  {}

  lemma {:induction false} ArrayReadBack(v: Value, rest: seq<Byte>)
    requires v.Table? && Encodable(v) && IsSequence(v.entries)
    ensures One(Encode(v) + rest) == Done(Returned(v), rest)
    decreases v, 0, |v.entries| + 3
  {
    var n := |v.entries|;
    ArrayRead(n, EncodeItems(v, 1) + rest);
    Regroup(ArrayHeader(n), EncodeItems(v, 1), rest);
    ItemsReadBack(v, 1, [], rest);
    assert [] + ReturnedItems(v, 1) == ReturnedItems(v, 1);
  }

  lemma {:induction false} MapReadBack(v: Value, rest: seq<Byte>)
    requires v.Table? && Encodable(v) && !IsSequence(v.entries)
    ensures One(Encode(v) + rest) == Done(Returned(v), rest)
    decreases v, 0, |v.entries| + 4
  {
    var n := |v.entries|;
    MapRead(n, EncodeEntries(v, 0) + rest);
    Regroup(MapHeader(n), EncodeEntries(v, 0), rest);
    EntriesReadBack(v, 0, [], rest);
    assert [] + ReturnedEntries(v, 0) == ReturnedEntries(v, 0);
  }

  lemma {:induction false} ItemsReadBack(v: Value, k: nat, read: seq<Value>, rest: seq<Byte>)
    requires v.Table? && Encodable(v) && 1 <= k <= |v.entries| + 1
    ensures Items(EncodeItems(v, k) + rest, |v.entries| + 1 - k, read)
            == Done(Table(Indexed(read + ReturnedItems(v, k))), rest)
    decreases v, 0, |v.entries| + 1 - k
  {
    if k == |v.entries| + 1 {
      assert EncodeItems(v, k) + rest == rest && read + ReturnedItems(v, k) == read;
    } else {
      var item, more := Item(v.entries, k), EncodeItems(v, k + 1) + rest;
      ItemReadBack(v, k, more);
      Regroup(Encode(item), EncodeItems(v, k + 1), rest);
      OneItem(Encode(item) + more, Returned(item), more, |v.entries| + 1 - k, read);
      ItemsReadBack(v, k + 1, read + [Returned(item)], rest);
      ReturnedItemsFrom(v, k, read);
    }
  }

  function Item(es: seq<Entry>, k: nat): Value {
    var p := Find(es, k);
    if p < 0 then Null else es[p].val
  }

  lemma {:induction false} ItemReadBack(v: Value, k: nat, more: seq<Byte>)
    requires v.Table? && Encodable(v) && 1 <= k <= |v.entries|
    ensures Encodable(Item(v.entries, k))
    ensures EncodeItems(v, k) == Encode(Item(v.entries, k)) + EncodeItems(v, k + 1)
    ensures One(Encode(Item(v.entries, k)) + more) == Done(Returned(Item(v.entries, k)), more)
    decreases v, 0, 0
  {
    var p := Find(v.entries, k);
    if p >= 0 { RoundTrip(v.entries[p].val, more); } else { TagRead(0xc0, [], more); }
  }

  lemma ReturnedItemsFrom(v: Value, k: nat, read: seq<Value>)
    requires v.Table? && 1 <= k <= |v.entries|
    ensures read + [Returned(Item(v.entries, k))] + ReturnedItems(v, k + 1) == read + ReturnedItems(v, k)
  {}

  /** `Items`, one item at a time. */
  lemma OneItem(b: seq<Byte>, item: Value, more: seq<Byte>, n: nat, read: seq<Value>)
    requires n > 0 && One(b) == Done(item, more)
    ensures Items(b, n, read) == Items(more, n - 1, read + [item])
  {}

  /** None of the entries from the `j`-th on has a key that was read already. */
  ghost predicate Unread(es: seq<Entry>, j: nat, read: seq<Entry>) {
    forall k, m | j <= k < |es| && 0 <= m < |read| && !es[k].key.Table? :: read[m].key != es[k].key
  }

  lemma {:induction false} EntriesReadBack(v: Value, j: nat, read: seq<Entry>, rest: seq<Byte>)
    requires v.Table? && Encodable(v) && j <= |v.entries| && Unread(v.entries, j, read)
    ensures Entries(EncodeEntries(v, j) + rest, |v.entries| - j, read)
            == Done(Table(read + ReturnedEntries(v, j)), rest)
    decreases v, 0, |v.entries| - j + 3
  {
    if j == |v.entries| {
      EntriesEnd(v, read, rest);
    } else {
      var next := WithEntry(read, Returned(v.entries[j].key), Returned(v.entries[j].val));
      Added(v.entries, j, read);
      EntriesReadBack(v, j + 1, next, rest);
      EntriesStep(v, j, read, next, rest);
    }
  }

  lemma {:induction false} EntriesStep(v: Value, j: nat, read: seq<Entry>, next: seq<Entry>, rest: seq<Byte>)
    requires v.Table? && Encodable(v) && j < |v.entries|
    requires next == WithEntry(read, Returned(v.entries[j].key), Returned(v.entries[j].val))
    requires next == if v.entries[j].key == Null then read
                     else read + [Entry(Returned(v.entries[j].key), Returned(v.entries[j].val))]
    requires Entries(EncodeEntries(v, j + 1) + rest, |v.entries| - (j + 1), next)
             == Done(Table(next + ReturnedEntries(v, j + 1)), rest)
    ensures Entries(EncodeEntries(v, j) + rest, |v.entries| - j, read)
            == Done(Table(read + ReturnedEntries(v, j)), rest)
    decreases v, 0, 2
  {
    NextEntry(v, j, read, rest);
    ReturnedFrom(v, j, read);
  }

  lemma {:induction false} EntriesEnd(v: Value, read: seq<Entry>, rest: seq<Byte>)
    requires v.Table? && Encodable(v)
    ensures Entries(EncodeEntries(v, |v.entries|) + rest, 0, read)
            == Done(Table(read + ReturnedEntries(v, |v.entries|)), rest)
  {
    var j := |v.entries|;
    assert EncodeEntries(v, j) + rest == rest && read + ReturnedEntries(v, j) == read;
  }

  lemma {:induction false} NextEntry(v: Value, j: nat, read: seq<Entry>, rest: seq<Byte>)
    requires v.Table? && Encodable(v) && j < |v.entries|
    ensures
      var e, n := v.entries[j], |v.entries|;
      Entries(EncodeEntries(v, j) + rest, n - j, read)
      == Entries(EncodeEntries(v, j + 1) + rest, n - (j + 1), WithEntry(read, Returned(e.key), Returned(e.val)))
    decreases v, 0, 1
  {
    var e, more := v.entries[j], EncodeEntries(v, j + 1) + rest;
    EntryReadBack(v, j, more);
    RegroupEntry(Encode(e.key), Encode(e.val), EncodeEntries(v, j + 1), rest);
    OneEntry(Encode(e.key) + (Encode(e.val) + more), Returned(e.key), Encode(e.val) + more, Returned(e.val), more,
             |v.entries| - j, read);
  }

  lemma {:induction false} EntryReadBack(v: Value, j: nat, more: seq<Byte>)
    requires v.Table? && Encodable(v) && j < |v.entries|
    ensures
      var e := v.entries[j];
      One(Encode(e.key) + (Encode(e.val) + more)) == Done(Returned(e.key), Encode(e.val) + more) &&
      One(Encode(e.val) + more) == Done(Returned(e.val), more)
    decreases v, 0, 0
  {
    var e := v.entries[j];
    RoundTrip(e.key, Encode(e.val) + more);
    RoundTrip(e.val, more);
  }

  lemma ReturnedFrom(v: Value, j: nat, read: seq<Entry>)
    requires v.Table? && j < |v.entries|
    ensures
      var e := v.entries[j];
      read + ReturnedEntries(v, j)
      == (if e.key == Null then read else read + [Entry(Returned(e.key), Returned(e.val))]) + ReturnedEntries(v, j + 1)
  {}

  lemma RegroupEntry(k: seq<Byte>, w: seq<Byte>, b: seq<Byte>, c: seq<Byte>)
    ensures k + w + b + c == k + (w + (b + c))
  {}

  /** `Entries`, one entry at a time. */
  lemma OneEntry(b: seq<Byte>, key: Value, c: seq<Byte>, val: Value, more: seq<Byte>, n: nat, read: seq<Entry>)
    requires n > 0 && One(b) == Done(key, c) && One(c) == Done(val, more)
    ensures Entries(b, n, read) == Entries(more, n - 1, WithEntry(read, key, val))
  {}

  lemma Added(es: seq<Entry>, j: nat, read: seq<Entry>)
    requires j < |es| && Unread(es, j, read) && Encodable(Table(es))
    ensures
      var next := WithEntry(read, Returned(es[j].key), Returned(es[j].val));
      Unread(es, j + 1, next) &&
      next == if es[j].key == Null then read else read + [Entry(Returned(es[j].key), Returned(es[j].val))]
  {}

  // ----- what comes back is the same map -----

  /** Every number below `n` once. */
  ghost predicate Permutes(at: seq<nat>, n: nat) {
    && |at| == n
    && (forall i | 0 <= i < n :: at[i] < n)
    && forall i, j | 0 <= i < j < n :: at[i] != at[j]
  }

  /** The same value, the entries of tables in whatever order. */
  ghost predicate Same(v: Value, w: Value)
    decreases v
  {
    if v.Table? && w.Table? then
      && |v.entries| == |w.entries|
      && exists at: seq<nat> :: Permutes(at, |v.entries|) && Matched(v, w, at)
    else v == w
  }

  /** Entry `i` of `w` is entry `at[i]` of `v`. */
  ghost predicate Matched(v: Value, w: Value, at: seq<nat>)
    requires v.Table? && w.Table? && |v.entries| == |w.entries| && Permutes(at, |v.entries|)
    decreases v, 0, 1
  {
    forall i | 0 <= i < |at| :: MatchedAt(v, w, at, i)
  }

  ghost predicate MatchedAt(v: Value, w: Value, at: seq<nat>, i: nat)
    requires v.Table? && w.Table? && |v.entries| == |w.entries| && Permutes(at, |v.entries|) && i < |at|
    decreases v, 0, 0
  {
    Same(v.entries[at[i]].key, w.entries[i].key) && Same(v.entries[at[i]].val, w.entries[i].val)
  }

  ghost predicate NoNullKey(v: Value) {
    v.Table? ==> forall j | 0 <= j < |v.entries| ::
      v.entries[j].key != Null && NoNullKey(v.entries[j].key) && NoNullKey(v.entries[j].val)
  }

  lemma {:induction false} IndexedAt(items: seq<Value>, i: nat)
    requires i < |items|
    ensures Indexed(items)[i] == Entry(Int(i + 1), items[i])
  {
    if i < |items| - 1 { IndexedAt(items[..|items| - 1], i); }
  }

  lemma {:induction false} ReturnedItemsAt(v: Value, k: nat, i: nat)
    requires v.Table? && 1 <= k && k + i <= |v.entries|
    ensures ReturnedItems(v, k)[i] == Returned(Item(v.entries, k + i))
    decreases i
  {
    if i > 0 { ReturnedItemsAt(v, k + 1, i - 1); }
  }

  lemma {:induction false} AllReturned(v: Value, j: nat)
    requires v.Table? && j <= |v.entries| && forall m | 0 <= m < |v.entries| :: v.entries[m].key != Null
    ensures |ReturnedEntries(v, j)| == |v.entries| - j
    decreases |v.entries| - j
  {
    if j < |v.entries| { AllReturned(v, j + 1); }
  }

  lemma {:induction false} ReturnedEntriesAt(v: Value, j: nat, i: nat)
    requires v.Table? && j + i < |v.entries| && forall m | 0 <= m < |v.entries| :: v.entries[m].key != Null
    ensures i < |ReturnedEntries(v, j)|
    ensures ReturnedEntries(v, j)[i] == Entry(Returned(v.entries[j + i].key), Returned(v.entries[j + i].val))
    decreases i
  {
    AllReturned(v, j);
    if i > 0 { ReturnedEntriesAt(v, j + 1, i - 1); }
  }

  /** The keys of the first `n` entries of a sequence. */
  ghost function Keys(es: seq<Entry>, n: nat): (r: set<int>)
    requires n <= |es| && forall j | 0 <= j < |es| :: es[j].key.Int?
    requires forall j, k | 0 <= j < k < |es| :: es[j].key != es[k].key
    ensures |r| == n && forall x :: x in r <==> exists j :: 0 <= j < n && es[j].key == Int(x)
  {
    if n == 0 then {} else Keys(es, n - 1) + {es[n - 1].key.i}
  }

  ghost function UpTo(n: nat): (r: set<int>)
    ensures |r| == n && forall x :: x in r <==> 1 <= x <= n
  {
    if n == 0 then {} else UpTo(n - 1) + {n}
  }

  /** As many distinct positive keys as the greatest of them: none is missing. */
  lemma NoneMissing(es: seq<Entry>, k: nat)
    requires IsSequence(es) && 1 <= k <= |es|
    requires forall j, m | 0 <= j < m < |es| :: es[j].key != es[m].key
    ensures Find(es, k) >= 0
  {
    var keys, all := Keys(es, |es|), UpTo(|es|);
    assert all == keys + (all - keys);
    assert k in all;
  }

  lemma {:induction false} ReturnedSame(v: Value)
    requires Encodable(v) && NoNullKey(v)
    ensures Same(v, Returned(v))
    decreases v, 1
  {
    if v.Table? {
      if IsSequence(v.entries) { SequenceSame(v); } else { EntriesSame(v); }
    }
  }

  /** Where the items of a sequence are among its entries. */
  lemma Places(es: seq<Entry>) returns (at: seq<nat>)
    requires IsSequence(es) && forall j, m | 0 <= j < m < |es| :: es[j].key != es[m].key
    ensures Permutes(at, |es|) && forall i | 0 <= i < |es| :: at[i] == Find(es, i + 1)
  {
    forall k: nat | 1 <= k <= |es| ensures Find(es, k) >= 0 { NoneMissing(es, k); }
    at := seq(|es|, i requires 0 <= i < |es| => Find(es, i + 1));
    assert forall i | 0 <= i < |es| :: es[at[i]].key == Int(i + 1);
  }

  lemma {:induction false} SequenceSame(v: Value)
    requires v.Table? && Encodable(v) && NoNullKey(v) && IsSequence(v.entries)
    ensures Same(v, Returned(v))
    decreases v, 0, 1
  {
    var at := Places(v.entries);
    forall i | 0 <= i < |at| ensures MatchedAt(v, Returned(v), at, i) {
      NoneMissing(v.entries, i + 1);
      SequenceItemSame(v, i);
    }
    assert Matched(v, Returned(v), at);
  }

  lemma {:induction false} SequenceItemSame(v: Value, i: nat)
    requires v.Table? && Encodable(v) && NoNullKey(v) && IsSequence(v.entries)
    requires i < |v.entries| && Find(v.entries, i + 1) >= 0
    ensures
      var e, f := v.entries[Find(v.entries, i + 1)], Returned(v).entries[i];
      Same(e.key, f.key) && Same(e.val, f.val)
    decreases v, 0, 0
  {
    ReturnedSequenceAt(v, i);
    ReturnedSame(v.entries[Find(v.entries, i + 1)].val);
  }

  lemma ReturnedSequenceAt(v: Value, i: nat)
    requires v.Table? && IsSequence(v.entries) && i < |v.entries| && Find(v.entries, i + 1) >= 0
    ensures Returned(v).entries[i] == Entry(Int(i + 1), Returned(v.entries[Find(v.entries, i + 1)].val))
  {
    IndexedAt(ReturnedItems(v, 1), i);
    ReturnedItemsAt(v, 1, i);
  }

  lemma {:induction false} EntriesSame(v: Value)
    requires v.Table? && Encodable(v) && NoNullKey(v) && !IsSequence(v.entries)
    ensures Same(v, Returned(v))
    decreases v, 0
  {
    var es, n := v.entries, |v.entries|;
    var at: seq<nat> := seq(n, i requires 0 <= i < n => i);
    var w := Returned(v);
    AllReturned(v, 0);
    forall i | 0 <= i < n ensures MatchedAt(v, w, at, i) {
      ReturnedEntriesAt(v, 0, i);
      ReturnedSame(es[i].key);
      ReturnedSame(es[i].val);
    }
    assert Permutes(at, n) && Matched(v, w, at);
  }
}
