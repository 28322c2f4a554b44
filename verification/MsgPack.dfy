/** pack.js, `mp_encode` and `mp_decode`: the MessagePack codec, on values without floats. */
module MsgPack {
  import opened Exact

  type Byte = x: int | 0 <= x < 256

  /** A value of Lua. `Null` is vim.NIL; a table is the entries `pairs` walks, in its order. */
  datatype Value = Null | Bool(b: bool) | Int(i: int) | Str(s: seq<Byte>) | Table(entries: seq<Entry>)

  datatype Entry = Entry(key: Value, val: Value)

  datatype Error = Incomplete | FloatNotModelled | Reserved(tag: Byte)

  datatype Parsed<T> = Done(val: T, rest: seq<Byte>) | Failed(error: Error)

  const MAX_SAFE_INTEGER: int := 0x1f_ffff_ffff_ffff

  // ----- fixed-width integers, big-endian -----

  function U1(n: int): (b: seq<Byte>)
    requires 0 <= n < 0x100
  {
    [n]
  }

  function U2(n: int): (b: seq<Byte>)
    requires 0 <= n < 0x1_0000
    ensures |b| == 2
  {
    U1(n / 0x100) + U1(n % 0x100)
  }

  function U4(n: int): (b: seq<Byte>)
    requires 0 <= n < 0x1_0000_0000
    ensures |b| == 4
  {
    U2(n / 0x1_0000) + U2(n % 0x1_0000)
  }

  function U8(n: int): (b: seq<Byte>)
    requires 0 <= n < 0x1_0000_0000_0000_0000
    ensures |b| == 8
  {
    U4(n / 0x1_0000_0000) + U4(n % 0x1_0000_0000)
  }

  function Read2(b: seq<Byte>): (n: int)
    requires |b| >= 2
    ensures 0 <= n < 0x1_0000
  {
    b[0] as int * 0x100 + b[1] as int
  }

  function Read4(b: seq<Byte>): (n: int)
    requires |b| >= 4
    ensures 0 <= n < 0x1_0000_0000
  {
    Read2(b) * 0x1_0000 + Read2(b[2..])
  }

  function Read8(b: seq<Byte>): (n: int)
    requires |b| >= 8
    ensures 0 <= n < 0x1_0000_0000_0000_0000
  {
    Read4(b) * 0x1_0000_0000 + Read4(b[4..])
  }

  lemma ReadBack2(n: int, rest: seq<Byte>)
    requires 0 <= n < 0x1_0000
    ensures Read2(U2(n) + rest) == n && (U2(n) + rest)[2..] == rest
  {}

  lemma ReadBack4(n: int, rest: seq<Byte>)
    requires 0 <= n < 0x1_0000_0000
    ensures Read4(U4(n) + rest) == n && (U4(n) + rest)[4..] == rest
  {
    var high, low := U2(n / 0x1_0000), U2(n % 0x1_0000);
    ReadBack2(n / 0x1_0000, low + rest);
    ReadBack2(n % 0x1_0000, rest);
    assert U4(n) + rest == high + (low + rest);
  }

  lemma ReadBack8(n: int, rest: seq<Byte>)
    requires 0 <= n < 0x1_0000_0000_0000_0000
    ensures Read8(U8(n) + rest) == n && (U8(n) + rest)[8..] == rest
  {
    var high, low := U4(n / 0x1_0000_0000), U4(n % 0x1_0000_0000);
    ReadBack4(n / 0x1_0000_0000, low + rest);
    ReadBack4(n % 0x1_0000_0000, rest);
    assert U8(n) + rest == high + (low + rest);
  }

  /** A two's-complement reading of `n` below `m`. */
  function Signed(n: int, m: int): int {
    if n < m / 2 then n else n - m
  }

  /** A BigInt made a double: rounded to 53 bits, ties to even. */
  function Number(n: int): int {
    var size := BitLen(Abs(n));
    if size <= 53 then n
    else
      var step := Pow(2, size - 53);
      if n < 0 then -(HalfEven(Abs(n), step) * step) else HalfEven(n, step) * step
  }

  // ----- what is written -----

  function EncodeInt(i: int): (b: seq<Byte>)
    requires Abs(i) <= MAX_SAFE_INTEGER
  {
    if i >= 0 then
      if i <= 0x7f then [i]
      else if i <= 0xff then [0xcc] + U1(i)
      else if i <= 0xffff then [0xcd] + U2(i)
      else if i <= 0xffff_ffff then [0xce] + U4(i)
      else [0xcf] + U8(i)
    else if i >= -32 then [i + 256]
    else if i >= -128 then [0xd0] + U1(i + 0x100)
    else if i >= -32768 then [0xd1] + U2(i + 0x1_0000)
    else if i >= -2147483648 then [0xd2] + U4(i + 0x1_0000_0000)
    else [0xd3] + U8(i + 0x1_0000_0000_0000_0000)
  }

  /** The header of `n` bytes or items; `t8` is zero for the kinds that have no one-byte length. */
  function Header(fix: Byte, fixmax: int, t16: Byte, t32: Byte, n: int, t8: Byte): (b: seq<Byte>)
    requires 0 <= n < 0x1_0000_0000 && 0 <= fixmax && fix + fixmax < 256
  {
    if n <= fixmax then [fix + n]
    else if t8 != 0 && n <= 0xff then [t8] + U1(n)
    else if n <= 0xffff then [t16] + U2(n)
    else [t32] + U4(n)
  }

  function StrHeader(n: int): seq<Byte>
    requires 0 <= n < 0x1_0000_0000
  {
    Header(0xa0, 31, 0xda, 0xdb, n, 0xd9)
  }

  function ArrayHeader(n: int): seq<Byte>
    requires 0 <= n < 0x1_0000_0000
  {
    Header(0x90, 15, 0xdc, 0xdd, n, 0)
  }

  function MapHeader(n: int): seq<Byte>
    requires 0 <= n < 0x1_0000_0000
  {
    Header(0x80, 15, 0xde, 0xdf, n, 0)
  }

  /** The place of the entry with an integer key, or -1. */
  function Find(es: seq<Entry>, k: int): (p: int)
    ensures -1 <= p < |es|
    ensures p >= 0 ==> es[p].key == Int(k)
    ensures p < 0 ==> forall j | 0 <= j < |es| :: es[j].key != Int(k)
  {
    if es == [] then -1
    else if es[|es| - 1].key == Int(k) then |es| - 1
    else Find(es[..|es| - 1], k)
  }

  function MaxKey(es: seq<Entry>): (m: int)
    ensures m >= 0 && forall j | 0 <= j < |es| && es[j].key.Int? :: es[j].key.i <= m
  {
    if es == [] then 0
    else
      var last := es[|es| - 1].key;
      Max(MaxKey(es[..|es| - 1]), if last.Int? then last.i else 0)
  }

  /** The keys are positive integers, as many as the greatest of them: written as an array. */
  predicate IsSequence(es: seq<Entry>) {
    (forall j | 0 <= j < |es| :: es[j].key.Int? && es[j].key.i >= 1) && |es| == MaxKey(es)
  }

  /** Integers a double holds exactly, lengths that fit 32 bits, keys that are distinct unless they are tables. */
  predicate Encodable(v: Value) {
    match v
    case Int(i) => Abs(i) <= MAX_SAFE_INTEGER
    case Str(s) => |s| < 0x1_0000_0000
    case Table(es) =>
      && |es| < 0x1_0000_0000
      && (forall j | 0 <= j < |es| :: Encodable(es[j].key) && Encodable(es[j].val))
      && forall j, k | 0 <= j < k < |es| && !es[j].key.Table? :: es[j].key != es[k].key
    case _ => true
  }

  function Encode(v: Value): (b: seq<Byte>)
    requires Encodable(v)
    decreases v, 1
  {
    match v
    case Null => [0xc0]
    case Bool(b) => if b then [0xc3] else [0xc2]
    case Int(i) => EncodeInt(i)
    case Str(s) => StrHeader(|s|) + s
    case Table(es) =>
      if IsSequence(es) then ArrayHeader(|es|) + EncodeItems(v, 1) else MapHeader(|es|) + EncodeEntries(v, 0)
  }

  /** The items of a sequence from index `k` on. */
  function EncodeItems(v: Value, k: nat): seq<Byte>
    requires v.Table? && Encodable(v) && 1 <= k <= |v.entries| + 1
    decreases v, 0, |v.entries| + 1 - k
  {
    if k == |v.entries| + 1 then []
    else
      var p := Find(v.entries, k);
      (if p < 0 then [0xc0] else Encode(v.entries[p].val)) + EncodeItems(v, k + 1)
  }

  /** The entries from the `j`-th on, keys and values in turn. */
  function EncodeEntries(v: Value, j: nat): seq<Byte>
    requires v.Table? && Encodable(v) && j <= |v.entries|
    decreases v, 0, |v.entries| - j
  {
    if j == |v.entries| then []
    else Encode(v.entries[j].key) + Encode(v.entries[j].val) + EncodeEntries(v, j + 1)
  }

  // ----- what is read -----

  function Text(b: seq<Byte>, n: nat): Parsed<Value> {
    if n > |b| then Failed(Incomplete) else Done(Str(b[..n]), b[n..])
  }

  /** The table of an array's items. */
  function Indexed(items: seq<Value>): (es: seq<Entry>)
    ensures |es| == |items|
  {
    if items == [] then [] else Indexed(items[..|items| - 1]) + [Entry(Int(|items|), items[|items| - 1])]
  }

  function Rank(es: seq<Entry>, k: Value): (p: int)
    ensures -1 <= p < |es|
    ensures p >= 0 ==> es[p].key == k
    ensures p < 0 ==> forall j | 0 <= j < |es| :: es[j].key != k
  {
    if es == [] then -1 else if es[|es| - 1].key == k then |es| - 1 else Rank(es[..|es| - 1], k)
  }

  /** `rawset` on the map being read; a table that is a key was just made, so it equals no earlier one. */
  function WithEntry(es: seq<Entry>, k: Value, v: Value): seq<Entry> {
    if k == Null then es
    else if k.Table? || Rank(es, k) < 0 then es + [Entry(k, v)]
    else es[Rank(es, k) := Entry(k, v)]
  }

  function One(b: seq<Byte>): (r: Parsed<Value>)
    ensures r.Done? ==> |r.rest| < |b|
    decreases |b|, 0
  {
    if b == [] then Failed(Incomplete)
    else
      var c, t := b[0], b[1..];
      if c <= 0x7f then Done(Int(c), t)
      else if c >= 0xe0 then Done(Int(c as int - 256), t)
      else if c < 0x90 then Entries(t, c - 0x80, [])
      else if c < 0xa0 then Items(t, c - 0x90, [])
      else if c < 0xc0 then Text(t, c - 0xa0)
      else Tagged(c, t)
  }

  /** The forms with a tag byte of their own. */
  function Tagged(c: Byte, t: seq<Byte>): (r: Parsed<Value>)
    ensures r.Done? ==> |r.rest| <= |t|
    decreases |t|, 2
  {
    if c == 0xc0 then Done(Null, t)
    else if c == 0xc2 then Done(Bool(false), t)
    else if c == 0xc3 then Done(Bool(true), t)
    else if c == 0xca || c == 0xcb then Failed(FloatNotModelled)
    else if c == 0xc4 || c == 0xcc || c == 0xd0 || c == 0xd9 then
      if |t| < 1 then Failed(Incomplete)
      else if c == 0xcc then Done(Int(t[0]), t[1..])
      else if c == 0xd0 then Done(Int(Signed(t[0], 0x100)), t[1..])
      else Text(t[1..], t[0])
    else if c == 0xc5 || c == 0xcd || c == 0xd1 || c == 0xda || c == 0xdc || c == 0xde then
      if |t| < 2 then Failed(Incomplete)
      else
        var n := Read2(t);
        if c == 0xcd then Done(Int(n), t[2..])
        else if c == 0xd1 then Done(Int(Signed(n, 0x1_0000)), t[2..])
        else if c == 0xdc then Items(t[2..], n, [])
        else if c == 0xde then Entries(t[2..], n, [])
        else Text(t[2..], n)
    else if c == 0xc6 || c == 0xce || c == 0xd2 || c == 0xdb || c == 0xdd || c == 0xdf then
      if |t| < 4 then Failed(Incomplete)
      else
        var n := Read4(t);
        if c == 0xce then Done(Int(n), t[4..])
        else if c == 0xd2 then Done(Int(Signed(n, 0x1_0000_0000)), t[4..])
        else if c == 0xdd then Items(t[4..], n, [])
        else if c == 0xdf then Entries(t[4..], n, [])
        else Text(t[4..], n)
    else if c == 0xcf || c == 0xd3 then
      if |t| < 8 then Failed(Incomplete)
      else Done(Int(Number(if c == 0xcf then Read8(t) else Signed(Read8(t), 0x1_0000_0000_0000_0000))), t[8..])
    else Failed(Reserved(c))
  }

  /** `n` items, after those read so far. */
  function Items(b: seq<Byte>, n: nat, read: seq<Value>): (r: Parsed<Value>)
    ensures r.Done? ==> |r.rest| <= |b| && r.val.Table?
    decreases |b|, 1
  {
    if n == 0 then Done(Table(Indexed(read)), b)
    else
      var item := One(b);
      if item.Failed? then item else Items(item.rest, n - 1, read + [item.val])
  }

  /** `n` entries, after those read so far. */
  function Entries(b: seq<Byte>, n: nat, read: seq<Entry>): (r: Parsed<Value>)
    ensures r.Done? ==> |r.rest| <= |b| && r.val.Table?
    decreases |b|, 1
  {
    if n == 0 then Done(Table(read), b)
    else
      var key := One(b);
      if key.Failed? then key
      else
        var val := One(key.rest);
        if val.Failed? then val else Entries(val.rest, n - 1, WithEntry(read, key.val, val.val))
  }
}
