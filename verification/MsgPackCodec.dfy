/** pack.js, `mp_encode` with its output buffer and `mp_decode` with its cursor. */
module MsgPackCodec {
  import opened MsgPack
  import opened MsgPackRoundTrip
  import opened MsgPackNullKeys

  class Encoder {
    var out: seq<Byte>

    constructor ()
      ensures out == []
    {
      out := [];
    }

    /** `one`: the encoding of the value is appended. */
    method One(x: Value)
      requires Encodable(x)
      modifies this
      ensures out == old(out) + Encode(x)
      decreases x, 2
    {
      match x
      case Null => out := out + [0xc0];
      case Bool(b) => out := out + [if b then 0xc3 else 0xc2];
      case Int(i) => out := out + EncodeInt(i);
      case Str(s) => out := out + StrHeader(|s|) + s;
      case Table(es) =>
        if IsSequence(es) { Array(x); } else { Map(x); }
    }

    method Array(x: Value)
      requires x.Table? && Encodable(x) && IsSequence(x.entries)
      modifies this
      ensures out == old(out) + Encode(x)
      decreases x, 1
    {
      out := out + ArrayHeader(|x.entries|);
      ItemsInOrder(x);
      Regroup(old(out), ArrayHeader(|x.entries|), EncodeItems(x, 1));
    }

    method ItemsInOrder(x: Value)
      requires x.Table? && Encodable(x)
      modifies this
      ensures out == old(out) + EncodeItems(x, 1)
      decreases x, 0, 1
    {
      ghost var whole := out + EncodeItems(x, 1);
      var k := 1;
      while k <= |x.entries|
        invariant 1 <= k <= |x.entries| + 1 && out + EncodeItems(x, k) == whole
      {
        Item(x, k);
        k := k + 1;
      }
    }

    /** `one(rawget(x, k))` */
    method Item(x: Value, k: nat)
      requires x.Table? && Encodable(x) && 1 <= k <= |x.entries|
      modifies this
      ensures out + EncodeItems(x, k + 1) == old(out) + EncodeItems(x, k)
      decreases x, 0, 0
    {
      var p := Find(x.entries, k);
      if p < 0 { out := out + [0xc0]; } else { One(x.entries[p].val); }
    }

    method Map(x: Value)
      requires x.Table? && Encodable(x) && !IsSequence(x.entries)
      modifies this
      ensures out == old(out) + Encode(x)
      decreases x, 1
    {
      out := out + MapHeader(|x.entries|);
      PairsInOrder(x);
      Regroup(old(out), MapHeader(|x.entries|), EncodeEntries(x, 0));
    }

    method PairsInOrder(x: Value)
      requires x.Table? && Encodable(x)
      modifies this
      ensures out == old(out) + EncodeEntries(x, 0)
      decreases x, 0, 1
    {
      ghost var whole := out + EncodeEntries(x, 0);
      var j := 0;
      while j < |x.entries|
        invariant 0 <= j <= |x.entries| && out + EncodeEntries(x, j) == whole
      {
        Pair(x, j);
        j := j + 1;
      }
    }

    /** `one(k); one(rawget(x, k))` */
    method Pair(x: Value, j: nat)
      requires x.Table? && Encodable(x) && j < |x.entries|
      modifies this
      ensures out + EncodeEntries(x, j + 1) == old(out) + EncodeEntries(x, j)
      decreases x, 0, 0
    {
      ghost var was, next := out, EncodeEntries(x, j + 1);
      One(x.entries[j].key);
      One(x.entries[j].val);
      RegroupEntry(was, Encode(x.entries[j].key), Encode(x.entries[j].val), next);
    }
  }

  /** `mp_encode` */
  method MpEncode(v: Value) returns (b: seq<Byte>)
    requires Encodable(v)
    ensures b == Encode(v)
  {
    var e := new Encoder();
    e.One(v);
    b := e.out;
  }

  datatype Outcome = Got(val: Value) | Threw(error: Error)

  class Decoder {
    const b: seq<Byte>
    var i: nat

    ghost predicate Valid()
      reads this
    {
      i <= |b|
    }

    constructor (bytes: seq<Byte>)
      ensures Valid() && b == bytes && i == 0
    {
      b, i := bytes, 0;
    }

    /** The cursor and the result agree with what reading `from` here gives. */
    ghost predicate Agrees(r: Outcome, spec: Parsed<Value>)
      reads this
    {
      match spec
      case Done(v, rest) => r == Got(v) && i <= |b| && b[i..] == rest
      case Failed(e) => r == Threw(e)
    }

    /** `str` */
    method Text(n: nat) returns (r: Outcome)
      requires Valid()
      modifies this
      ensures Valid() && i >= old(i) && Agrees(r, MsgPack.Text(b[old(i)..], n))
    {
      if i + n > |b| { return Threw(Incomplete); }
      assert b[i..][..n] == b[i..i + n] && b[i..][n..] == b[i + n..];
      r := Got(Str(b[i..i + n]));
      i := i + n;
    }

    /** `one` */
    method One() returns (r: Outcome)
      requires Valid()
      modifies this
      ensures Valid() && i >= old(i) && Agrees(r, MsgPack.One(b[old(i)..]))
      ensures r.Got? ==> i > old(i)
      decreases |b| - i, 0
    {
      if i + 1 > |b| { return Threw(Incomplete); }
      var c := b[i];
      assert b[i..][1..] == b[i + 1..];
      i := i + 1;
      if c <= 0x7f { return Got(Int(c)); }
      if c >= 0xe0 { return Got(Int(c as int - 256)); }
      if c < 0x90 { r := Map(c - 0x80); return; }
      if c < 0xa0 { r := Array(c - 0x90); return; }
      if c < 0xc0 { r := Text(c - 0xa0); return; }
      r := Switch(c);
    }

    /** The `switch` of `one`. */
    method Switch(c: Byte) returns (r: Outcome)
      requires Valid()
      modifies this
      ensures Valid() && i >= old(i) && Agrees(r, Tagged(c, b[old(i)..]))
      decreases |b| - i, 2
    {
      if c == 0xc0 { return Got(Null); }
      if c == 0xc2 { return Got(Bool(false)); }
      if c == 0xc3 { return Got(Bool(true)); }
      if c == 0xca || c == 0xcb { return Threw(FloatNotModelled); }
      if c in {0xc4, 0xcc, 0xd0, 0xd9} { r := Wide1(c); }
      else if c in {0xc5, 0xcd, 0xd1, 0xda, 0xdc, 0xde} { r := Wide2(c); }
      else if c in {0xc6, 0xce, 0xd2, 0xdb, 0xdd, 0xdf} { r := Wide4(c); }
      else if c == 0xcf || c == 0xd3 { r := Wide8(c); }
      else { r := Threw(Reserved(c)); }
    }

    /** The tags followed by one byte. */
    method Wide1(c: Byte) returns (r: Outcome)
      requires Valid() && c in {0xc4, 0xcc, 0xd0, 0xd9}
      modifies this
      ensures Valid() && i >= old(i) && Agrees(r, Tagged(c, b[old(i)..]))
    {
      if i + 1 > |b| { return Threw(Incomplete); }
      assert b[i..][1..] == b[i + 1..];
      var n := b[i];
      i := i + 1;
      if c == 0xcc { return Got(Int(n)); }
      if c == 0xd0 { return Got(Int(Signed(n, 0x100))); }
      r := Text(n);
    }

    method Wide2(c: Byte) returns (r: Outcome)
      requires Valid() && c in {0xc5, 0xcd, 0xd1, 0xda, 0xdc, 0xde}
      modifies this
      ensures Valid() && i >= old(i) && Agrees(r, Tagged(c, b[old(i)..]))
      decreases |b| - i, 1
    {
      if i + 2 > |b| { return Threw(Incomplete); }
      assert b[i..][2..] == b[i + 2..];
      var n := Read2(b[i..]);
      i := i + 2;
      if c == 0xcd { return Got(Int(n)); }
      if c == 0xd1 { return Got(Int(Signed(n, 0x1_0000))); }
      if c == 0xdc { r := Array(n); }
      else if c == 0xde { r := Map(n); }
      else { r := Text(n); }
    }

    method Wide4(c: Byte) returns (r: Outcome)
      requires Valid() && c in {0xc6, 0xce, 0xd2, 0xdb, 0xdd, 0xdf}
      modifies this
      ensures Valid() && i >= old(i) && Agrees(r, Tagged(c, b[old(i)..]))
      decreases |b| - i, 1
    {
      if i + 4 > |b| { return Threw(Incomplete); }
      assert b[i..][4..] == b[i + 4..];
      var n := Read4(b[i..]);
      i := i + 4;
      if c == 0xce { return Got(Int(n)); }
      if c == 0xd2 { return Got(Int(Signed(n, 0x1_0000_0000))); }
      if c == 0xdd { r := Array(n); }
      else if c == 0xdf { r := Map(n); }
      else { r := Text(n); }
    }

    method Wide8(c: Byte) returns (r: Outcome)
      requires Valid() && c in {0xcf, 0xd3}
      modifies this
      ensures Valid() && i >= old(i) && Agrees(r, Tagged(c, b[old(i)..]))
    {
      if i + 8 > |b| { return Threw(Incomplete); }
      assert b[i..][8..] == b[i + 8..];
      var n := Read8(b[i..]);
      i := i + 8;
      r := Got(Int(Number(if c == 0xcf then n else Signed(n, 0x1_0000_0000_0000_0000))));
    }

    /** `arr` */
    method Array(n: nat) returns (r: Outcome)
      requires Valid()
      modifies this
      ensures Valid() && i >= old(i) && Agrees(r, Items(b[old(i)..], n, []))
      decreases |b| - i, 1
    {
      var items, k := [], 0;
      while k < n
        invariant 0 <= k <= n && Valid() && i >= old(i)
        invariant Items(b[i..], n - k, items) == Items(b[old(i)..], n, [])
      {
        r := One();
        if r.Threw? { return; }
        items, k := items + [r.val], k + 1;
      }
      r := Got(Table(Indexed(items)));
    }

    /** `map` */
    method Map(n: nat) returns (r: Outcome)
      requires Valid()
      modifies this
      ensures Valid() && i >= old(i) && Agrees(r, Entries(b[old(i)..], n, []))
      decreases |b| - i, 1
    {
      var entries, k := [], 0;
      while k < n
        invariant 0 <= k <= n && Valid() && i >= old(i)
        invariant Entries(b[i..], n - k, entries) == Entries(b[old(i)..], n, [])
      {
        r := One();
        if r.Threw? { return; }
        var key := r.val;
        r := One();
        if r.Threw? { return; }
        entries, k := WithEntry(entries, key, r.val), k + 1;
      }
      r := Got(Table(entries));
    }
  }

  /** `mp_decode`: the value the bytes begin with, or the error they raise. */
  method MpDecode(bytes: seq<Byte>) returns (r: Outcome)
    ensures match MsgPack.One(bytes)
            case Done(v, _) => r == Got(v)
            case Failed(e) => r == Threw(e)
  {
    var d := new Decoder(bytes);
    assert bytes[0..] == bytes;
    if |bytes| == 0 { return Threw(Incomplete); }
    r := d.One();
  }

  /** A value sent through the codec comes back the same, unless a vim.NIL key is in it. */
  method SendAndReceive(v: Value, rest: seq<Byte>) returns (r: Outcome)
    requires Encodable(v)
    ensures r.Got? && (Same(v, r.val) <==> NoNullKey(v))
  {
    var b := MpEncode(v);
    SameUnlessNullKey(v, rest);
    r := MpDecode(b + rest);
  }
}
