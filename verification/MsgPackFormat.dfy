/** The bytes of each kind of value, as the MessagePack specification lists them. */
module MsgPackFormat {
  import opened Exact
  import opened Sets
  import opened MsgPack
  import opened MsgPackRoundTrip

  /** A number written with its most significant byte first. */
  function BigEndian(b: seq<Byte>): int {
    if b == [] then 0 else 256 * BigEndian(b[..|b| - 1]) + b[|b| - 1]
  }

  lemma {:induction false} BigStep(a: seq<Byte>, c: Byte)
    ensures BigEndian(a + [c]) == 256 * BigEndian(a) + c
  {
    assert (a + [c])[..|a|] == a;
  }

  lemma {:induction false} BigPair(a: seq<Byte>, b: seq<Byte>)
    requires |b| == 2
    ensures BigEndian(a + b) == 0x1_0000 * BigEndian(a) + BigEndian(b)
  {
    BigStep(a, b[0]);
    BigStep(a + [b[0]], b[1]);
    BigStep([], b[0]);
    BigStep([b[0]], b[1]);
    assert a + b == a + [b[0]] + [b[1]] && b == [b[0]] + [b[1]] && [b[0]] == [] + [b[0]];
  }

  lemma {:induction false} Big2(n: int)
    requires 0 <= n < 0x1_0000
    ensures |U2(n)| == 2 && BigEndian(U2(n)) == n
  {
    BigStep([], n / 0x100);
    BigStep([n / 0x100], n % 0x100);
    assert [] + [n / 0x100] == [n / 0x100];
  }

  lemma {:induction false} Big4(n: int)
    requires 0 <= n < 0x1_0000_0000
    ensures |U4(n)| == 4 && BigEndian(U4(n)) == n
  {
    Big2(n / 0x1_0000);
    Big2(n % 0x1_0000);
    BigPair(U2(n / 0x1_0000), U2(n % 0x1_0000));
  }

  lemma {:induction false} Big8(n: int)
    requires 0 <= n < 0x1_0000_0000_0000_0000
    ensures |U8(n)| == 8 && BigEndian(U8(n)) == n
  {
    var high, low := n / 0x1_0000_0000, n % 0x1_0000_0000;
    Big4(high);
    Big4(low);
    BigPair(U4(high), U2(low / 0x1_0000));
    BigPair(U4(high) + U2(low / 0x1_0000), U2(low % 0x1_0000));
    assert U8(n) == U4(high) + U2(low / 0x1_0000) + U2(low % 0x1_0000);
    assert 0x1_0000 * (0x1_0000 * high + low / 0x1_0000) + low % 0x1_0000 == n;
    Big2(low / 0x1_0000);
    Big2(low % 0x1_0000);
  }

  /** The byte `tag` and the number in `width` more bytes. */
  predicate Tags(b: seq<Byte>, tag: Byte, width: nat, n: int) {
    |b| == width + 1 && b[0] == tag && BigEndian(b[1..]) == n
  }

  /** An integer is its own byte, or a tag and its two's complement in as many bytes as it needs. */
  lemma {:induction false} IntForms(i: int)
    requires Abs(i) <= MAX_SAFE_INTEGER
    ensures
      var b := EncodeInt(i);
      && (0 <= i < 128 ==> b == [i]) && (-32 <= i < 0 ==> b == [256 + i])
      && (128 <= i < 256 ==> Tags(b, 0xcc, 1, i)) && (-128 <= i < -32 ==> Tags(b, 0xd0, 1, i + 0x100))
      && (256 <= i < 65536 ==> Tags(b, 0xcd, 2, i)) && (-32768 <= i < -128 ==> Tags(b, 0xd1, 2, i + 0x1_0000))
      && (65536 <= i < 0x1_0000_0000 ==> Tags(b, 0xce, 4, i))
      && (-0x8000_0000 <= i < -32768 ==> Tags(b, 0xd2, 4, i + 0x1_0000_0000))
      && (i >= 0x1_0000_0000 ==> Tags(b, 0xcf, 8, i))
      && (i < -0x8000_0000 ==> Tags(b, 0xd3, 8, i + 0x1_0000_0000_0000_0000))
  {
    var b := EncodeInt(i);
    if -32 <= i < 128 {
    } else if 0 <= i {
      Untagged(b[0], i, |b| - 1);
    } else if i >= -128 {
      Untagged(b[0], i + 0x100, 1);
    } else if i >= -32768 {
      Untagged(b[0], i + 0x1_0000, 2);
    } else if i >= -0x8000_0000 {
      Untagged(b[0], i + 0x1_0000_0000, 4);
    } else {
      Untagged(b[0], i + 0x1_0000_0000_0000_0000, 8);
    }
  }

  function Unsigned(n: int, width: nat): seq<Byte>
    requires 0 <= n < 0x1_0000_0000_0000_0000
    requires (width == 1 ==> n < 256) && (width == 2 ==> n < 0x1_0000) && (width == 4 ==> n < 0x1_0000_0000)
  {
    if width == 1 then U1(n) else if width == 2 then U2(n) else if width == 4 then U4(n) else U8(n)
  }

  lemma {:induction false} Untagged(tag: Byte, n: int, width: nat)
    requires 0 <= n < 0x1_0000_0000_0000_0000 && (width == 1 || width == 2 || width == 4 || width == 8)
    requires (width == 1 ==> n < 256) && (width == 2 ==> n < 0x1_0000) && (width == 4 ==> n < 0x1_0000_0000)
    ensures Tags([tag] + Unsigned(n, width), tag, width, n)
  {
    var u := Unsigned(n, width);
    if width == 1 {
      BigStep([], n);
      assert [] + [n] == u;
    } else if width == 2 {
      Big2(n);
    } else if width == 4 {
      Big4(n);
    } else {
      Big8(n);
    }
    assert ([tag] + u)[1..] == u;
  }

  /** Strings, arrays and maps begin with their length: in the first byte when it is short, else after a tag. */
  lemma {:induction false} LengthForms(n: int)
    requires 0 <= n < 0x1_0000_0000
    ensures n < 32 ==> StrHeader(n) == [0xa0 + n]
    ensures 32 <= n < 256 ==> Tags(StrHeader(n), 0xd9, 1, n)
    ensures 256 <= n < 65536 ==> Tags(StrHeader(n), 0xda, 2, n)
    ensures n >= 65536 ==> Tags(StrHeader(n), 0xdb, 4, n)
    ensures n < 16 ==> ArrayHeader(n) == [0x90 + n] && MapHeader(n) == [0x80 + n]
    ensures 16 <= n < 65536 ==> Tags(ArrayHeader(n), 0xdc, 2, n) && Tags(MapHeader(n), 0xde, 2, n)
    ensures n >= 65536 ==> Tags(ArrayHeader(n), 0xdd, 4, n) && Tags(MapHeader(n), 0xdf, 4, n)
  {
    if 32 <= n < 256 { Untagged(0xd9, n, 1); }
    if n < 65536 {
      Untagged(0xda, n, 2);
      Untagged(0xdc, n, 2);
      Untagged(0xde, n, 2);
    } else {
      Untagged(0xdb, n, 4);
      Untagged(0xdd, n, 4);
      Untagged(0xdf, n, 4);
    }
  }

  /** An entry has the key `k`. */
  predicate HasKey(es: seq<Entry>, k: int) {
    exists j :: 0 <= j < |es| && es[j].key == Int(k)
  }

  /** The places of the keys 1 to `n`, each at its own. */
  ghost function PlacesOf(es: seq<Entry>, n: nat): (r: set<int>)
    requires forall k | 1 <= k <= n :: HasKey(es, k)
    ensures |r| == n && forall p | p in r :: 0 <= p < |es| && es[p].key.Int? && 1 <= es[p].key.i <= n
  {
    if n == 0 then {}
    else
      assert HasKey(es, n);
      PlacesOf(es, n - 1) + {Find(es, n)}
  }

  ghost function Below(n: nat): (r: set<int>)
    ensures |r| == n && forall p :: p in r <==> 0 <= p < n
  {
    if n == 0 then {} else Below(n - 1) + {n - 1}
  }

  lemma {:induction false} GreatestKey(es: seq<Entry>, n: nat)
    requires forall j | 0 <= j < |es| :: es[j].key.Int? && 1 <= es[j].key.i <= n
    ensures MaxKey(es) <= n
  {
    if es != [] { GreatestKey(es[..|es| - 1], n); }
  }

  /** A table is written as an array exactly when its keys are 1 to its size. */
  lemma {:induction false} ArrayExactly(es: seq<Entry>)
    requires Encodable(Table(es))
    ensures IsSequence(es) <==> forall k | 1 <= k <= |es| :: HasKey(es, k)
  {
    if IsSequence(es) {
      forall k | 1 <= k <= |es|
        ensures HasKey(es, k)
      {
        NoneMissing(es, k);
        assert es[Find(es, k)].key == Int(k);
      }
    }
    if forall k | 1 <= k <= |es| :: HasKey(es, k) { AllThere(es); }
  }

  lemma {:induction false} AllThere(es: seq<Entry>)
    requires forall k | 1 <= k <= |es| :: HasKey(es, k)
    ensures IsSequence(es)
  {
    var places, all := PlacesOf(es, |es|), Below(|es|);
    Smaller(places, all);
    forall j | 0 <= j < |es|
      ensures es[j].key.Int? && 1 <= es[j].key.i <= |es|
    {
      assert j in all;
    }
    GreatestKey(es, |es|);
    if es != [] {
      assert HasKey(es, |es|);
      var j :| 0 <= j < |es| && es[j].key == Int(|es|);
    }
  }

  /** Every value begins with the bytes of its kind, and a string and a table with their size. */
  lemma {:induction false} ValueForms(v: Value)
    requires Encodable(v)
    ensures v.Null? ==> Encode(v) == [0xc0]
    ensures v.Bool? ==> Encode(v) == [if v.b then 0xc3 else 0xc2]
    ensures v.Int? ==> Encode(v) == EncodeInt(v.i)
    ensures v.Str? ==> Encode(v) == StrHeader(|v.s|) + v.s
    ensures v.Table? ==>
              if forall k | 1 <= k <= |v.entries| :: HasKey(v.entries, k) then ArrayHeader(|v.entries|) <= Encode(v)
              else MapHeader(|v.entries|) <= Encode(v)
  {
    if v.Table? { ArrayExactly(v.entries); }
  }
}
