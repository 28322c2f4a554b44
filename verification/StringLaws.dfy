/** pack.js: what captures and replacement strings stand for, and which matches `find` and `gsub` take, said by the
    bytes of the subject. */
module StringLaws {
  import opened Exact
  import opened DecimalText
  import opened Patterns
  import opened PatternBounds
  import opened PatternLaws
  import opened StringLib

  lemma {:induction false} TextIs(h: seq<nat>, at: int, n: nat)
    ensures Text(h, at, n) == BytesAt(h, at, n)
    decreases n
  {
    if n > 0 {
      TextIs(h, at + 1, n - 1);
      assert BytesAt(h, at, n) == [At(h, at)] + BytesAt(h, at + 1, n - 1);
    }
  }

  /** The bytes of the heap between two places of the subject are the subject's. */
  lemma {:induction false} SubjectBytes(image: seq<nat>, s: seq<nat>, p: seq<nat>, a: nat, b: nat)
    requires a <= b <= |s|
    ensures BytesAt(Prepare(image, s, p).h, |image| + a, b - a) == s[a..b]
  {
    var h := Prepare(image, s, p).h;
    TextIs(h, |image| + a, b - a);
    TextOf(h, |image| + a, b - a);
    assert h[|image| + a..|image| + a + (b - a)] == s[a..b];
  }

  // ----- captures -----

  /** What a capture that is not open gives: its place, counted from one, or its bytes. */
  function CaptureValue(x: Subject, c: Capture): Value {
    if c.len == -2 then Int(c.init - x.init + 1) else Str(BytesAt(x.h, c.init, Max(0, c.len)))
  }

  function CaptureValues(x: Subject, caps: seq<Capture>): seq<Value> {
    seq(|caps|, k requires 0 <= k < |caps| => CaptureValue(x, caps[k]))
  }

  predicate NoneOpen(caps: seq<Capture>) {
    forall k | 0 <= k < |caps| :: caps[k].len != -1
  }

  lemma OneCaptureIs(x: Subject, caps: seq<Capture>, i: nat, s: int, e: int)
    requires i < |caps|
    ensures OneCapture(x, caps, i, s, e)
         == if caps[i].len == -1 then Error(UnfinishedCapture) else Ok(CaptureValue(x, caps[i]))
  {
    TextIs(x.h, caps[i].init, Max(0, caps[i].len));
    assert caps[i].len < 0 ==> Text(x.h, caps[i].init, caps[i].len) == Text(x.h, caps[i].init, 0);
  }

  lemma {:induction false} CapturesFrom(x: Subject, caps: seq<Capture>, i: nat, s: int, e: int)
    requires i <= |caps|
    ensures NoneOpen(caps[i..]) ==> Captures(x, caps, i, |caps|, s, e) == Ok(CaptureValues(x, caps[i..]))
    ensures !NoneOpen(caps[i..]) ==> Captures(x, caps, i, |caps|, s, e) == Error(UnfinishedCapture)
    decreases |caps| - i
  {
    if i == |caps| {
      assert caps[i..] == [] && CaptureValues(x, []) == [];
    } else {
      CapturesFrom(x, caps, i + 1, s, e);
      OneCaptureIs(x, caps, i, s, e);
      assert caps[i..] == [caps[i]] + caps[i + 1..];
      if caps[i].len != -1 {
        OpenLater(caps[i], caps[i + 1..]);
        assert CaptureValues(x, caps[i..]) == [CaptureValue(x, caps[i])] + CaptureValues(x, caps[i + 1..]);
      } else {
        assert caps[i..][0].len == -1;
      }
    }
  }

  lemma OpenLater(c: Capture, caps: seq<Capture>)
    requires c.len != -1
    ensures NoneOpen([c] + caps) <==> NoneOpen(caps)
  {
    forall k | 0 <= k < |caps|
      ensures ([c] + caps)[k + 1] == caps[k]
    {}
    if NoneOpen([c] + caps) {
      forall k | 0 <= k < |caps| ensures caps[k].len != -1 { assert ([c] + caps)[k + 1].len != -1; }
    }
  }

  /** The captures a match returns are the values of its captures in order; one left open is an error, and without any
      the whole match stands for them where it is asked for. */
  lemma {:induction false} CapturesReturned(x: Subject, caps: seq<Capture>, whole: bool, s: int, e: int)
    requires s <= e
    ensures !NoneOpen(caps) ==> AllCaptures(x, caps, whole, s, e) == Error(UnfinishedCapture)
    ensures NoneOpen(caps) && (caps != [] || !whole) ==> AllCaptures(x, caps, whole, s, e) == Ok(CaptureValues(x, caps))
    ensures caps == [] && whole ==> AllCaptures(x, caps, whole, s, e) == Ok([Str(BytesAt(x.h, s, e - s))])
  {
    assert caps[0..] == caps;
    CapturesFrom(x, caps, 0, s, e);
    if caps == [] && whole {
      TextIs(x.h, s, e - s);
      var v := Str(BytesAt(x.h, s, e - s));
      assert Captures(x, caps, 1, 1, s, e) == Ok([]) && [v] + [] == [v];
    }
  }

  // ----- replacement strings -----

  /** One after the other, unless there is an error. */
  function Then(a: Reply<seq<nat>>, b: Reply<seq<nat>>): Reply<seq<nat>> {
    match a
    case Error(error) => Error(error)
    case Ok(first) => (match b case Error(error) => Error(error) case Ok(more) => Ok(first + more))
  }

  /** What the replacement string stands for. */
  function Stand(x: Subject, caps: seq<Capture>, s: int, e: int, news: seq<nat>): Reply<seq<nat>> {
    Instead(x, caps, s, e, Template(news))
  }

  /** Every `%` has the character it escapes. */
  predicate Complete(news: seq<nat>) {
    news == [] || (if news[0] != 37 then Complete(news[1..]) else |news| > 1 && Complete(news[2..]))
  }

  lemma {:induction false} ThenThen(a: Reply<seq<nat>>, b: Reply<seq<nat>>, c: Reply<seq<nat>>)
    ensures Then(Then(a, b), c) == Then(a, Then(b, c))
  {
    if a.Ok? && b.Ok? && c.Ok? { assert a.value + (b.value + c.value) == a.value + b.value + c.value; }
  }

  lemma {:induction false} ThenNothing(a: Reply<seq<nat>>)
    ensures Then(Ok([]), a) == a && Then(a, Ok([])) == a
  {
    if a.Ok? { assert [] + a.value == a.value == a.value + []; }
  }

  /** What the first byte, or the `%` and the one after it, stands for. */
  function Piece(x: Subject, caps: seq<Capture>, s: int, e: int, c: nat, d: nat): Reply<seq<nat>> {
    if c != 37 then Ok([c])
    else if !IsDigit(d) then Ok([d])
    else if d == 48 then Ok(Text(x.h, s, e - s))
    else match OneCapture(x, caps, d - 49, s, e) case Error(error) => Error(error) case Ok(v) => Ok(ValueBytes(v))
  }

  lemma {:induction false} PieceThenRest(x: Subject, caps: seq<Capture>, s: int, e: int, news: seq<nat>)
    requires news != []
    ensures Expand(x, caps, s, e, news, 0)
         == Then(Piece(x, caps, s, e, news[0], if |news| > 1 then news[1] else 0),
              Expand(x, caps, s, e, news, if news[0] == 37 then 2 else 1))
  {}

  /** What is written from `i` on does not depend on what comes before. */
  lemma {:induction false} ExpandRest(x: Subject, caps: seq<Capture>, s: int, e: int, news: seq<nat>, i: nat)
    requires i <= |news|
    ensures Expand(x, caps, s, e, news, i) == Expand(x, caps, s, e, news[i..], 0)
  {
    ExpandShift(x, caps, s, e, news, i, 0);
  }

  lemma {:induction false} ExpandShift(x: Subject, caps: seq<Capture>, s: int, e: int, news: seq<nat>, i: nat, j: nat)
    requires i <= |news|
    ensures Expand(x, caps, s, e, news, i + j) == Expand(x, caps, s, e, news[i..], j)
    decreases |news| - i - j
  {
    if i + j < |news| {
      assert news[i..][j] == news[i + j];
      assert i + j + 1 < |news| ==> news[i..][j + 1] == news[i + j + 1];
      ExpandShift(x, caps, s, e, news, i, j + 1);
      if news[i + j] == 37 { ExpandShift(x, caps, s, e, news, i, j + 2); }
    }
  }

  /** The replacement string `a` and then `b` stands for what `a` stands for and then what `b` does. */
  lemma {:induction false} ReplacementParts(x: Subject, caps: seq<Capture>, s: int, e: int, a: seq<nat>, b: seq<nat>)
    requires Complete(a)
    ensures Stand(x, caps, s, e, a + b) == Then(Stand(x, caps, s, e, a), Stand(x, caps, s, e, b))
    decreases |a|
  {
    if a == [] {
      assert a + b == b;
      ThenNothing(Stand(x, caps, s, e, b));
    } else {
      var n, d := if a[0] == 37 then 2 else 1, if |a| > 1 then a[1] else 0;
      assert (a + b)[0] == a[0] && (n == 2 ==> (a + b)[1] == a[1]) && (a + b)[n..] == a[n..] + b;
      ReplacementParts(x, caps, s, e, a[n..], b);
      ExpandRest(x, caps, s, e, a, n);
      ExpandRest(x, caps, s, e, a + b, n);
      PieceThenRest(x, caps, s, e, a);
      PieceThenRest(x, caps, s, e, a + b);
      ThenThen(Piece(x, caps, s, e, a[0], d), Stand(x, caps, s, e, a[n..]), Stand(x, caps, s, e, b));
    }
  }

  /** A byte other than `%` stands for itself, `%` before no digit for the byte after it, and a last `%` for a NUL. */
  lemma {:induction false} PlainBytes(x: Subject, caps: seq<Capture>, s: int, e: int, c: nat)
    ensures Stand(x, caps, s, e, []) == Ok([])
    ensures c != 37 ==> Stand(x, caps, s, e, [c]) == Ok([c])
    ensures !(48 <= c <= 57) ==> Stand(x, caps, s, e, [37, c]) == Ok([c])
    ensures Stand(x, caps, s, e, [37]) == Ok([0])
  {
    assert Expand(x, caps, s, e, [c], 1) == Ok([]) && Expand(x, caps, s, e, [37, c], 2) == Ok([]);
    assert Expand(x, caps, s, e, [37], 2) == Ok([]);
    assert [c] + [] == [c] && [0] + [] == [0];
  }

  lemma {:induction false} Escaped(x: Subject, caps: seq<Capture>, s: int, e: int, d: nat)
    ensures Stand(x, caps, s, e, [37, d]) == Piece(x, caps, s, e, 37, d)
  {
    PieceThenRest(x, caps, s, e, [37, d]);
    ThenNothing(Piece(x, caps, s, e, 37, d));
  }

  /** `%0` stands for the match, and so does `%1` without captures. */
  lemma {:induction false} MatchReference(x: Subject, caps: seq<Capture>, s: int, e: int)
    requires s <= e
    ensures Stand(x, caps, s, e, [37, 48]) == Ok(BytesAt(x.h, s, e - s))
    ensures caps == [] ==> Stand(x, caps, s, e, [37, 49]) == Ok(BytesAt(x.h, s, e - s))
  {
    Escaped(x, caps, s, e, 48);
    Escaped(x, caps, s, e, 49);
    TextIs(x.h, s, e - s);
  }

  /** `%1` to `%9` stand for the bytes of that capture or the numeral of its place; a capture left open is an error, and
      so is one there is not. */
  lemma {:induction false} CaptureReference(x: Subject, caps: seq<Capture>, s: int, e: int, i: nat)
    requires 1 <= i <= 9 && (caps == [] ==> i > 1)
    ensures i > |caps| ==> Stand(x, caps, s, e, [37, 48 + i]) == Error(InvalidCaptureIndex)
    ensures i <= |caps| && caps[i - 1].len == -1 ==> Stand(x, caps, s, e, [37, 48 + i]) == Error(UnfinishedCapture)
    ensures i <= |caps| && caps[i - 1].len >= 0 ==>
              Stand(x, caps, s, e, [37, 48 + i]) == Ok(BytesAt(x.h, caps[i - 1].init, caps[i - 1].len))
    ensures i <= |caps| && caps[i - 1].len == -2 && x.init <= caps[i - 1].init ==>
              Stand(x, caps, s, e, [37, 48 + i]) == Ok(Numerals(caps[i - 1].init - x.init + 1))
  {
    Escaped(x, caps, s, e, 48 + i);
    if i <= |caps| { Referred(x, caps[i - 1], OneCapture(x, caps, i - 1, s, e), caps, i - 1, s, e); }
  }

  lemma {:induction false} Referred(x: Subject, c: Capture, r: Reply<Value>, caps: seq<Capture>, i: nat, s: int, e: int)
    requires i < |caps| && c == caps[i] && r == OneCapture(x, caps, i, s, e)
    ensures c.len == -1 ==> r == Error(UnfinishedCapture)
    ensures c.len >= 0 ==> r == Ok(Str(BytesAt(x.h, c.init, c.len)))
    ensures c.len == -2 && x.init <= c.init ==> r.Ok? && ValueBytes(r.value) == Numerals(c.init - x.init + 1)
  {
    OneCaptureIs(x, caps, i, s, e);
    if c.len == -2 && x.init <= c.init { NoSign(c.init - x.init + 1); }
  }

  lemma NoSign(n: nat)
    ensures ValueBytes(Int(n)) == Numerals(n)
  {
    assert [] + Numerals(n) == Numerals(n);
  }

  /** What the answer of a table or function makes of a match. */
  function Answered(x: Subject, s: nat, e: nat, a: Answer): Reply<seq<nat>>
    requires s <= e
  {
    match a
    case Keep => Ok(BytesAt(x.h, s, e - s))
    case Bytes(bytes) => Ok(bytes)
    case Other => Error(InvalidReplacement)
  }

  /** A table is looked up at the first capture, or at the match; a function is called with all captures, or with the
      match; nil and false leave the match as it is. */
  lemma {:induction false} AnswerReplaces(x: Subject, caps: seq<Capture>, s: nat, e: nat, at: Value -> Answer,
      call: seq<Value> -> Answer)
    requires s <= e && NoneOpen(caps)
    ensures
      var all := if caps == [] then [Str(BytesAt(x.h, s, e - s))] else CaptureValues(x, caps);
      && Instead(x, caps, s, e, Lookup(at)) == Answered(x, s, e, at(all[0]))
      && Instead(x, caps, s, e, Callback(call)) == Answered(x, s, e, call(all))
  {
    TextIs(x.h, s, e - s);
    CapturesReturned(x, caps, true, s, e);
    if caps != [] { OneCaptureIs(x, caps, 0, s, e); }
  }

  // ----- find and match -----

  /** The pattern at `p` has a result at `t` and none from `from` up to there; the preferred one is a match. */
  ghost predicate FirstFrom(x: Subject, p: int, from: int, t: int, e: int, caps: seq<Capture>) {
    && from <= t <= x.end && All(x, t, p, []) != [] && All(x, t, p, [])[0] == Done(e, caps)
    && forall k | from <= k < t :: All(x, k, p, []) == []
  }

  lemma {:induction false} LeftmostUnique(x: Subject, p: int, from: int, t: int, e: int, caps: seq<Capture>)
    requires FirstFrom(x, p, from, t, e, caps)
    ensures Leftmost(x, from, p, false) == MatchAt(t, e, caps)
    decreases t - from
  {
    if from < t { LeftmostUnique(x, p, from + 1, t, e, caps); }
  }

  /** The place `find` and `match` look from: `init` counts from one, or from the end when it is negative. */
  lemma {:induction false} Place(n: nat, init: int)
    ensures 1 <= init <= n + 1 ==> Start(n, init) == init - 1
    ensures -1 >= init && init + n >= 0 ==> Start(n, init) == n + init
    ensures init + n < 0 || init == 0 ==> Start(n, init) == 0
    ensures init > n + 1 ==> Start(n, init) == n
  {}

  /** For a pattern not anchored: with `t` the first place from `init` on at which it has a result, `find` gives the
      places of the first and the last byte of that result, and after them the captures;
          `match` gives the captures, or the
      bytes matched. */
  lemma {:induction false} FindAndMatch(image: seq<nat>, s: seq<nat>, p: seq<nat>, init: int, from: nat, t: nat, e: nat,
      caps: seq<Capture>, x: Subject, q: int)
    requires x == Prepare(image, s, p) && q == |image| + |s| + 1 && At(p, 0) != 94
    requires from <= t <= e <= |s| && ((1 <= init && from == init - 1) || (init <= -1 && from == |s| + init))
    requires FirstFrom(x, q, x.init + from, x.init + t, x.init + e, caps) && NoneOpen(caps)
    ensures PatternResult(image, true, s, p, init) == Ok([Int(t + 1), Int(e)] + CaptureValues(x, caps))
    ensures PatternResult(image, false, s, p, init) == Ok(if caps == [] then [Str(s[t..e])] else CaptureValues(x, caps))
  {
    Place(|s|, init);
    Unanchored(image, s, p, init, from, x, q);
    SubjectBytes(image, s, p, t, e);
    FoundThere(x, q, from, t, e, caps, CaptureValues(x, caps),
      if caps == [] then [Str(s[t..e])] else CaptureValues(x, caps));
  }

  lemma {:induction false} FoundThere(x: Subject, q: int, from: int, t: int, e: int, caps: seq<Capture>, vs: seq<Value>,
      ws: seq<Value>)
    requires FirstFrom(x, q, x.init + from, x.init + t, x.init + e, caps) && NoneOpen(caps) && t <= e
    requires vs == CaptureValues(x, caps)
    requires ws == if caps == [] then [Str(BytesAt(x.h, x.init + t, e - t))] else vs
    ensures Report(x, true, Leftmost(x, x.init + from, q, false)) == Ok([Int(t + 1), Int(e)] + vs)
    ensures Report(x, false, Leftmost(x, x.init + from, q, false)) == Ok(ws)
  {
    LeftmostUnique(x, q, x.init + from, x.init + t, x.init + e, caps);
    MatchReported(x, t, e, MatchAt(x.init + t, x.init + e, caps), vs, ws);
  }

  /** For a pattern that begins with `^` the place they look from is the only one. */
  lemma {:induction false} AnchoredFind(image: seq<nat>, s: seq<nat>, p: seq<nat>, init: int, from: nat, e: nat,
      caps: seq<Capture>, x: Subject, q: int)
    requires x == Prepare(image, s, p) && q == |image| + |s| + 2 && At(p, 0) == 94 && NoneOpen(caps)
    requires from <= e <= |s| && ((1 <= init && from == init - 1) || (init <= -1 && from == |s| + init))
    ensures All(x, x.init + from, q, []) == [] ==>
              PatternResult(image, true, s, p, init) == Ok([]) == PatternResult(image, false, s, p, init)
    ensures FirstFrom(x, q, x.init + from, x.init + from, x.init + e, caps) ==>
              PatternResult(image, true, s, p, init) == Ok([Int(from + 1), Int(e)] + CaptureValues(x, caps))
    ensures FirstFrom(x, q, x.init + from, x.init + from, x.init + e, caps) ==>
              PatternResult(image, false, s, p, init)
              == Ok(if caps == [] then [Str(s[from..e])] else CaptureValues(x, caps))
  {
    Place(|s|, init);
    Anchoring(image, s, p, init, from, x, q);
    SubjectBytes(image, s, p, from, e);
    if FirstFrom(x, q, x.init + from, x.init + from, x.init + e, caps) {
      MatchReported(x, from, e, MatchAt(x.init + from, x.init + e, caps), CaptureValues(x, caps),
        if caps == [] then [Str(s[from..e])] else CaptureValues(x, caps));
    }
  }

  lemma {:induction false} Anchoring(image: seq<nat>, s: seq<nat>, p: seq<nat>, init: int, from: nat, x: Subject,
      q: int)
    requires At(p, 0) == 94 && from == Start(|s|, init) && x == Prepare(image, s, p) && q == |image| + |s| + 2
    ensures PatternResult(image, true, s, p, init) == Report(x, true, Leftmost(x, x.init + from, q, true))
    ensures PatternResult(image, false, s, p, init) == Report(x, false, Leftmost(x, x.init + from, q, true))
  {
    PatternBegins(image, s, p);
  }

  lemma {:induction false} Unanchored(image: seq<nat>, s: seq<nat>, p: seq<nat>, init: int, from: nat, x: Subject,
      q: int)
    requires At(p, 0) != 94 && from == Start(|s|, init) && x == Prepare(image, s, p) && q == |image| + |s| + 1
    ensures PatternResult(image, true, s, p, init) == Report(x, true, Leftmost(x, x.init + from, q, false))
    ensures PatternResult(image, false, s, p, init) == Report(x, false, Leftmost(x, x.init + from, q, false))
  {
    PatternBegins(image, s, p);
  }

  lemma {:induction false} MatchReported(x: Subject, t: int, e: int, m: Search, vs: seq<Value>, ws: seq<Value>)
    requires m.MatchAt? && NoneOpen(m.caps) && t <= e && m.start == x.init + t && m.end == x.init + e
    requires vs == CaptureValues(x, m.caps)
    requires ws == if m.caps == [] then [Str(BytesAt(x.h, m.start, e - t))] else vs
    ensures Report(x, true, m) == Ok([Int(t + 1), Int(e)] + vs)
    ensures Report(x, false, m) == Ok(ws)
  {
    CapturesReturned(x, m.caps, false, m.start, m.end);
    CapturesReturned(x, m.caps, true, m.start, m.end);
    assert [] + ws == ws;
  }

  lemma PatternBegins(image: seq<nat>, s: seq<nat>, p: seq<nat>)
    ensures At(Prepare(image, s, p).h, |image| + |s| + 1) == At(p, 0)
  {}

  // ----- gsub -----

  type Found = m: Search | m.MatchAt? witness MatchAt(0, 0, [])

  /** Where the search goes on after a match: at its end, or past one that took nothing. */
  function Onward(m: Found): int { if m.end > m.start then m.end else m.start + 1 }

  /** And so does that of `gmatch`. */
  lemma GmatchOnward(x: Subject, m: Found)
    requires m.start <= m.end
    ensures x.init + NextPosition(x, m.start, m.end) == Onward(m)
  {}

  /** Each of the matches is the leftmost one from where the one before leads. */
  ghost predicate Successive(x: Subject, p: int, ms: seq<Found>, from: int) {
    ms == [] || (ms[0] == Leftmost(x, from, p, false) && Successive(x, p, ms[1..], Onward(ms[0])))
  }

  /** Where the search stands after the matches. */
  ghost function Reached(ms: seq<Found>, from: int): int {
    if ms == [] then from else Reached(ms[1..], Onward(ms[0]))
  }

  /** The subject from `from` on with the matches replaced and the bytes between them copied. */
  ghost function Rewritten(x: Subject, repl: Replacement, ms: seq<Found>, from: int): Reply<seq<nat>> {
    if ms == [] then Ok(BytesAt(x.h, from, Max(0, x.end - from)))
    else
      var m := ms[0];
      Then(Ok(BytesAt(x.h, from, Max(0, m.start - from))),
        Then(Instead(x, m.caps, m.start, m.end, repl), Rewritten(x, repl, ms[1..], Max(m.start, m.end))))
  }

  lemma {:induction false} FirstByte(h: seq<nat>, at: int, n: nat)
    requires n > 0
    ensures BytesAt(h, at, n) == [At(h, at)] + BytesAt(h, at + 1, n - 1)
  {}

  /** A byte that begins no match is copied. */
  lemma {:induction false} Copied(x: Subject, repl: Replacement, ms: seq<Found>, from: int)
    requires if ms == [] then from < x.end else from < ms[0].start
    ensures Rewritten(x, repl, ms, from) == Then(Ok([At(x.h, from)]), Rewritten(x, repl, ms, from + 1))
  {
    FirstByte(x.h, from, if ms == [] then x.end - from else ms[0].start - from);
    if ms != [] {
      var m := ms[0];
      ThenThen(Ok([At(x.h, from)]), Ok(BytesAt(x.h, from + 1, m.start - from - 1)),
        Then(Instead(x, m.caps, m.start, m.end, repl), Rewritten(x, repl, ms[1..], Max(m.start, m.end))));
    }
  }

  lemma {:induction false} MatchesLater(x: Subject, p: int, ms: seq<Found>, from: int)
    requires Successive(x, p, ms, from) && ms != []
    ensures from <= ms[0].start
  {
    LeftmostIsFirst(x, from, p, false);
  }

  /** A match at `from` itself. */
  lemma {:induction false} MatchFirst(x: Subject, repl: Replacement, m: Found, more: seq<Found>, bytes: seq<nat>)
    requires Instead(x, m.caps, m.start, m.end, repl) == Ok(bytes)
    ensures Rewritten(x, repl, [m] + more, m.start) == Then(Ok(bytes), Rewritten(x, repl, more, Max(m.start, m.end)))
  {
    assert ([m] + more)[1..] == more;
    assert BytesAt(x.h, m.start, 0) == [];
    ThenNothing(Then(Ok(bytes), Rewritten(x, repl, more, Max(m.start, m.end))));
  }

  lemma {:induction false} SuccessiveFirst(x: Subject, p: int, m: Found, more: seq<Found>)
    requires m == Leftmost(x, m.start, p, false) && Successive(x, p, more, Onward(m))
    ensures Successive(x, p, [m] + more, m.start) && Reached([m] + more, m.start) == Reached(more, Onward(m))
  {
    assert ([m] + more)[1..] == more;
  }

  /** The result `t` of a substitution from `src` on, after `n` matches, replaces the matches `ms`. */
  ghost predicate Replaces(x: Subject, p: int, repl: Replacement, max: int, src: int, n: int, t: Substituted,
      ms: seq<Found>) {
    && Successive(x, p, ms, src) && t.count == n + |ms| && (ms == [] || t.count <= max)
    && Rewritten(x, repl, ms, src) == Ok(t.bytes)
    && (t.count < max ==> Leftmost(x, Reached(ms, src), p, false).Nowhere?)
  }

  lemma {:induction false} ReplacesLater(x: Subject, p: int, repl: Replacement, max: int, src: int, n: int,
      t: Substituted, ms: seq<Found>)
    requires src < x.end && All(x, src, p, []) == [] && Replaces(x, p, repl, max, src + 1, n, t, ms)
    ensures Replaces(x, p, repl, max, src, n, Substituted([At(x.h, src)] + t.bytes, t.count), ms)
  {
    if ms != [] { MatchesLater(x, p, ms, src + 1); }
    Copied(x, repl, ms, src);
  }

  lemma {:induction false} ReplacesFirst(x: Subject, p: int, repl: Replacement, max: int, src: int, n: int,
      t: Substituted, ms: seq<Found>, m: Found, bytes: seq<nat>)
    requires m == Leftmost(x, src, p, false) && m.start == src < m.end && n < max
    requires Instead(x, m.caps, m.start, m.end, repl) == Ok(bytes)
    requires Replaces(x, p, repl, max, m.end, n + 1, t, ms)
    ensures Replaces(x, p, repl, max, src, n, Substituted(bytes + t.bytes, t.count), [m] + ms)
  {
    SuccessiveFirst(x, p, m, ms);
    MatchFirst(x, repl, m, ms, bytes);
  }

  lemma {:induction false} EmptyRewritten(x: Subject, repl: Replacement, src: int, t: seq<nat>, ms: seq<Found>,
      m: Found,
      bytes: seq<nat>)
    requires m.end <= m.start == src && Instead(x, m.caps, m.start, m.end, repl) == Ok(bytes)
    requires Rewritten(x, repl, ms, src + 1) == Ok(t) && if ms == [] then src < x.end else src < ms[0].start
    ensures Rewritten(x, repl, [m] + ms, src) == Ok(bytes + [At(x.h, src)] + t)
  {
    MatchFirst(x, repl, m, ms, bytes);
    Copied(x, repl, ms, src);
    assert bytes + ([At(x.h, src)] + t) == bytes + [At(x.h, src)] + t;
  }

  lemma {:induction false} ReplacesEmpty(x: Subject, p: int, repl: Replacement, max: int, src: int, n: int,
      t: Substituted, ms: seq<Found>, m: Found, bytes: seq<nat>)
    requires m == Leftmost(x, src, p, false) && m.end <= m.start == src < x.end && n < max
    requires Instead(x, m.caps, m.start, m.end, repl) == Ok(bytes)
    requires Replaces(x, p, repl, max, src + 1, n + 1, t, ms)
    ensures Replaces(x, p, repl, max, src, n, Substituted(bytes + [At(x.h, src)] + t.bytes, t.count), [m] + ms)
  {
    SuccessiveFirst(x, p, m, ms);
    if ms != [] { MatchesLater(x, p, ms, src + 1); }
    EmptyRewritten(x, repl, src, t.bytes, ms, m, bytes);
  }

  /** A match of nothing at the end of the subject is the last. */
  lemma {:induction false} ReplacesLast(x: Subject, p: int, repl: Replacement, max: int, n: int, m: Found,
      bytes: seq<nat>)
    requires m == Leftmost(x, x.end, p, false) && m.start == x.end && m.end <= x.end && n < max
    requires Instead(x, m.caps, m.start, m.end, repl) == Ok(bytes)
    ensures Replaces(x, p, repl, max, x.end, n, Substituted(bytes, n + 1), [m])
  {
    assert [m] + [] == [m];
    SuccessiveFirst(x, p, m, []);
    MatchFirst(x, repl, m, [], bytes);
    assert BytesAt(x.h, x.end, 0) == [] && bytes + [] == bytes;
  }

  lemma {:induction false} ReplacesNone(x: Subject, p: int, repl: Replacement, max: int, src: int, n: int)
    requires src <= x.end && (n < max ==> Leftmost(x, src, p, false).Nowhere?)
    ensures Replaces(x, p, repl, max, src, n, Substituted(Text(x.h, src, x.end - src), n), [])
  {
    TextIs(x.h, src, x.end - src);
  }

  /** The loop of `gsub` replaces the leftmost match, the leftmost one after it, and so on, until there is none or the
      limit is reached, and copies everything else. */
  lemma {:induction false} SubstituteReplaces(x: Subject, p: int, repl: Replacement, max: int, src: int, n: int)
      returns (ms: seq<Found>)
    requires src <= x.end && Substitute(x, p, repl, false, max, src, n).Ok?
    ensures Replaces(x, p, repl, max, src, n, Substitute(x, p, repl, false, max, src, n).value, ms)
    decreases x.end - src
  {
    var all := All(x, src, p, []);
    if n >= max || (all == [] && src == x.end) {
      ReplacesNone(x, p, repl, max, src, n);
      return [];
    }
    MatchNotBeyond(x, src, p, []);
    if all == [] {
      ms := SubstituteReplaces(x, p, repl, max, src + 1, n);
      ReplacesLater(x, p, repl, max, src, n, Substitute(x, p, repl, false, max, src + 1, n).value, ms);
      return ms;
    }
    var m: Found := MatchAt(src, all[0].end, all[0].caps);
    var bytes := Instead(x, m.caps, src, m.end, repl).value;
    if src < x.end {
      ms := SubstituteReplaces(x, p, repl, max, Onward(m), n + 1);
      var t := Substitute(x, p, repl, false, max, Onward(m), n + 1).value;
      if m.end > src {
        ReplacesFirst(x, p, repl, max, src, n, t, ms, m, bytes);
      } else {
        ReplacesEmpty(x, p, repl, max, src, n, t, ms, m, bytes);
      }
      ms := [m] + ms;
    } else {
      ReplacesLast(x, p, repl, max, n, m, bytes);
      ms := [m];
    }
  }

  /** `gsub` without an anchor rewrites the subject by its successive leftmost matches, as many as it counts. */
  lemma {:induction false} GsubReplaces(image: seq<nat>, s: seq<nat>, p: seq<nat>, repl: Replacement, max: int)
      returns (ms: seq<Found>)
    requires At(p, 0) != 94 && GsubResult(image, s, p, repl, max).Ok?
    ensures
      var x, q, t := Prepare(image, s, p), |image| + |s| + 1, GsubResult(image, s, p, repl, max).value;
      && Successive(x, q, ms, |image|) && t.count == |ms| && (ms == [] || t.count <= max)
      && Rewritten(x, repl, ms, |image|) == Ok(t.bytes)
      && (t.count < max ==> Leftmost(x, Reached(ms, |image|), q, false).Nowhere?)
  {
    PatternBegins(image, s, p);
    ms := SubstituteReplaces(Prepare(image, s, p), |image| + |s| + 1, repl, max, |image|, 0);
  }

  lemma {:induction false} TextFirst(h: seq<nat>, at: int, n: int)
    requires n > 0
    ensures [At(h, at)] + Text(h, at + 1, n - 1) == Text(h, at, n)
  {}

  lemma {:induction false} AnchoredNone(x: Subject, p: int, repl: Replacement, max: int)
    requires x.init <= x.end && max > 0 && All(x, x.init, p, []) == []
    ensures Substitute(x, p, repl, true, max, x.init, 0) == Ok(Substituted(Text(x.h, x.init, x.end - x.init), 0))
  {}

  lemma {:induction false} AnchoredOne(x: Subject, p: int, repl: Replacement, max: int, e: int, caps: seq<Capture>,
      bytes: seq<nat>)
    requires x.init <= e <= x.end && max > 0
    requires All(x, x.init, p, []) != [] && All(x, x.init, p, [])[0] == Done(e, caps)
    requires Instead(x, caps, x.init, e, repl) == Ok(bytes)
    ensures Substitute(x, p, repl, true, max, x.init, 0) == Ok(Substituted(bytes + Text(x.h, e, x.end - e), 1))
  {
    if e == x.init {
      if x.init < x.end {
        TextFirst(x.h, x.init, x.end - x.init);
        var t := Text(x.h, x.init + 1, x.end - x.init - 1);
        assert bytes + [At(x.h, x.init)] + t == bytes + ([At(x.h, x.init)] + t);
      } else {
        assert bytes + [] == bytes;
      }
    }
  }

  lemma {:induction false} RestOfSubject(image: seq<nat>, s: seq<nat>, p: seq<nat>, a: nat)
    requires a <= |s|
    ensures Text(Prepare(image, s, p).h, |image| + a, |s| - a) == s[a..]
  {
    SubjectBytes(image, s, p, a, |s|);
    TextIs(Prepare(image, s, p).h, |image| + a, |s| - a);
    assert s[a..|s|] == s[a..];
  }

  /** With an anchor it replaces at most one match, at the subject's start. */
  lemma {:induction false} GsubAnchored(image: seq<nat>, s: seq<nat>, p: seq<nat>, repl: Replacement, max: int,
      e: nat, caps: seq<Capture>, x: Subject, q: int)
    requires x == Prepare(image, s, p) && q == |image| + |s| + 2 && At(p, 0) == 94 && max > 0 && e <= |s|
    ensures
      var all, r := All(x, x.init, q, []), GsubResult(image, s, p, repl, max);
      && (all == [] ==> r == Ok(Substituted(s, 0)))
      && (all != [] && all[0] == Done(x.init + e, caps) ==>
          match Instead(x, caps, x.init, x.init + e, repl)
          case Error(error) => r == Error(error)
          case Ok(bytes) => r == Ok(Substituted(bytes + s[e..], 1)))
  {
    Anchored(image, s, p, repl, max, x, q);
    var all := All(x, x.init, q, []);
    if all == [] {
      AnchoredNone(x, q, repl, max);
      RestOfSubject(image, s, p, 0);
      assert s[0..] == s;
    } else if all[0] == Done(x.init + e, caps) {
      var r := Instead(x, caps, x.init, x.init + e, repl);
      if r.Ok? {
        AnchoredOne(x, q, repl, max, x.init + e, caps, r.value);
        RestOfSubject(image, s, p, e);
      }
    }
  }

  lemma {:induction false} Anchored(image: seq<nat>, s: seq<nat>, p: seq<nat>, repl: Replacement, max: int, x: Subject,
      q: int)
    requires At(p, 0) == 94 && x == Prepare(image, s, p) && q == |image| + |s| + 2
    ensures GsubResult(image, s, p, repl, max) == Substitute(x, q, repl, true, max, x.init, 0)
  {
    PatternBegins(image, s, p);
  }
}
