/** pack.js: the drivers of the matcher -- find and match, gmatch, gsub. */
module StringLib {
  import opened Exact
  import opened DecimalText
  import opened Patterns
  import opened PatternBounds
  import opened LStrMatch

  /** `prepare`: the matcher's tables, the subject and the pattern, each of the two with a NUL after it. */
  function Prepare(image: seq<nat>, s: seq<nat>, p: seq<nat>): Subject {
    Subject(image + s + [0] + p + [0], |image|, |image| + |s|)
  }

  function PatternStart(image: seq<nat>, s: seq<nat>): nat { |image| + |s| + 1 }

  /** `hstr`: `n` bytes of the heap from `at`; none for a negative count. */
  function Text(h: seq<nat>, at: int, n: int): (t: seq<nat>)
    ensures |t| == Max(0, n)
    decreases n
  {
    if n <= 0 then [] else [At(h, at)] + Text(h, at + 1, n - 1)
  }

  lemma {:induction false} TextOf(h: seq<nat>, at: int, n: int)
    requires 0 <= at && 0 <= n && at + n <= |h|
    decreases n
    ensures Text(h, at, n) == h[at..at + n]
  {
    if n > 0 { TextOf(h, at + 1, n - 1); }
  }

  lemma {:induction false} TextSplit(h: seq<nat>, at: int, m: int, n: int)
    requires 0 <= m && 0 <= n
    ensures Text(h, at, m + n) == Text(h, at, m) + Text(h, at + m, n)
    decreases m
  {
    if m > 0 { TextSplit(h, at + 1, m - 1, n); }
  }

  // ----- captures as values -----

  datatype Value = Int(n: int) | Str(bytes: seq<nat>)

  datatype Reply<T> = Ok(value: T) | Error(error: Error)

  /** `push_onecapture`: capture `i`; the whole match stands for the first when there is none. */
  function OneCapture(x: Subject, caps: seq<Capture>, i: nat, s: int, e: int): Reply<Value> {
    if i >= |caps| then if i == 0 then Ok(Str(Text(x.h, s, e - s))) else Error(InvalidCaptureIndex)
    else if caps[i].len == OPENED then Error(UnfinishedCapture)
    else if caps[i].len == POSITION then Ok(Int(caps[i].init - x.init + 1))
    else Ok(Str(Text(x.h, caps[i].init, caps[i].len)))
  }

  /** The captures from `i` to `n`, or the error of the first that has none. */
  function Captures(x: Subject, caps: seq<Capture>, i: nat, n: nat, s: int, e: int): Reply<seq<Value>>
    decreases n - i
  {
    if i >= n then Ok([])
    else match OneCapture(x, caps, i, s, e)
      case Error(error) => Error(error)
      case Ok(v) => Onto([v], Captures(x, caps, i + 1, n, s, e))
  }

  function Onto(vs: seq<Value>, r: Reply<seq<Value>>): Reply<seq<Value>> {
    match r
    case Error(error) => Error(error)
    case Ok(more) => Ok(vs + more)
  }

  lemma OntoTwice(vs: seq<Value>, v: Value, r: Reply<seq<Value>>)
    ensures Onto(vs, Onto([v], r)) == Onto(vs + [v], r) && Onto([], r) == r
  {
    match r
    case Error(_) =>
    case Ok(more) =>
      assert vs + ([v] + more) == vs + [v] + more;
      assert [] + more == more;
  }

  /** `push_captures`: all captures, or the whole match when `whole` and there are none. */
  function AllCaptures(x: Subject, caps: seq<Capture>, whole: bool, s: int, e: int): Reply<seq<Value>> {
    Captures(x, caps, 0, if |caps| == 0 && whole then 1 else |caps|, s, e)
  }

  method PushCaptures(ms: MatchState, whole: bool, s: int, e: int) returns (r: Reply<seq<Value>>)
    requires ms.Valid()
    ensures r == AllCaptures(ms.x, ms.Caps(), whole, s, e)
  {
    var n := if ms.level == 0 && whole then 1 else ms.level;
    var i := 0;
    var vs: seq<Value> := [];
    ghost var caps := ms.Caps();
    OntoTwice([], Int(0), Captures(ms.x, caps, 0, n, s, e));
    while i < n
      invariant 0 <= i <= n && AllCaptures(ms.x, caps, whole, s, e) == Onto(vs, Captures(ms.x, caps, i, n, s, e))
    {
      var one := PushOneCapture(ms, i, s, e);
      if one.Error? { return Error(one.error); }
      OntoTwice(vs, one.value, Captures(ms.x, caps, i + 1, n, s, e));
      vs := vs + [one.value];
      i := i + 1;
    }
    assert vs + [] == vs;
    r := Ok(vs);
  }

  method PushOneCapture(ms: MatchState, i: nat, s: int, e: int) returns (r: Reply<Value>)
    requires ms.Valid()
    ensures r == OneCapture(ms.x, ms.Caps(), i, s, e)
  {
    if i >= ms.level {
      if i == 0 { return Ok(Str(Text(ms.x.h, s, e - s))); }
      return Error(InvalidCaptureIndex);
    }
    var l := ms.capture[i].len;
    if l == OPENED { return Error(UnfinishedCapture); }
    if l == POSITION { return Ok(Int(ms.capture[i].init - ms.x.init + 1)); }
    r := Ok(Str(Text(ms.x.h, ms.capture[i].init, l)));
  }

  // ----- searching -----

  datatype Search = Nowhere | MatchAt(start: int, end: int, caps: seq<Capture>) | Broken(error: Error)

  /** The first start from `s` on at which the pattern matches or fails; only `s` itself when anchored. */
  function Leftmost(x: Subject, s: int, p: int, anchor: bool): Search
    decreases x.end - s
  {
    if s > x.end then Nowhere
    else
      var all := All(x, s, p, []);
      if all == [] then if anchor then Nowhere else Leftmost(x, s + 1, p, anchor)
      else match all[0] case Done(e, caps) => MatchAt(s, e, caps) case Failed(error) => Broken(error)
  }

  /** No start before the one found has any result, and the one found gives its preferred result. */
  lemma {:induction false} LeftmostIsFirst(x: Subject, s: int, p: int, anchor: bool)
    ensures var r := Leftmost(x, s, p, anchor);
            && (r.Nowhere? && !anchor ==> forall t | s <= t <= x.end :: All(x, t, p, []) == [])
            && (r.MatchAt? ==>
                s <= r.start <= x.end && All(x, r.start, p, []) != []
                && All(x, r.start, p, [])[0] == Done(r.end, r.caps)
                && (forall t | s <= t < r.start :: All(x, t, p, []) == []) && (anchor ==> r.start == s))
    decreases x.end - s
  {
    if s <= x.end && All(x, s, p, []) == [] && !anchor { LeftmostIsFirst(x, s + 1, p, anchor); }
  }

  /** The loop of `find_aux`. */
  method SearchFrom(ms: MatchState, s0: int, p: int, anchor: bool) returns (r: Search)
    requires ms.Valid() && s0 <= ms.x.end
    modifies ms
    ensures ms.Valid() && (r == Broken(TooComplex) || r == Leftmost(ms.x, s0, p, anchor))
    ensures r.MatchAt? ==> ms.Caps() == r.caps
    ensures r == Broken(TooComplex) ==> Left(ms.x.h, p) >= MAX_DEPTH
  {
    var s := s0;
    while true
      invariant ms.Valid() && s <= ms.x.end && Leftmost(ms.x, s, p, anchor) == Leftmost(ms.x, s0, p, anchor)
      decreases ms.x.end - s
    {
      ms.level, ms.depth := 0, 0;
      assert ms.Caps() == [];
      var q := ms.Match(s, p);
      match q {
        case Found(e) => return MatchAt(s, e, ms.capture[..ms.level]);
        case Raised(error) => return Broken(error);
        case NotFound =>
      }
      if !(s < ms.x.end && !anchor) { return Nowhere; }
      s := s + 1;
    }
  }

  /** Any of the magic characters `^$*+?.([%-`. */
  predicate HasPattern(p: seq<nat>) {
    exists k :: 0 <= k < |p| && p[k] in {94, 36, 42, 43, 63, 46, 40, 91, 37, 45}
  }

  /** Where the search starts: `init` counts from one, or back from the end. */
  function Start(n: nat, init: int): nat {
    Min(n, Max(0, if init < 0 then init + n else init - 1))
  }

  /** What `find` and `match` answer for the outcome of a search: the positions, if asked for, and the captures. */
  function Report(x: Subject, find: bool, m: Search): Reply<seq<Value>> {
    match m
    case Nowhere => Ok([])
    case Broken(error) => Error(error)
    case MatchAt(a, e, caps) =>
      match AllCaptures(x, caps, !find, a, e)
      case Error(error) => Error(error)
      case Ok(vs) => Ok((if find then [Int(a - x.init + 1), Int(e - x.init)] else []) + vs)
  }

  method ReportMatch(ms: MatchState, find: bool, m: Search) returns (r: Reply<seq<Value>>)
    requires ms.Valid() && (m.MatchAt? ==> ms.Caps() == m.caps)
    ensures r == Report(ms.x, find, m)
  {
    match m
    case Broken(error) => r := Error(error);
    case Nowhere => r := Ok([]);
    case MatchAt(a, e, caps) =>
      r := PushCaptures(ms, !find, a, e);
      if r.Ok? { assert [] + r.value == r.value; }
      if find && r.Ok? { r := Ok([Int(a - ms.x.init + 1), Int(e - ms.x.init)] + r.value); }
  }

  /** The answer of the matcher. */
  function PatternResult(image: seq<nat>, find: bool, s: seq<nat>, p: seq<nat>, init: int): Reply<seq<Value>> {
    var x := Prepare(image, s, p);
    var pstr := PatternStart(image, s);
    var anchor := At(x.h, pstr) == 94;
    Report(x, find, Leftmost(x, x.init + Start(|s|, init), if anchor then pstr + 1 else pstr, anchor))
  }

  predicate OccursAt(s: seq<nat>, p: seq<nat>, t: nat) {
    t + |p| <= |s| && s[t..t + |p|] == p
  }

  /** `s.indexOf(p, from)` */
  function IndexOf(s: seq<nat>, p: seq<nat>, from: nat): (q: int)
    ensures q >= 0 ==> from <= q && OccursAt(s, p, q)
    ensures forall t: nat | from <= t && (q < 0 || t < q) :: !OccursAt(s, p, t)
    decreases |s| - from
  {
    if from + |p| > |s| then -1 else if OccursAt(s, p, from) then from else IndexOf(s, p, from + 1)
  }

  /** The answer of the search for a fixed string. */
  function FixedResult(s: seq<nat>, p: seq<nat>, from: nat): Reply<seq<Value>> {
    var q := IndexOf(s, p, from);
    if q < 0 then Ok([]) else Ok([Int(q + 1), Int(q + |p|)])
  }

  /** What `find` and `match` answer. */
  function FindResult(image: seq<nat>, find: bool, s: seq<nat>, p: seq<nat>, init: int,
      plain: bool): Reply<seq<Value>> {
    if find && (plain || !HasPattern(p)) then FixedResult(s, p, Start(|s|, init))
    else PatternResult(image, find, s, p, init)
  }

  /** `find_aux` */
  method FindAux(image: seq<nat>, find: bool, s: seq<nat>, p: seq<nat>, init: int, plain: bool)
      returns (r: Reply<seq<Value>>)
    ensures |p| + 1 < MAX_DEPTH ==> r == FindResult(image, find, s, p, init, plain)
    ensures r == Error(TooComplex) || r == FindResult(image, find, s, p, init, plain)
  {
    var st := if init < 0 then init + |s| else init - 1;
    if st < 0 { st := 0; }
    if st > |s| { st := |s|; }
    assert st == Start(|s|, init);
    if find && (plain || !HasPattern(p)) {
      var q := IndexOf(s, p, st);
      return if q < 0 then Ok([]) else Ok([Int(q + 1), Int(q + |p|)]);
    }
    r := FindPattern(image, find, s, p, init, st);
  }

  method FindPattern(image: seq<nat>, find: bool, s: seq<nat>, p: seq<nat>, ghost init: int, st: nat)
      returns (r: Reply<seq<Value>>)
    requires st == Start(|s|, init)
    ensures |p| + 1 < MAX_DEPTH ==> r == PatternResult(image, find, s, p, init)
    ensures r == Error(TooComplex) || r == PatternResult(image, find, s, p, init)
  {
    var x := Prepare(image, s, p);
    var pstr := PatternStart(image, s);
    var anchor := false;
    if At(x.h, pstr) == 94 { pstr, anchor := pstr + 1, true; }
    var ms := new MatchState(x);
    var m := SearchFrom(ms, x.init + st, pstr, anchor);
    r := ReportMatch(ms, find, m);
  }

  /** `find` and `match` report a match inside the subject, from where they were told to look. */
  lemma {:induction false} FoundInside(image: seq<nat>, s: seq<nat>, p: seq<nat>, from: int, pstr: int, anchor: bool)
    requires var x := Prepare(image, s, p); x.init <= from && NoPositionReference(x.h, pstr, [])
    ensures var x := Prepare(image, s, p); var r := Leftmost(x, from, pstr, anchor);
            r.MatchAt? ==> from <= r.start <= r.end <= x.end && CapturesWithin(x, r.end, r.caps)
  {
    var x := Prepare(image, s, p);
    LeftmostIsFirst(x, from, pstr, anchor);
    var r := Leftmost(x, from, pstr, anchor);
    if r.MatchAt? {
      assert Positions([]) == [];
      MatchWithin(x, r.start, pstr, []);
      assert OutcomeWithin(x, r.start, All(x, r.start, pstr, [])[0]);
    }
  }

  // ----- gmatch -----

  /** Where the next search begins: after the match, and past it by one when it is empty. */
  function NextPosition(x: Subject, a: int, e: int): int {
    if e == a then e - x.init + 1 else e - x.init
  }

  class Gmatch {
    const x: Subject
    const p: int
    const ms: MatchState
    var pos: int

    constructor (image: seq<nat>, s: seq<nat>, p: seq<nat>)
      ensures x == Prepare(image, s, p) && this.p == PatternStart(image, s) && pos == 0 && ms.Valid() && ms.x == x
      ensures fresh(ms)
    {
      var subject := Prepare(image, s, p);
      x, this.p, pos := subject, PatternStart(image, s), 0;
      ms := new MatchState(subject);
    }

    /** The iterator: the captures of the next match, none when there is no more. */
    method Next() returns (r: Reply<seq<Value>>)
      requires ms.Valid() && ms.x == x && x.init >= 0
      modifies this, ms
      ensures ms.Valid()
      ensures r == Error(TooComplex) || (
                match Leftmost(x, x.init + old(pos), p, false)
                case Nowhere => r == Ok([]) && pos == old(pos)
                case Broken(error) => r == Error(error)
                case MatchAt(a, e, caps) => r == AllCaptures(x, caps, true, a, e) && pos == NextPosition(x, a, e))
    {
      if x.init + pos > x.end { return Ok([]); }
      var m := SearchFrom(ms, x.init + pos, p, false);
      match m
      case Broken(error) => r := Error(error);
      case Nowhere => r := Ok([]);
      case MatchAt(a, e, caps) =>
        pos := NextPosition(x, a, e);
        r := PushCaptures(ms, true, a, e);
    }
  }

  /** Each match begins where the one before ended or later, and moves the position on: at most one more match than
      the subject has bytes. */
  lemma {:induction false} GmatchProgress(image: seq<nat>, s: seq<nat>, p: seq<nat>, pos: nat)
    requires var x := Prepare(image, s, p); NoPositionReference(x.h, PatternStart(image, s), [])
    ensures var x := Prepare(image, s, p); var r := Leftmost(x, x.init + pos, PatternStart(image, s), false);
            r.MatchAt? ==>
                x.init + pos <= r.start <= r.end && pos < NextPosition(x, r.start, r.end) <= |s| + 1
                && r.end - x.init <= NextPosition(x, r.start, r.end)
  {
    FoundInside(image, s, p, |image| + pos, PatternStart(image, s), false);
  }

  // ----- gsub -----

  function ValueBytes(v: Value): seq<nat> {
    match v
    case Int(n) => (if n < 0 then [MINUS] else []) + Numerals(Abs(n))
    case Str(bytes) => bytes
  }

  function OntoBytes(b: seq<nat>, r: Reply<seq<nat>>): Reply<seq<nat>> {
    match r
    case Error(error) => Error(error)
    case Ok(more) => Ok(b + more)
  }

  /** What a replacement string stands for, from its byte `i` on: `%0` is the match, `%1` to `%9` captures, `%` before
      anything else that character. */
  function Expand(x: Subject, caps: seq<Capture>, s: int, e: int, news: seq<nat>, i: nat): Reply<seq<nat>>
    decreases |news| - i
  {
    if i >= |news| then Ok([])
    else if news[i] != 37 then OntoBytes([news[i]], Expand(x, caps, s, e, news, i + 1))
    else
      var d := if i + 1 < |news| then news[i + 1] else 0;
      if !IsDigit(d) then OntoBytes([d], Expand(x, caps, s, e, news, i + 2))
      else if d == 48 then OntoBytes(Text(x.h, s, e - s), Expand(x, caps, s, e, news, i + 2))
      else match OneCapture(x, caps, d - 49, s, e)
        case Error(error) => Error(error)
        case Ok(v) => OntoBytes(ValueBytes(v), Expand(x, caps, s, e, news, i + 2))
  }

  lemma OntoBytesTwice(b: seq<nat>, c: seq<nat>, r: Reply<seq<nat>>)
    ensures OntoBytes(b, OntoBytes(c, r)) == OntoBytes(b + c, r) && OntoBytes([], r) == r
  {
    match r
    case Error(_) =>
    case Ok(more) =>
      assert b + (c + more) == b + c + more;
      assert [] + more == more;
  }

  /** `add_s` */
  method AddString(ms: MatchState, b0: seq<nat>, s: int, e: int, news: seq<nat>) returns (r: Reply<seq<nat>>)
    requires ms.Valid()
    ensures r == OntoBytes(b0, Expand(ms.x, ms.Caps(), s, e, news, 0))
  {
    var i: nat, b: seq<nat> := 0, b0;
    while i < |news|
      invariant OntoBytes(b, Expand(ms.x, ms.Caps(), s, e, news, i))
          == OntoBytes(b0, Expand(ms.x, ms.Caps(), s, e, news, 0))
    {
      var piece: seq<nat>;
      if news[i] != 37 {
        piece := [news[i]];
        OntoBytesTwice(b, piece, Expand(ms.x, ms.Caps(), s, e, news, i + 1));
      } else {
        i := i + 1;
        OntoBytesTwice(b, [], Ok([]));
        var d: int := if i < |news| then news[i] else 0;
        if !IsDigit(d) {
          piece := [d];
        } else if d == 48 {
          piece := Text(ms.x.h, s, e - s);
        } else {
          var v := PushOneCapture(ms, d - 49, s, e);
          if v.Error? { return Error(v.error); }
          piece := ValueBytes(v.value);
        }
        OntoBytesTwice(b, piece, Expand(ms.x, ms.Caps(), s, e, news, i + 1));
      }
      b := b + piece;
      i := i + 1;
    }
    assert b + [] == b;
    r := Ok(b);
  }

  /** What a lookup or a call gives for a match: nil or false, a string or number, or something else. */
  datatype Answer = Keep | Bytes(bytes: seq<nat>) | Other

  /** The third argument of `gsub`: a string, a table or a function. */
  datatype Replacement = Template(news: seq<nat>) | Lookup(at: Value -> Answer) | Callback(call: seq<Value> -> Answer)

  function Replaced(x: Subject, s: int, e: int, a: Answer): Reply<seq<nat>> {
    match a
    case Keep => Ok(Text(x.h, s, e - s))
    case Bytes(bytes) => Ok(bytes)
    case Other => Error(InvalidReplacement)
  }

  /** What a match is replaced by. */
  function Instead(x: Subject, caps: seq<Capture>, s: int, e: int, repl: Replacement): Reply<seq<nat>> {
    match repl
    case Template(news) => Expand(x, caps, s, e, news, 0)
    case Lookup(at) =>
      (match OneCapture(x, caps, 0, s, e)
       case Error(error) => Error(error)
       case Ok(v) => Replaced(x, s, e, at(v)))
    case Callback(call) =>
      match AllCaptures(x, caps, true, s, e)
      case Error(error) => Error(error)
      case Ok(vs) => Replaced(x, s, e, call(vs))
  }

  /** `add_value` */
  method AddValue(ms: MatchState, s: int, e: int, repl: Replacement) returns (r: Reply<seq<nat>>)
    requires ms.Valid()
    ensures r == Instead(ms.x, ms.Caps(), s, e, repl)
  {
    match repl
    case Template(news) =>
      r := AddString(ms, [], s, e, news);
      OntoBytesTwice([], [], Expand(ms.x, ms.Caps(), s, e, news, 0));
    case Lookup(at) =>
      var v := PushOneCapture(ms, 0, s, e);
      r := if v.Error? then Error(v.error) else Replaced(ms.x, s, e, at(v.value));
    case Callback(call) =>
      var vs := PushCaptures(ms, true, s, e);
      r := if vs.Error? then Error(vs.error) else Replaced(ms.x, s, e, call(vs.value));
  }

  datatype Substituted = Substituted(bytes: seq<nat>, count: int)

  function OntoResult(b: seq<nat>, r: Reply<Substituted>): Reply<Substituted> {
    match r
    case Error(error) => Error(error)
    case Ok(t) => Ok(Substituted(b + t.bytes, t.count))
  }

  /** `gsub` from `src` on, with `n` matches so far: each match is replaced, and the search goes on after it; a byte
      that begins no match, or an empty one, is copied. */
  function Substitute(x: Subject, p: int, repl: Replacement, anchor: bool, max: int, src: int,
      n: int): Reply<Substituted>
    decreases x.end - src, 0
  {
    if n >= max || src > x.end then Ok(Substituted(Text(x.h, src, x.end - src), n))
    else
      var all := All(x, src, p, []);
      if all == [] then
        if src < x.end then OntoResult([At(x.h, src)], Rest(x, p, repl, anchor, max, src + 1, n))
        else Ok(Substituted([], n))
      else match all[0]
        case Failed(error) => Error(error)
        case Done(e, caps) =>
          MatchNotBeyond(x, src, p, []);
          match Instead(x, caps, src, e, repl)
          case Error(error) => Error(error)
          case Ok(bytes) =>
            if e > src then OntoResult(bytes, Rest(x, p, repl, anchor, max, e, n + 1))
            else if src < x.end then OntoResult(bytes + [At(x.h, src)], Rest(x, p, repl, anchor, max, src + 1, n + 1))
            else Ok(Substituted(bytes, n + 1))
  }

  /** After one round: an anchored pattern is tried once. */
  function Rest(x: Subject, p: int, repl: Replacement, anchor: bool, max: int, src: int, n: int): Reply<Substituted>
    requires src <= x.end
    decreases x.end - src, 1
  {
    if anchor then Ok(Substituted(Text(x.h, src, x.end - src), n)) else Substitute(x, p, repl, anchor, max, src, n)
  }

  lemma OntoResultTwice(b: seq<nat>, c: seq<nat>, r: Reply<Substituted>)
    ensures OntoResult(b, OntoResult(c, r)) == OntoResult(b + c, r) && OntoResult([], r) == r
  {
    match r
    case Error(_) =>
    case Ok(t) =>
      assert b + (c + t.bytes) == b + c + t.bytes;
      assert [] + t.bytes == t.bytes;
  }

  /** One round of the loop of `gsub`: the bytes it writes, where it goes on, and whether it stops. */
  method Round(ms: MatchState, p: int, repl: Replacement, src: int, n: int)
      returns (r: Reply<seq<nat>>, next: int, count: int, stop: bool)
    requires ms.Valid() && src <= ms.x.end
    modifies ms
    ensures ms.Valid() && src <= next <= ms.x.end && (!stop ==> next > src)
    ensures r == Error(TooComplex) || forall anchor: bool, max: int | n < max ::
              Substitute(ms.x, p, repl, anchor, max, src, n) ==
              if r.Error? then Error(r.error)
              else OntoResult(r.value,
                  if stop then Ok(Substituted([], count)) else Rest(ms.x, p, repl, anchor, max, next, count))
    ensures r.Ok? && stop ==> next == ms.x.end
  {
    next, count, stop := src, n, false;
    ms.level, ms.depth := 0, 0;
    assert ms.Caps() == [];
    MatchNotBeyond(ms.x, src, p, []);
    var q := ms.Match(src, p);
    r := Ok([]);
    match q {
      case Raised(error) => return Error(error), src, n, true;
      case Found(e) =>
        count := n + 1;
        r := AddValue(ms, src, e, repl);
        if r.Error? { return r, src, n, true; }
        if e > src { return r, e, count, false; }
      case NotFound =>
    }
    assert [] + [At(ms.x.h, src)] == [At(ms.x.h, src)];
    if src < ms.x.end {
      r, next := Ok(r.value + [At(ms.x.h, src)]), src + 1;
    } else {
      stop := true;
      assert r.value + [] == r.value;
    }
  }

  /** `gsub` with a limit on the matches. */
  method Gsub(image: seq<nat>, s: seq<nat>, p: seq<nat>, repl: Replacement, max: int) returns (r: Reply<Substituted>)
    ensures r == Error(TooComplex) || r == GsubResult(image, s, p, repl, max)
  {
    var x := Prepare(image, s, p);
    var pp, anchor := PatternStart(image, s), false;
    if At(x.h, pp) == 94 { pp, anchor := pp + 1, true; }
    var ms := new MatchState(x);
    var src: int, n: int, b: seq<nat> := x.init, 0, [];
    OntoResultTwice([], [], Substitute(x, pp, repl, anchor, max, src, n));
    while n < max
      invariant ms.Valid() && ms.x == x && src <= x.end
      invariant OntoResult(b, Substitute(x, pp, repl, anchor, max, src, n)) == GsubResult(image, s, p, repl, max)
      decreases x.end - src
    {
      ghost var n0, src0 := n, src;
      var piece, next, count, stop;
      piece, next, count, stop := Round(ms, pp, repl, src, n);
      if piece.Error? { return Error(piece.error); }
      if stop {
        OntoResultTwice(b, piece.value, Ok(Substituted([], count)));
        assert b + piece.value + [] == b + piece.value + Text(x.h, x.end, 0);
        return Ok(Substituted(b + piece.value + Text(x.h, next, x.end - next), count));
      }
      OntoResultTwice(b, piece.value, Rest(x, pp, repl, anchor, max, next, count));
      b, src, n := b + piece.value, next, count;
      if anchor {
        return Ok(Substituted(b + Text(x.h, src, x.end - src), n));
      }
    }
    r := Ok(Substituted(b + Text(x.h, src, x.end - src), n));
  }

  function GsubResult(image: seq<nat>, s: seq<nat>, p: seq<nat>, repl: Replacement, max: int): Reply<Substituted> {
    var x := Prepare(image, s, p);
    var pstr := PatternStart(image, s);
    var anchor := At(x.h, pstr) == 94;
    Substitute(x, if anchor then pstr + 1 else pstr, repl, anchor, max, x.init, 0)
  }

  // ----- replacing matches by themselves -----

  const WHOLE: seq<nat> := [37, 48]

  /** A replacement that leaves every match as it is: `%0`, or a table or function that gives nil for everything. */
  ghost predicate Keeps(repl: Replacement) {
    match repl
    case Template(news) => news == WHOLE
    case Lookup(at) => forall v :: at(v) == Keep
    case Callback(call) => forall vs :: call(vs) == Keep
  }

  lemma {:induction false} InsteadWhole(x: Subject, caps: seq<Capture>, s: int, e: int, repl: Replacement)
    requires Keeps(repl)
    ensures var r := Instead(x, caps, s, e, repl); r.Ok? ==> r.value == Text(x.h, s, e - s)
  {
    if repl.Template? {
      assert Expand(x, caps, s, e, WHOLE, 2) == Ok([]);
      assert Text(x.h, s, e - s) + [] == Text(x.h, s, e - s);
    }
  }

  lemma {:induction false} RestIdentity(x: Subject, p: int, repl: Replacement, anchor: bool, max: int, src: int, n: int,
      next: int)
    requires src < next <= x.end && Keeps(repl)
    ensures var r := Rest(x, p, repl, anchor, max, next, n);
            r.Ok? ==> Text(x.h, src, next - src) + r.value.bytes == Text(x.h, src, x.end - src)
    decreases x.end - src, 0
  {
    TextSplit(x.h, src, next - src, x.end - next);
    SubstituteIdentity(x, p, repl, anchor, max, next, n);
  }

  lemma {:induction false} SubstituteIdentity(x: Subject, p: int, repl: Replacement, anchor: bool, max: int, src: int,
      n: int)
    requires src <= x.end && Keeps(repl)
    ensures var r := Substitute(x, p, repl, anchor, max, src, n);
        r.Ok? ==> r.value.bytes == Text(x.h, src, x.end - src)
    decreases x.end - src, 1
  {
    if n < max {
      MatchNotBeyond(x, src, p, []);
      var all := All(x, src, p, []);
      var n1 := if all == [] then n else n + 1;
      var e := if all != [] && all[0].Done? then all[0].end else src;
      if all != [] && all[0].Done? { InsteadWhole(x, all[0].caps, src, e, repl); }
      assert src < x.end ==> Text(x.h, src, 1) == [At(x.h, src)];
      if e > src {
        RestIdentity(x, p, repl, anchor, max, src, n1, e);
      } else if src < x.end {
        RestIdentity(x, p, repl, anchor, max, src, n1, src + 1);
      }
    }
  }

  /** Replacing every match by itself gives the subject back, for every pattern that raises no error. */
  lemma {:induction false} GsubIdentity(image: seq<nat>, s: seq<nat>, p: seq<nat>, repl: Replacement, max: int)
    requires Keeps(repl)
    ensures var r := GsubResult(image, s, p, repl, max); r.Ok? ==> r.value.bytes == s
  {
    var x := Prepare(image, s, p);
    var pstr := PatternStart(image, s);
    var anchor := At(x.h, pstr) == 94;
    SubstituteIdentity(x, if anchor then pstr + 1 else pstr, repl, anchor, max, x.init, 0);
    TextOf(x.h, x.init, |s|);
    assert x.h[x.init..x.init + |s|] == s;
  }

  // ----- the fixed-string shortcut -----

  /** The pattern at `p` is `n` bytes none of which is magic, nor a closing parenthesis, and ends there. */
  predicate Literal(h: seq<nat>, p: int, n: nat) {
    At(h, p + n) == 0 && forall k | p <= k < p + n :: At(h, k) != 0 && At(h, k) != 41 && !HasPattern([At(h, k)])
  }

  /** What a literal of `n` bytes gives. */
  function LiteralResult(x: Subject, s: int, p: int, n: nat, caps: seq<Capture>): seq<Outcome> {
    if s + n <= x.end && Same(x.h, p, s, n) then [Done(s + n, caps)] else []
  }

  lemma LiteralResultStep(x: Subject, s: int, p: int, n: nat, caps: seq<Capture>)
    requires n > 0
    ensures LiteralResult(x, s, p, n, caps)
         == if s < x.end && At(x.h, s) == At(x.h, p) then LiteralResult(x, s + 1, p + 1, n - 1, caps) else []
  {
    if At(x.h, s) == At(x.h, p) { SameStep(x.h, p, s, n); } else { NotSame(x.h, p, s, n); }
  }

  /** A pattern without magic characters matches itself and nothing else. */
  lemma {:induction false} LiteralMatch(x: Subject, s: int, p: int, n: nat, caps: seq<Capture>)
    requires s <= x.end && Literal(x.h, p, n)
    ensures All(x, s, p, caps) == LiteralResult(x, s, p, n, caps)
    decreases n
  {
    if n == 0 {
      assert ItemAt(x.h, p) == Stop;
    } else {
      LiteralStep(x, s, p, n, caps);
      LiteralResultStep(x, s, p, n, caps);
      LiteralRest(x.h, p, n);
      if s < x.end && At(x.h, s) == At(x.h, p) { LiteralMatch(x, s + 1, p + 1, n - 1, caps); }
    }
  }

  /** A pattern of bytes none of which is magic, a NUL or a closing parenthesis stands in the heap as a literal. */
  lemma {:induction false} PreparedLiteral(image: seq<nat>, s: seq<nat>, p: seq<nat>)
    requires !HasPattern(p) && 0 !in p && 41 !in p
    ensures Literal(Prepare(image, s, p).h, PatternStart(image, s), |p|)
  {
    var h, a := Prepare(image, s, p).h, PatternStart(image, s);
    forall k | a <= k < a + |p| ensures At(h, k) != 0 && At(h, k) != 41 && !HasPattern([At(h, k)]) {
      assert At(h, k) == p[k - a];
    }
  }

  lemma {:induction false} SameBytes(image: seq<nat>, s: seq<nat>, p: seq<nat>, from: nat)
    requires from + |p| <= |s|
    ensures Same(Prepare(image, s, p).h, PatternStart(image, s), |image| + from, |p|) <==> OccursAt(s, p, from)
  {
    var h, a, b := Prepare(image, s, p).h, PatternStart(image, s), |image| + from;
    forall k | 0 <= k < |p| ensures At(h, a + k) == p[k] && At(h, b + k) == s[from + k] {}
    if Same(h, a, b, |p|) {
      forall k | 0 <= k < |p| ensures s[from + k] == p[k] { assert At(h, a + k) == At(h, a + k - a + b); }
    }
    if OccursAt(s, p, from) {
      forall k | a <= k < a + |p| ensures At(h, k) == At(h, k - a + b) {
        assert s[from..from + |p|][k - a] == p[k - a];
        assert At(h, a + (k - a)) == p[k - a] && At(h, b + (k - a)) == s[from + (k - a)];
      }
    }
  }

  lemma {:induction false} SearchIsIndexOf(image: seq<nat>, s: seq<nat>, p: seq<nat>, from: nat)
    requires !HasPattern(p) && 0 !in p && 41 !in p && from <= |s|
    ensures
      var q := IndexOf(s, p, from);
      Leftmost(Prepare(image, s, p), |image| + from, PatternStart(image, s), false)
      == if q < 0 then Nowhere else MatchAt(|image| + q, |image| + q + |p|, [])
    decreases |s| - from
  {
    var x, a := Prepare(image, s, p), PatternStart(image, s);
    PreparedLiteral(image, s, p);
    LiteralMatch(x, |image| + from, a, |p|, []);
    if from + |p| <= |s| { SameBytes(image, s, p, from); }
    if from < |s| {
      SearchIsIndexOf(image, s, p, from + 1);
    }
  }

  /** So the shortcut of `find` gives what the matcher would. */
  lemma {:induction false} ShortcutIsMatch(image: seq<nat>, s: seq<nat>, p: seq<nat>, init: int)
    requires !HasPattern(p) && 0 !in p && 41 !in p
    ensures PatternResult(image, true, s, p, init) == FixedResult(s, p, Start(|s|, init))
  {
    var x, a := Prepare(image, s, p), PatternStart(image, s);
    assert At(x.h, a) == if p == [] then 0 else p[0];
    SearchIsIndexOf(image, s, p, Start(|s|, init));
    assert At(x.h, a) != 94;
    var q := IndexOf(s, p, Start(|s|, init));
    if q >= 0 {
      var b, e := x.init + q, x.init + q + |p|;
      assert AllCaptures(x, [], false, b, e) == Ok([]);
      assert [Int(b - x.init + 1), Int(e - x.init)] + [] == [Int(q + 1), Int(q + |p|)];
    }
  }

  lemma {:induction false} LiteralStep(x: Subject, s: int, p: int, n: nat, caps: seq<Capture>)
    requires n > 0 && Literal(x.h, p, n)
    ensures All(x, s, p, caps) == if s < x.end && At(x.h, s) == At(x.h, p) then All(x, s + 1, p + 1, caps) else []
  {
    LiteralItem(x.h, p, n, At(x.h, s));
    assert All(x, s, p, caps) == AllSingle(x, s, p, p + 1, caps);
  }

  lemma LiteralItem(h: seq<nat>, p: int, n: nat, b: nat)
    requires n > 0 && Literal(h, p, n)
    ensures ItemAt(h, p) == Single(p + 1) && At(h, p + 1) !in {63, 42, 43, 45}
    ensures SingleMatch(h, b, p, p + 1) <==> b == At(h, p)
  {
    var c, d := At(h, p), At(h, p + 1);
    assert !HasPattern([c]) && [c][0] == c;
    if n > 1 { assert !HasPattern([d]) && [d][0] == d; }
  }

  lemma LiteralRest(h: seq<nat>, p: int, n: nat)
    requires n > 0 && Literal(h, p, n)
    ensures Literal(h, p + 1, n - 1)
  {}

  lemma NotSame(h: seq<nat>, a: int, b: int, n: nat)
    requires n > 0 && At(h, a) != At(h, b)
    ensures !Same(h, a, b, n)
  {
    assert At(h, a) != At(h, a - a + b);
  }

  lemma SameStep(h: seq<nat>, a: int, b: int, n: nat)
    requires n > 0 && At(h, a) == At(h, b)
    ensures Same(h, a, b, n) <==> Same(h, a + 1, b + 1, n - 1)
  {
    if Same(h, a + 1, b + 1, n - 1) {
      forall k | a <= k < a + n
        ensures At(h, k) == At(h, k - a + b)
      {
        if k > a { assert At(h, k) == At(h, k - (a + 1) + (b + 1)); }
      }
    }
    if Same(h, a, b, n) {
      forall k | a + 1 <= k < a + n
        ensures At(h, k) == At(h, k - (a + 1) + (b + 1))
      {
        assert At(h, k) == At(h, k - a + b);
      }
    }
  }
}
