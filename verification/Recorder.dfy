/** From two recorded streams to the list of events that is played back to the user. */
module Recorder {
  import opened Bytes
  import opened Playback
  import PlaybackBuffer
  import PlaybackRoundTrip
  import Utf8

  datatype Kind = Stdout | Stderr

  /** A decoded event together with the stream it came from. */
  datatype Stamped = Stamped(time: int, msg: bytes, kind: Kind)

  /** What the client sees: wait for `delay`, then show `message`. */
  datatype Event = Event(message: bytes, kind: Kind, delay: int)

  datatype Outcome = Ok(events: seq<Event>) | DecodeError

  // ---- merging the two streams

  function Stamp(es: seq<Timed>, kind: Kind): (r: seq<Stamped>)
    ensures |r| == |es|
  {
    seq(|es|, i requires 0 <= i < |es| => Stamped(es[i].time, es[i].msg, kind))
  }

  function Merge(a: seq<Stamped>, b: seq<Stamped>): (r: seq<Stamped>)
    ensures |r| == |a| + |b|
    decreases |a| + |b|
  {
    if a == [] then b
    else if b == [] then a
    else if a[0].time < b[0].time then [a[0]] + Merge(a[1..], b)
    else [b[0]] + Merge(a, b[1..])
  }

  /** One round of the merge loop, and its end. */
  lemma MergeStep(a: seq<Stamped>, b: seq<Stamped>)
    ensures a != [] && b != [] && a[0].time < b[0].time ==> Merge(a, b) == [a[0]] + Merge(a[1..], b)
    ensures a != [] && b != [] && a[0].time >= b[0].time ==> Merge(a, b) == [b[0]] + Merge(a, b[1..])
    ensures a == [] || b == [] ==> Merge(a, b) == a + b
  {}

  /** The loop has merged the first `i` and `j` events into `done`. */
  predicate Merging(done: seq<Stamped>, a: seq<Stamped>, b: seq<Stamped>, i: nat, j: nat) {
    i <= |a| && j <= |b| && done + Merge(a[i..], b[j..]) == Merge(a, b)
  }

  lemma MergeStart(a: seq<Stamped>, b: seq<Stamped>)
    ensures Merging([], a, b, 0, 0)
  {
    hide Merge;
    assert a[0..] == a && b[0..] == b;
  }

  /** One round of the loop moves one event from what is left to what is done. */
  lemma MergeRound(done: seq<Stamped>, a: seq<Stamped>, b: seq<Stamped>, i: nat, j: nat)
    requires Merging(done, a, b, i, j) && i < |a| && j < |b|
    ensures if a[i].time < b[j].time then Merging(done + [a[i]], a, b, i + 1, j)
            else Merging(done + [b[j]], a, b, i, j + 1)
  {
    hide Merge;
    MergeStep(a[i..], b[j..]);
    assert a[i..][1..] == a[i + 1..] && b[j..][1..] == b[j + 1..];
  }

  /** After the loop the rest of the one stream that is left is appended. */
  lemma MergeEnd(done: seq<Stamped>, a: seq<Stamped>, b: seq<Stamped>, i: nat, j: nat)
    requires Merging(done, a, b, i, j) && (i == |a| || j == |b|)
    ensures i <= |a| && j <= |b| && done + a[i..] + b[j..] == Merge(a, b)
  {
    assert done + Merge(a[i..], b[j..]) == Merge(a, b);
    var x, y := a[i..], b[j..];
    hide Merge, Merging;
    MergeStep(x, y);
    Assoc(done, x, y);
  }

  method SortedMerge(a: seq<Stamped>, b: seq<Stamped>) returns (sorted: seq<Stamped>)
    ensures sorted == Merge(a, b)
  {
    if |a| == 0 {
      return b;
    }
    if |b| == 0 {
      return a;
    }
    hide *;
    sorted := [];
    var i, j := 0, 0;
    MergeStart(a, b);
    while i < |a| && j < |b|
      invariant i <= |a| && j <= |b| && Merging(sorted, a, b, i, j)
    {
      MergeRound(sorted, a, b, i, j);
      if a[i].time < b[j].time {
        sorted := sorted + [a[i]];
        i := i + 1;
      } else {
        sorted := sorted + [b[j]];
        j := j + 1;
      }
    }
    MergeEnd(sorted, a, b, i, j);
    sorted := sorted + a[i..];
    sorted := sorted + b[j..];
  }

  /** The events of one stream, in order. */
  function Select(es: seq<Stamped>, kind: Kind): seq<Stamped> {
    if es == [] then []
    else (if es[0].kind == kind then [es[0]] else []) + Select(es[1..], kind)
  }

  predicate AllOf(es: seq<Stamped>, kind: Kind) { forall e | e in es :: e.kind == kind }

  /** Earlier first; at the same instant standard error comes before standard output. */
  predicate Before(x: Stamped, y: Stamped) {
    x.time < y.time || (x.time == y.time && x.kind == Stderr && y.kind == Stdout)
  }

  predicate Ordered(es: seq<Stamped>) {
    forall i, j :: 0 <= i < j < |es| ==> Before(es[i], es[j])
  }

  lemma {:induction false} SelectAll(es: seq<Stamped>, kind: Kind)
    requires AllOf(es, kind)
    ensures forall k :: Select(es, k) == if k == kind then es else []
  {
    if es != [] {
      SelectAll(es[1..], kind);
    }
  }

  lemma SelectCons(e: Stamped, es: seq<Stamped>, kind: Kind)
    ensures Select([e] + es, kind) == (if e.kind == kind then [e] else []) + Select(es, kind)
  {
    assert ([e] + es)[1..] == es;
  }

  /** Merging loses nothing and keeps the order inside each stream, whatever the times. */
  lemma {:induction false} MergeKeepsStreams(a: seq<Stamped>, b: seq<Stamped>)
    requires AllOf(a, Stdout) && AllOf(b, Stderr)
    ensures Select(Merge(a, b), Stdout) == a && Select(Merge(a, b), Stderr) == b
    decreases |a| + |b|
  {
    SelectAll(a, Stdout);
    SelectAll(b, Stderr);
    if a != [] && b != [] {
      if a[0].time < b[0].time {
        MergeKeepsStreams(a[1..], b);
        SelectCons(a[0], Merge(a[1..], b), Stdout);
        SelectCons(a[0], Merge(a[1..], b), Stderr);
      } else {
        MergeKeepsStreams(a, b[1..]);
        SelectCons(b[0], Merge(a, b[1..]), Stdout);
        SelectCons(b[0], Merge(a, b[1..]), Stderr);
      }
    }
  }

  lemma {:induction false} MergeElements(a: seq<Stamped>, b: seq<Stamped>)
    ensures forall e | e in Merge(a, b) :: e in a || e in b
    decreases |a| + |b|
  {
    if a != [] && b != [] {
      if a[0].time < b[0].time { MergeElements(a[1..], b); } else { MergeElements(a, b[1..]); }
    }
  }

  lemma OrderedCons(e: Stamped, es: seq<Stamped>)
    requires Ordered(es) && forall x | x in es :: Before(e, x)
    ensures Ordered([e] + es)
  {}

  /** Merging two streams with strictly increasing times gives a list in time order, standard error first
      on ties. */
  lemma {:induction false} MergeIsOrdered(a: seq<Stamped>, b: seq<Stamped>)
    requires AllOf(a, Stdout) && AllOf(b, Stderr) && Ordered(a) && Ordered(b)
    ensures Ordered(Merge(a, b))
    decreases |a| + |b|
  {
    if a != [] && b != [] {
      var x := if a[0].time < b[0].time then a[0] else b[0];
      var rest := if a[0].time < b[0].time then Merge(a[1..], b) else Merge(a, b[1..]);
      if a[0].time < b[0].time {
        MergeIsOrdered(a[1..], b);
        MergeElements(a[1..], b);
      } else {
        MergeIsOrdered(a, b[1..]);
        MergeElements(a, b[1..]);
      }
      forall e | e in rest ensures Before(x, e) {
        assert e in a || e in b;
      }
      OrderedCons(x, rest);
    }
  }

  lemma {:induction false} SelectElements(es: seq<Stamped>, kind: Kind)
    ensures forall e | e in Select(es, kind) :: e in es && e.kind == kind
    ensures forall e | e in es && e.kind == kind :: e in Select(es, kind)
  {
    if es != [] {
      SelectElements(es[1..], kind);
    }
  }

  lemma FirstIsBefore(r: seq<Stamped>, kind: Kind)
    requires Ordered(r) && r != [] && r[0].kind != kind && Select(r, kind) != []
    ensures Before(r[0], Select(r, kind)[0])
  {
    SelectElements(r, kind);
    assert Select(r, kind)[0] in r;
  }

  lemma {:induction false} OneStream(r: seq<Stamped>, kind: Kind)
    requires forall k | k != kind :: Select(r, k) == []
    ensures Select(r, kind) == r
  {
    if r != [] {
      assert r[0].kind == kind by {
        assert r[0].kind != kind ==> Select(r, r[0].kind) == [];
      }
      forall k | k != kind ensures Select(r[1..], k) == [] {
        assert Select(r, k) == [];
      }
      OneStream(r[1..], kind);
      assert r == [r[0]] + r[1..];
    }
  }

  /** Those facts leave only one possible list. */
  lemma {:induction false} MergeIsUnique(r: seq<Stamped>, a: seq<Stamped>, b: seq<Stamped>)
    requires AllOf(a, Stdout) && AllOf(b, Stderr)
    requires Ordered(r) && Select(r, Stdout) == a && Select(r, Stderr) == b
    ensures r == Merge(a, b)
    decreases |r|
  {
    hide Merge, Select;
    MergeStep(a, b);
    if r == [] {
      SelectAll(r, Stdout);
      SelectAll(r, Stderr);
    } else if a == [] {
      OneStream(r, Stderr);
    } else if b == [] {
      OneStream(r, Stdout);
    } else {
      SelectCons(r[0], r[1..], Stdout);
      SelectCons(r[0], r[1..], Stderr);
      assert r == [r[0]] + r[1..];
      if r[0].kind == Stdout {
        assert a == [r[0]] + Select(r[1..], Stdout);
        FirstIsBefore(r, Stderr);
        MergeIsUnique(r[1..], a[1..], b);
      } else {
        assert b == [r[0]] + Select(r[1..], Stderr);
        FirstIsBefore(r, Stdout);
        MergeIsUnique(r[1..], a, b[1..]);
      }
    }
  }

  // ---- delays

  /** Difference of two times as a 64-bit duration, saturating like the library does. */
  function Sub(t: int, u: int): int { Max(-TWO_63, Min(TWO_63 - 1, t - u)) }

  function TotalDelay(es: seq<Event>): int {
    if es == [] then 0 else TotalDelay(es[..|es| - 1]) + es[|es| - 1].delay
  }

  predicate PlaysAt(out: seq<Event>, m: Stamped, k: nat)
    requires k < |out|
  {
    && out[k].message == Utf8.Sanitized(m.msg) && out[k].kind == m.kind
    && 0 <= out[k].delay < TWO_63
    && EPOCH + TotalDelay(out[..k + 1]) == m.time
  }

  /** Playing `out` shows every message of `ms`, made valid UTF-8, exactly at its time. */
  predicate Plays(out: seq<Event>, ms: seq<Stamped>) {
    && |out| == |ms|
    && forall k :: 0 <= k < |ms| ==> PlaysAt(out, ms[k], k)
  }

  lemma PlaysPrefix(out: seq<Event>, ms: seq<Stamped>)
    requires Plays(out, ms) && ms != []
    ensures Plays(out[..|ms| - 1], ms[..|ms| - 1])
  {
    var k := |ms| - 1;
    forall i | 0 <= i < k ensures PlaysAt(out[..k], ms[..k][i], i) {
      assert PlaysAt(out, ms[i], i);
      assert out[..k][..i + 1] == out[..i + 1];
    }
  }

  /** At most one event list plays a given merge. */
  lemma {:induction false} PlaysIsUnique(x: seq<Event>, y: seq<Event>, ms: seq<Stamped>)
    requires Plays(x, ms) && Plays(y, ms)
    ensures x == y
  {
    if ms != [] {
      var k := |ms| - 1;
      PlaysPrefix(x, ms);
      PlaysPrefix(y, ms);
      PlaysIsUnique(x[..k], y[..k], ms[..k]);
      assert PlaysAt(x, ms[k], k) && PlaysAt(y, ms[k], k);
      assert x[..k + 1] == x && y[..k + 1] == y;
      assert x == x[..k] + [x[k]] && y == y[..k] + [y[k]];
    }
  }

  lemma PlaysSnoc(out: seq<Event>, ms: seq<Stamped>, e: Event, m: Stamped)
    requires Plays(out, ms)
    requires e.message == Utf8.Sanitized(m.msg) && e.kind == m.kind
    requires 0 <= e.delay < TWO_63 && EPOCH + TotalDelay(out) + e.delay == m.time
    ensures Plays(out + [e], ms + [m])
  {
    hide Utf8.Sanitized;
    var r := out + [e];
    assert r[..|out|] == out && r[..|r|] == r;
    forall k | 0 <= k < |r| ensures PlaysAt(r, (ms + [m])[k], k) {
      if k < |out| {
        assert PlaysAt(out, ms[k], k);
        assert r[..k + 1] == out[..k + 1];
      }
    }
  }

  lemma PlayedIsValid(out: seq<Event>, ms: seq<Stamped>)
    requires Plays(out, ms)
    ensures forall e | e in out :: Utf8.Valid(e.message)
  {
    hide Utf8.Sanitized, Utf8.Valid;
    forall k | 0 <= k < |out| ensures Utf8.Valid(out[k].message) {
      assert PlaysAt(out, ms[k], k);
      Utf8.SanitizedIsValid(ms[k].msg);
    }
  }

  predicate InTime(ms: seq<Stamped>) {
    && (forall i, j :: 0 <= i < j < |ms| ==> ms[i].time <= ms[j].time)
    && (forall i :: 0 <= i < |ms| ==> EPOCH <= ms[i].time < TWO_63)
  }

  /** Turns times into delays. On events in time order neither the clamp at zero nor the saturation of the
      subtraction ever changes a delay: no time is lost or invented. */
  method Delays(events: seq<Stamped>) returns (out: seq<Event>)
    requires InTime(events)
    ensures Plays(out, events)
  {
    out := [];
    var now := EPOCH;
    for i := 0 to |events|
      invariant Plays(out, events[..i])
      invariant EPOCH + TotalDelay(out) == now
      invariant now == if i == 0 then EPOCH else events[i - 1].time
    {
      var e := events[i];
      var delay := Sub(e.time, now);
      if delay < 0 {
        delay := 0;
      }
      var message := Utf8.Sanitize(e.msg);
      PlaysSnoc(out, events[..i], Event(message, e.kind, delay), e);
      assert events[..i + 1] == events[..i] + [e];
      assert (out + [Event(message, e.kind, delay)])[..|out|] == out;
      out := out + [Event(message, e.kind, delay)];
      if delay > 0 {
        now := e.time;
      }
    }
    assert events[..|events|] == events;
  }

  // ---- the recorder

  /** The merged events of two recorded streams, if both can be decoded. */
  function Merged(stdout: bytes, stderr: bytes): Option<seq<Stamped>> {
    match (Decode(stdout), Decode(stderr))
    case (Ok(a), Ok(b)) => Some(Merge(Stamp(a, Stdout), Stamp(b, Stderr)))
    case _ => None
  }

  lemma StampIsOrdered(es: seq<Timed>, kind: Kind)
    requires StrictlyIncreasing(es)
    ensures Ordered(Stamp(es, kind)) && AllOf(Stamp(es, kind), kind)
  {}

  /** Whatever was recorded, the merged events are in time order, start no earlier than the epoch, and hold
      each stream unchanged. */
  lemma MergedIsOrdered(stdout: bytes, stderr: bytes)
    requires Merged(stdout, stderr).Some?
    ensures var ms := Merged(stdout, stderr).value;
      && Ordered(ms) && InTime(ms)
      && Select(ms, Stdout) == Stamp(Decode(stdout).items, Stdout)
      && Select(ms, Stderr) == Stamp(Decode(stderr).items, Stderr)
  {
    hide Decode, Merge, Select;
    var a, b := Decode(stdout).items, Decode(stderr).items;
    DecodeIsStrict(stdout);
    DecodeIsStrict(stderr);
    StampIsOrdered(a, Stdout);
    StampIsOrdered(b, Stderr);
    MergeIsOrdered(Stamp(a, Stdout), Stamp(b, Stderr));
    MergeKeepsStreams(Stamp(a, Stdout), Stamp(b, Stderr));
    MergeElements(Stamp(a, Stdout), Stamp(b, Stderr));
    var ms := Merged(stdout, stderr).value;
    forall i | 0 <= i < |ms| ensures EPOCH <= ms[i].time < TWO_63 {
      assert ms[i] in ms;
    }
  }

  /** What the stream `kind` shows at time `t`. */
  function BytesOf(ms: seq<Stamped>, kind: Kind, t: int): bytes {
    if ms == [] then []
    else (if ms[0].kind == kind && ms[0].time == t then ms[0].msg else []) + BytesOf(ms[1..], kind, t)
  }

  predicate ShowsAt(ms: seq<Stamped>, kind: Kind, t: int) { exists m :: m in ms && m.kind == kind && m.time == t }

  lemma {:induction false} BytesOfSnoc(ms: seq<Stamped>, m: Stamped, kind: Kind, t: int)
    ensures BytesOf(ms + [m], kind, t)
      == BytesOf(ms, kind, t) + (if m.kind == kind && m.time == t then m.msg else [])
  {
    if ms == [] {
      assert [] + [m] == [m] && BytesOf([m], kind, t) == BytesOf([m], kind, t) + [];
    } else {
      assert (ms + [m])[1..] == ms[1..] + [m];
      BytesOfSnoc(ms[1..], m, kind, t);
      Assoc(if ms[0].kind == kind && ms[0].time == t then ms[0].msg else [], BytesOf(ms[1..], kind, t),
            if m.kind == kind && m.time == t then m.msg else []);
    }
  }

  lemma {:induction false} BytesOfStamp(es: seq<Timed>, kind: Kind, t: int)
    ensures BytesOf(Stamp(es, kind), kind, t) == BytesAt(es, t)
    ensures ShowsAt(Stamp(es, kind), kind, t) <==> t in Times(es)
  {
    if es != [] {
      var k := |es| - 1;
      BytesOfStamp(es[..k], kind, t);
      var front, last := Stamp(es[..k], kind), Stamped(es[k].time, es[k].msg, kind);
      assert Stamp(es, kind) == front + [last];
      BytesOfSnoc(front, last, kind, t);
      assert forall m :: m in front + [last] <==> m in front || m == last;
    }
  }

  lemma {:induction false} BytesOfSelect(ms: seq<Stamped>, kind: Kind, t: int)
    ensures BytesOf(Select(ms, kind), kind, t) == BytesOf(ms, kind, t)
  {
    if ms != [] {
      BytesOfSelect(ms[1..], kind, t);
      if ms[0].kind == kind {
        assert Select(ms, kind)[1..] == Select(ms[1..], kind);
      } else {
        assert Select(ms, kind) == Select(ms[1..], kind);
      }
    }
  }

  /** The merged events show, for every stream and every instant, exactly the bytes that the decoder found for
      it, and at no other instant. */
  lemma MergedShows(stdout: bytes, stderr: bytes, t: int)
    requires Merged(stdout, stderr).Some?
    ensures var ms := Merged(stdout, stderr).value;
      && BytesOf(ms, Stdout, t) == BytesAt(Decode(stdout).items, t)
      && BytesOf(ms, Stderr, t) == BytesAt(Decode(stderr).items, t)
      && (ShowsAt(ms, Stdout, t) <==> t in Times(Decode(stdout).items))
      && (ShowsAt(ms, Stderr, t) <==> t in Times(Decode(stderr).items))
  {
    MergedIsOrdered(stdout, stderr);
    hide Decode, Merge, Select, Stamp, BytesOf, Ordered, InTime, Times;
    var ms := Merged(stdout, stderr).value;
    BytesOfSelect(ms, Stdout, t);
    BytesOfSelect(ms, Stderr, t);
    SelectElements(ms, Stdout);
    SelectElements(ms, Stderr);
    BytesOfStamp(Decode(stdout).items, Stdout, t);
    BytesOfStamp(Decode(stderr).items, Stderr, t);
  }

  /** From writes to events: whatever two streams a program writes, with text in between, they can be decoded,
      and the merged events are the writes of each stream, in time order. */
  lemma WritesPlayBack(outs: seq<PlaybackRoundTrip.Piece>, errs: seq<PlaybackRoundTrip.Piece>)
    requires PlaybackRoundTrip.Clean(outs) && PlaybackRoundTrip.Clean(errs)
    ensures var ms := Merged(PlaybackRoundTrip.Encode(outs), PlaybackRoundTrip.Encode(errs));
      && ms.Some? && Ordered(ms.value) && InTime(ms.value)
      && Select(ms.value, Stdout) == Stamp(Coalesce(PlaybackRoundTrip.Expected(outs, EPOCH)), Stdout)
      && Select(ms.value, Stderr) == Stamp(Coalesce(PlaybackRoundTrip.Expected(errs, EPOCH)), Stderr)
      && (forall t :: BytesOf(ms.value, Stdout, t) == BytesAt(PlaybackRoundTrip.Expected(outs, EPOCH), t))
      && (forall t :: BytesOf(ms.value, Stderr, t) == BytesAt(PlaybackRoundTrip.Expected(errs, EPOCH), t))
  {
    hide Decode, Merge, Select, Ordered, BytesOf, BytesAt, Coalesce;
    PlaybackRoundTrip.RoundTrip(outs);
    PlaybackRoundTrip.RoundTrip(errs);
    var out, err := PlaybackRoundTrip.Encode(outs), PlaybackRoundTrip.Encode(errs);
    MergedIsOrdered(out, err);
    forall t
      ensures BytesOf(Merged(out, err).value, Stdout, t) == BytesAt(PlaybackRoundTrip.Expected(outs, EPOCH), t)
      ensures BytesOf(Merged(out, err).value, Stderr, t) == BytesAt(PlaybackRoundTrip.Expected(errs, EPOCH), t)
    {
      MergedShows(out, err, t);
      CoalesceKeepsBytes(PlaybackRoundTrip.Expected(outs, EPOCH), t);
      CoalesceKeepsBytes(PlaybackRoundTrip.Expected(errs, EPOCH), t);
    }
  }

  /** A growing byte slice: `data[..len]`, with spare capacity behind it. */
  class RecorderWriter {
    var data: array<byte>
    var len: nat

    ghost predicate Valid()
      reads this
    {
      len <= data.Length
    }

    ghost function Contents(): bytes
      requires Valid()
      reads this, data
    {
      data[..len]
    }

    constructor ()
      ensures Valid() && fresh(data) && Contents() == []
    {
      data := new byte[0];
      len := 0;
    }

    /** Appends `b`; the backing array is replaced when it is too small. */
    method Write(b: bytes) returns (n: nat)
      requires Valid()
      modifies this, data
      ensures Valid() && (data == old(data) || fresh(data))
      ensures Contents() == old(Contents()) + b && n == |b|
    {
      ghost var was := Contents();
      if len + |b| > data.Length {
        var capacity: nat :| len + |b| <= capacity;
        var grown := new byte[capacity];
        forall i | 0 <= i < len {
          grown[i] := data[i];
        }
        data := grown;
      }
      assert data[..len] == was;
      forall i | 0 <= i < |b| {
        data[len + i] := b[i];
      }
      len := len + |b|;
      assert data[..len] == was + b;
      n := |b|;
    }
  }

  class Recorder {
    const stdout: RecorderWriter
    const stderr: RecorderWriter

    ghost predicate Valid()
      reads this, stdout, stderr
    {
      stdout != stderr && stdout.Valid() && stderr.Valid() && stdout.data != stderr.data
    }

    constructor ()
      ensures Valid() && fresh(stdout) && fresh(stderr) && fresh(stdout.data) && fresh(stderr.data)
      ensures stdout.Contents() == [] && stderr.Contents() == []
    {
      stdout := new RecorderWriter();
      stderr := new RecorderWriter();
    }

    /** The events of what was recorded. Decoding works inside the two buffers, so the recorded bytes are
        no longer there afterwards. */
    method Events() returns (r: Outcome)
      requires Valid()
      modifies stdout.data, stderr.data
      ensures match Merged(old(stdout.Contents()), old(stderr.Contents()))
        case None => r == DecodeError
        case Some(ms) => r.Ok? && Plays(r.events, ms)
      ensures r.Ok? ==> forall e | e in r.events :: Utf8.Valid(e.message)
    {
      ghost var outBytes, errBytes := stdout.Contents(), stderr.Contents();
      var n, m := stdout.len, stderr.len;
      var evOut := PlaybackBuffer.Decode(stdout.data, n);
      if evOut.ShortHeader? {
        return DecodeError;
      }
      ghost var shown := stdout.data[..n];
      assert stderr.data[..m] == errBytes;
      var evErr := PlaybackBuffer.Decode(stderr.data, m);
      if evErr.ShortHeader? {
        return DecodeError;
      }
      assert stdout.data[..n] == shown;
      var a := PlaybackBuffer.View(stdout.data[..n], evOut.ws);
      var b := PlaybackBuffer.View(stderr.data[..m], evErr.ws);
      var events := SortedMerge(Stamp(a, Stdout), Stamp(b, Stderr));
      MergedIsOrdered(outBytes, errBytes);
      var out := Delays(events);
      PlayedIsValid(out, events);
      return Outcome.Ok(out);
    }
  }
}
