/**
 The decoder as the program runs it: on the recorder's own buffer. Event messages are windows into that
 buffer, and joining two events copies bytes over the header between them. The methods show that the bytes
 still to be read and the messages already found survive the copying, so that the result is `Playback.Decode`
 of the bytes the buffer held before the call.
 */
module PlaybackBuffer {
  import opened Bytes
  import opened Playback

  /** The message `buf[lo..hi]`, written at `time`. */
  datatype Window = Window(lo: nat, hi: nat, time: int)

  datatype Found = Events(ws: seq<Window>) | ShortHeader

  /** Windows are disjoint, in order, and behind the cursor. */
  predicate Tidy(ws: seq<Window>, cursor: int) {
    && (forall i :: 0 <= i < |ws| ==> ws[i].lo <= ws[i].hi <= cursor)
    && (forall i, j :: 0 <= i < j < |ws| ==> ws[i].hi <= ws[j].lo)
  }

  function View(b: bytes, ws: seq<Window>): (es: seq<Timed>)
    requires Tidy(ws, |b|)
    ensures |es| == |ws|
  {
    seq(|ws|, i requires 0 <= i < |ws| => Timed(ws[i].time, b[ws[i].lo..ws[i].hi]))
  }

  /** Appending `buf[s..e]` to a slice that ends at `hi`, inside its spare capacity. */
  method AppendInPlace(buf: array<byte>, hi: nat, s: nat, e: nat)
    requires hi <= s <= e <= buf.Length
    modifies buf
    ensures buf[hi..hi + (e - s)] == old(buf[s..e])
    ensures forall p :: 0 <= p < buf.Length && !(hi <= p < hi + (e - s)) ==> buf[p] == old(buf[p])
  {
    for k := 0 to e - s
      invariant forall p :: hi <= p < hi + k ==> buf[p] == old(buf[p + (s - hi)])
      invariant forall p :: 0 <= p < buf.Length && !(hi <= p < hi + k) ==> buf[p] == old(buf[p])
    {
      buf[hi + k] := buf[s + k];
    }
  }

  lemma AppendedView(b: bytes, ws: seq<Window>, s: nat, e: nat, t: int)
    requires s <= e <= |b| && Tidy(ws, s)
    requires ws == [] || ws[|ws| - 1].time != t
    ensures var r := ws + [Window(s, e, t)];
      Tidy(r, e) && View(b, r) == AddEvent(View(b, ws), Timed(t, b[s..e]))
  {}

  lemma ViewSnoc(b: bytes, ws: seq<Window>, w: Window)
    requires Tidy(ws, w.lo) && w.lo <= w.hi <= |b|
    ensures Tidy(ws + [w], w.hi) && View(b, ws + [w]) == View(b, ws) + [Timed(w.time, b[w.lo..w.hi])]
  {}

  lemma ViewSame(was: bytes, now: bytes, ws: seq<Window>, hi: nat)
    requires hi <= |was| && hi <= |now| && Tidy(ws, hi) && now[..hi] == was[..hi]
    ensures View(now, ws) == View(was, ws)
  {
    forall i | 0 <= i < |ws| ensures View(now, ws)[i] == View(was, ws)[i] {
      SameSlice(now, was, hi, ws[i].lo, ws[i].hi);
    }
  }

  lemma AddEventJoins(es: seq<Timed>, t: int, a: bytes, b: bytes)
    ensures AddEvent(es + [Timed(t, a)], Timed(t, b)) == es + [Timed(t, a + b)]
  {
    assert (es + [Timed(t, a)])[..|es|] == es;
  }

  lemma JoinedView(was: bytes, now: bytes, ws: seq<Window>, s: nat, e: nat, t: int)
    requires ws != [] && Tidy(ws, s) && s <= e <= |was| == |now|
    requires ws[|ws| - 1].time == t
    requires now[ws[|ws| - 1].hi..ws[|ws| - 1].hi + (e - s)] == was[s..e]
    requires now[..ws[|ws| - 1].hi] == was[..ws[|ws| - 1].hi]
    ensures var k := |ws| - 1;
      var r := ws[..k] + [Window(ws[k].lo, ws[k].hi + (e - s), t)];
      Tidy(r, e) && View(now, r) == AddEvent(View(was, ws), Timed(t, was[s..e]))
  {
    var k := |ws| - 1;
    var lo, hi, hi' := ws[k].lo, ws[k].hi, ws[k].hi + (e - s);
    var front := ws[..k];
    assert ws == front + [ws[k]];
    assert Tidy(front, lo);
    ViewSnoc(was, front, ws[k]);
    ViewSnoc(now, front, Window(lo, hi', t));
    ViewSame(was, now, front, hi);
    SameSlice(now, was, hi, lo, hi);
    SplitSlice(now, lo, hi, hi');
    hide View, AddEvent;
    AddEventJoins(View(was, front), t, was[lo..hi], was[s..e]);
  }

  /** The events grow by the bytes `output[s..e]` at time `t`; nothing from `e` on is touched, and a joined
      message never outgrows the capacity `n` of the slice it lives in. */
  method Add(buf: array<byte>, n: nat, ws: seq<Window>, t: int, s: nat, e: nat) returns (r: seq<Window>)
    requires s <= e <= n <= buf.Length && Tidy(ws, s)
    modifies buf
    ensures Tidy(r, e)
    ensures View(buf[..n], r) == AddEvent(old(View(buf[..n], ws)), Timed(t, old(buf[..n])[s..e]))
    ensures buf[..n][e..] == old(buf[..n])[e..]
    ensures buf[n..] == old(buf[n..])
  {
    hide View, AddEvent;
    var k := |ws| - 1;
    if ws != [] && t == ws[k].time {
      var hi := ws[k].hi;
      assert hi + (e - s) <= n;  // room enough: append does not reallocate
      AppendInPlace(buf, hi, s, e);
      r := ws[..k] + [Window(ws[k].lo, hi + (e - s), t)];
      assert buf[..n][hi..hi + (e - s)] == buf[hi..hi + (e - s)] && old(buf[..n])[s..e] == old(buf[s..e]);
      JoinedView(old(buf[..n]), buf[..n], ws, s, e, t);
    } else {
      r := ws + [Window(s, e, t)];
      AppendedView(buf[..n], ws, s, e, t);
    }
  }

  lemma TextStep(es: seq<Timed>, s: bytes, last: int)
    requires s != [] && !(MAGIC <= s)
    ensures match Index(s, MAGIC)
      case None => Finish(es, Scan(s, last)) == Ok(AddEvent(es, Timed(last, s)))
      case Some(j) =>
        MAGIC <= s[j..] &&
        Finish(es, Scan(s, last)) == Finish(AddEvent(es, Timed(last, s[..j])), Scan(s[j..], last))
  {
    match Index(s, MAGIC)
    case None =>
      assert [Timed(last, s)][1..] == [];
      assert CoalesceOnto(es, [Timed(last, s)]) == CoalesceOnto(AddEvent(es, Timed(last, s)), [Timed(last, s)][1..]);
    case Some(j) =>
      FinishPrepend(es, Timed(last, s[..j]), ScanHeader(s[j..], last));
  }

  lemma HeaderStep(es: seq<Timed>, s: bytes, last: int)
    requires MAGIC <= s
    ensures var body := |MAGIC| + HEADER_LEN;
      if |s| < body then Finish(es, Scan(s, last)) == Decoded.ShortHeader
      else
        var t := Max(HeaderTime(s), last);
        var end := Min(body + HeaderSize(s), |s|);
        Finish(es, Scan(s, last)) == Finish(AddEvent(es, Timed(t, s[body..end])), Scan(s[end..], t))
  {
    assert Scan(s, last) == ScanHeader(s, last);
    var body := |MAGIC| + HEADER_LEN;
    if |s| >= body {
      var t := Max(HeaderTime(s), last);
      var end := Min(body + HeaderSize(s), |s|);
      FinishPrepend(es, Timed(t, s[body..end]), Scan(s[end..], t));
    }
  }

  /** What holds at the top of the loop: `ws` shows the events found so far, the bytes from `c` on are the
      original ones, and what is left to do completes the decoding of `input`. */
  predicate Ready(output: bytes, input: bytes, ws: seq<Window>, c: nat, last: int) {
    && c <= |output| == |input|
    && Tidy(ws, c)
    && output[c..] == input[c..]
    && Playback.Decode(input) == Finish(View(output, ws), Scan(input[c..], last))
  }

  /** The window list `r` shows in `now` what `ws` showed in `was` and then `was[s..e]` at time `t`. */
  predicate Added(was: bytes, now: bytes, ws: seq<Window>, r: seq<Window>, t: int, s: nat, e: nat) {
    && s <= e <= |was| == |now|
    && Tidy(ws, s) && Tidy(r, e)
    && View(now, r) == AddEvent(View(was, ws), Timed(t, was[s..e]))
    && now[e..] == was[e..]
  }

  lemma TextAdded(was: bytes, now: bytes, input: bytes, ws: seq<Window>, r: seq<Window>, i: nat, last: int)
    requires Ready(was, input, ws, i, last) && i < |was| && !(MAGIC <= was[i..])
    requires Added(was, now, ws, r, last, i,
      match Index(was[i..], MAGIC) case None => |was| case Some(j) => i + j)
    ensures match Index(was[i..], MAGIC)
      case None => Playback.Decode(input) == Ok(View(now, r))
      case Some(j) => Ready(now, input, r, i + j, last) && MAGIC <= now[i + j..]
  {
    hide Scan, ScanHeader, Finish, AddEvent;
    TextStep(View(was, ws), was[i..], last);
    match Index(was[i..], MAGIC)
    case None => assert was[i..|was|] == was[i..];
    case Some(j) => assert was[i..][..j] == was[i..i + j] && was[i..][j..] == was[i + j..] == input[i + j..];
  }

  lemma FrameAdded(was: bytes, now: bytes, input: bytes, ws: seq<Window>, r: seq<Window>, i: nat, last: int)
    requires Ready(was, input, ws, i, last) && MAGIC <= was[i..]
    requires var start := i + |MAGIC| + HEADER_LEN;
      start <= |was| && Added(was, now, ws, r, Max(HeaderTime(was[i..]), last),
                              start, Min(start + HeaderSize(was[i..]), |was|))
    ensures Ready(now, input, r, Min(i + |MAGIC| + HEADER_LEN + HeaderSize(was[i..]), |was|),
                  Max(HeaderTime(was[i..]), last))
  {
    hide Scan, ScanHeader, Finish, AddEvent;
    HeaderStep(View(was, ws), was[i..], last);
    var start := i + |MAGIC| + HEADER_LEN;
    var end := Min(start + HeaderSize(was[i..]), |was|);
    assert was[i..][start - i..end - i] == was[start..end];
    assert was[i..][end - i..] == was[end..] == input[end..];
  }

  /** Delivers the text at `i`, where no header starts; if `more`, a header starts at `next`. */
  method SkipText(buf: array<byte>, n: nat, ws: seq<Window>, last: int, i: nat, ghost input: bytes)
      returns (r: seq<Window>, next: nat, more: bool)
    requires n <= buf.Length && Ready(buf[..n], input, ws, i, last) && i < n && !(MAGIC <= buf[..n][i..])
    modifies buf
    ensures Tidy(r, n)
    ensures !more ==> Playback.Decode(input) == Ok(View(buf[..n], r))
    ensures more ==> Ready(buf[..n], input, r, next, last) && i <= next && MAGIC <= buf[..n][next..]
    ensures buf[n..] == old(buf[n..])
  {
    hide Scan, ScanHeader, Finish, AddEvent;
    ghost var was := buf[..n];
    match Index(buf[..n][i..], MAGIC)
    case None =>
      next, more := n, false;
      r := Add(buf, n, ws, last, i, next);
      TextAdded(was, buf[..n], input, ws, r, i, last);
    case Some(j) =>
      next, more := i + j, true;
      r := Add(buf, n, ws, last, i, next);
      TextAdded(was, buf[..n], input, ws, r, i, last);
  }

  /** Reads the header at `i` and delivers its payload; fails if the header is cut off. */
  method ReadFrame(buf: array<byte>, n: nat, ws: seq<Window>, last: int, i: nat, ghost input: bytes)
      returns (ok: bool, r: seq<Window>, t: int, next: nat)
    requires n <= buf.Length && Ready(buf[..n], input, ws, i, last) && MAGIC <= buf[..n][i..]
    modifies buf
    ensures !ok ==> Playback.Decode(input) == Decoded.ShortHeader
    ensures ok ==> i < next && Ready(buf[..n], input, r, Min(next, n), t)
    ensures buf[n..] == old(buf[n..])
  {
    hide Scan, ScanHeader, Finish, AddEvent;
    ghost var was := buf[..n];
    var output := buf[..n][i..];
    if |output| - |MAGIC| < HEADER_LEN {
      HeaderStep(View(was, ws), output, last);
      return false, ws, last, i;
    }
    t := HeaderTime(output);
    if t < last {
      t := last;
    }
    var start := i + |MAGIC| + HEADER_LEN;
    next := start + HeaderSize(output);
    var end := next;
    if end > n {
      end := n;
    }
    r := Add(buf, n, ws, t, start, end);
    FrameAdded(was, buf[..n], input, ws, r, i, last);
    ok := true;
  }

  /** Decodes `buf[..n]`, a slice with no capacity beyond `n`, using its own bytes as work space. */
  method Decode(buf: array<byte>, n: nat) returns (r: Found)
    requires n <= buf.Length
    modifies buf
    ensures buf[n..] == old(buf[n..])
    ensures match r
      case Events(ws) => Tidy(ws, n) && Playback.Decode(old(buf[..n])) == Ok(View(buf[..n], ws))
      case ShortHeader => Playback.Decode(old(buf[..n])) == Decoded.ShortHeader
  {
    ghost var input := buf[..n];
    var ws: seq<Window> := [];
    var last := EPOCH;
    var i := 0;
    assert input[0..] == input && View(input, ws) == [];
    while i < n
      invariant Ready(buf[..n], input, ws, Min(i, n), last)
      invariant buf[n..] == old(buf[n..])
    {
      if !(MAGIC <= buf[..n][i..]) {
        var more;
        ws, i, more := SkipText(buf, n, ws, last, i, input);
        if !more {
          return Events(ws);
        }
      }
      var ok;
      ok, ws, last, i := ReadFrame(buf, n, ws, last, i, input);
      if !ok {
        return Found.ShortHeader;
      }
    }
    return Events(ws);
  }
}
