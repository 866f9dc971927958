/**
 The playback stream of a sandboxed program: headers, payloads and stray text. `Decode` says what the
 stream means, as a function of the original bytes; `PlaybackBuffer` shows that the decoder, which
 rewrites its own input, computes it.
 */
module Playback {
  import opened Bytes

  /** When sandbox time begins, in nanoseconds. */
  const EPOCH: int := 1257894000_000000000

  /** The four bytes that announce a header. */
  const MAGIC: bytes := [0, 0, 80, 66]

  const TIME_LEN := 8
  const SIZE_LEN := 4
  const HEADER_LEN := TIME_LEN + SIZE_LEN

  /** Bytes written at one instant; times are nanoseconds since 1970. */
  datatype Timed = Timed(time: int, msg: bytes)

  datatype Decoded = Ok(items: seq<Timed>) | ShortHeader

  function Prepend(c: Timed, d: Decoded): Decoded {
    match d
    case Ok(items) => Ok([c] + items)
    case ShortHeader => ShortHeader
  }

  // ---- cutting the stream into timed pieces

  /** The pieces of `s`, read where a header is expected; `last` is the time of the preceding piece. */
  function Scan(s: bytes, last: int): Decoded
    decreases |s|, 1
  {
    if s == [] then Ok([])
    else if MAGIC <= s then ScanHeader(s, last)
    else
      match Index(s, MAGIC)
      case None => Ok([Timed(last, s)])
      case Some(j) => Prepend(Timed(last, s[..j]), ScanHeader(s[j..], last))
  }

  /** The time field of a header at the start of `s`. */
  function HeaderTime(s: bytes): int
    requires |s| >= |MAGIC| + HEADER_LEN
  {
    ToInt64(FromBigEndian(s[|MAGIC|..|MAGIC| + TIME_LEN]))
  }

  /** The length field of a header at the start of `s`. */
  function HeaderSize(s: bytes): nat
    requires |s| >= |MAGIC| + HEADER_LEN
  {
    FromBigEndian(s[|MAGIC| + TIME_LEN..|MAGIC| + HEADER_LEN])
  }

  /** The pieces of `s`, which starts with a header. A payload cut off by the end of `s` is kept. */
  function ScanHeader(s: bytes, last: int): Decoded
    requires MAGIC <= s
    decreases |s|, 0
  {
    var body := |MAGIC| + HEADER_LEN;
    if |s| < body then ShortHeader
    else
      var t := Max(HeaderTime(s), last);
      var end := Min(body + HeaderSize(s), |s|);
      Prepend(Timed(t, s[body..end]), Scan(s[end..], t))
  }

  /** Where the fields of a header are: a big-endian signed time at byte 4 and a length at byte 12. */
  lemma HeaderLayout(s: bytes)
    requires |s| >= 16
    ensures HeaderSize(s) == Word(s[12], s[13], s[14], s[15])
    ensures var u := 0x1_0000_0000 * Word(s[4], s[5], s[6], s[7]) + Word(s[8], s[9], s[10], s[11]);
      HeaderTime(s) == if s[4] >= 128 then u - 0x1_0000_0000_0000_0000 else u
  {
    FourBytes(s[12..16]);
    EightBytes(s[4..12]);
    WordSizes();
  }

  // ---- joining pieces that share a time

  function AddEvent(events: seq<Timed>, c: Timed): seq<Timed> {
    var k := |events| - 1;
    if events != [] && events[k].time == c.time then events[..k] + [Timed(c.time, events[k].msg + c.msg)]
    else events + [c]
  }

  function CoalesceOnto(events: seq<Timed>, cs: seq<Timed>): seq<Timed>
    decreases |cs|
  {
    if cs == [] then events else CoalesceOnto(AddEvent(events, cs[0]), cs[1..])
  }

  function Coalesce(cs: seq<Timed>): seq<Timed> { CoalesceOnto([], cs) }

  function Finish(events: seq<Timed>, d: Decoded): Decoded {
    match d
    case Ok(items) => Ok(CoalesceOnto(events, items))
    case ShortHeader => ShortHeader
  }

  /** The events of a whole stream. */
  function Decode(s: bytes): Decoded { Finish([], Scan(s, EPOCH)) }

  lemma FinishPrepend(events: seq<Timed>, c: Timed, d: Decoded)
    ensures Finish(events, Prepend(c, d)) == Finish(AddEvent(events, c), d)
  {
    if d.Ok? {
      assert ([c] + d.items)[1..] == d.items;
    }
  }

  lemma {:induction false} CoalesceOntoAppend(events: seq<Timed>, cs: seq<Timed>, c: Timed)
    ensures CoalesceOnto(events, cs + [c]) == AddEvent(CoalesceOnto(events, cs), c)
    decreases |cs|
  {
    if cs == [] {
      assert (cs + [c])[1..] == [];
    } else {
      assert (cs + [c])[1..] == cs[1..] + [c];
      CoalesceOntoAppend(AddEvent(events, cs[0]), cs[1..], c);
    }
  }

  // ---- what coalescing means

  predicate Nondecreasing(es: seq<Timed>) {
    forall i, j :: 0 <= i < j < |es| ==> es[i].time <= es[j].time
  }

  predicate StrictlyIncreasing(es: seq<Timed>) {
    forall i, j :: 0 <= i < j < |es| ==> es[i].time < es[j].time
  }

  predicate TimesWithin(es: seq<Timed>, lo: int, hi: int) {
    forall i :: 0 <= i < |es| ==> lo <= es[i].time <= hi
  }

  function Times(es: seq<Timed>): set<int> {
    if es == [] then {} else Times(es[..|es| - 1]) + {es[|es| - 1].time}
  }

  /** Everything written at time `t`, in order. */
  function BytesAt(es: seq<Timed>, t: int): bytes {
    if es == [] then []
    else BytesAt(es[..|es| - 1], t) + (if es[|es| - 1].time == t then es[|es| - 1].msg else [])
  }

  lemma TimesSnoc(es: seq<Timed>, e: Timed)
    ensures Times(es + [e]) == Times(es) + {e.time}
  {
    assert (es + [e])[..|es|] == es;
  }

  lemma AddEventKeepsBytes(es: seq<Timed>, c: Timed, t: int)
    ensures BytesAt(AddEvent(es, c), t) == BytesAt(es, t) + (if c.time == t then c.msg else [])
    ensures Times(AddEvent(es, c)) == Times(es) + {c.time}
  {
    var k := |es| - 1;
    if es != [] && es[k].time == c.time {
      var joined := Timed(c.time, es[k].msg + c.msg);
      assert (es[..k] + [joined])[..k] == es[..k];
      assert es == es[..k] + [es[k]];
      TimesSnoc(es[..k], joined);
      TimesSnoc(es[..k], es[k]);
    } else {
      assert (es + [c])[..|es|] == es;
      TimesSnoc(es, c);
    }
  }

  lemma CoalesceSnoc(cs: seq<Timed>)
    requires cs != []
    ensures Coalesce(cs) == AddEvent(Coalesce(cs[..|cs| - 1]), cs[|cs| - 1])
  {
    assert cs == cs[..|cs| - 1] + [cs[|cs| - 1]];
    CoalesceOntoAppend([], cs[..|cs| - 1], cs[|cs| - 1]);
  }

  /** Joining pieces keeps, for every instant, exactly the bytes written then, and creates no other instant. */
  lemma {:induction false} CoalesceKeepsBytes(cs: seq<Timed>, t: int)
    ensures BytesAt(Coalesce(cs), t) == BytesAt(cs, t)
    ensures Times(Coalesce(cs)) == Times(cs)
  {
    if cs != [] {
      var k := |cs| - 1;
      CoalesceKeepsBytes(cs[..k], t);
      CoalesceSnoc(cs);
      assert cs == cs[..k] + [cs[k]];
      AddEventKeepsBytes(Coalesce(cs[..k]), cs[k], t);
      TimesSnoc(cs[..k], cs[k]);
    }
  }

  lemma AddEventIsStrict(es: seq<Timed>, c: Timed, lo: int, hi: int)
    requires StrictlyIncreasing(es) && TimesWithin(es, lo, hi) && lo <= c.time <= hi
    requires es != [] ==> es[|es| - 1].time <= c.time
    ensures StrictlyIncreasing(AddEvent(es, c)) && TimesWithin(AddEvent(es, c), lo, hi)
    ensures AddEvent(es, c)[|AddEvent(es, c)| - 1].time == c.time
  {}

  /** Pieces in time order become events with strictly increasing times, inside the same bounds. */
  lemma {:induction false} CoalesceIsStrict(cs: seq<Timed>, lo: int, hi: int)
    requires Nondecreasing(cs) && TimesWithin(cs, lo, hi)
    ensures StrictlyIncreasing(Coalesce(cs)) && TimesWithin(Coalesce(cs), lo, hi)
    ensures Coalesce(cs) == [] <==> cs == []
    ensures cs != [] ==> Coalesce(cs)[|Coalesce(cs)| - 1].time == cs[|cs| - 1].time
  {
    if cs != [] {
      var k := |cs| - 1;
      CoalesceIsStrict(cs[..k], lo, hi);
      CoalesceSnoc(cs);
      hide Coalesce, AddEvent, StrictlyIncreasing;
      AddEventIsStrict(Coalesce(cs[..k]), cs[k], lo, hi);
    }
  }

  lemma {:induction false} TimesBelow(a: seq<Timed>, bound: int)
    requires forall i :: 0 <= i < |a| ==> a[i].time < bound
    ensures forall t :: t in Times(a) ==> t < bound
    ensures BytesAt(a, bound) == []
  {
    if a != [] {
      TimesBelow(a[..|a| - 1], bound);
    }
  }

  lemma {:induction false} LastTimeIsLargest(a: seq<Timed>)
    requires StrictlyIncreasing(a) && a != []
    ensures var k := |a| - 1;
      && a[k].time in Times(a)
      && (forall t :: t in Times(a) ==> t <= a[k].time)
      && Times(a[..k]) == Times(a) - {a[k].time}
      && BytesAt(a, a[k].time) == a[k].msg
      && forall t :: BytesAt(a[..k], t) == if t == a[k].time then [] else BytesAt(a, t)
  {
    TimesBelow(a[..|a| - 1], a[|a| - 1].time);
  }

  predicate SameWrites(a: seq<Timed>, b: seq<Timed>, t: int) { BytesAt(a, t) == BytesAt(b, t) }

  lemma SameLast(a: seq<Timed>, x: Timed, b: seq<Timed>, y: Timed)
    requires StrictlyIncreasing(a + [x]) && StrictlyIncreasing(b + [y])
    requires Times(a + [x]) == Times(b + [y])
    requires forall t :: SameWrites(a + [x], b + [y], t)
    ensures x == y && Times(a) == Times(b)
    ensures forall t :: SameWrites(a, b, t)
  {
    assert (a + [x])[..|a|] == a && (b + [y])[..|b|] == b;
    LastTimeIsLargest(a + [x]);
    LastTimeIsLargest(b + [y]);
    assert x.time == y.time;
    assert SameWrites(a + [x], b + [y], x.time);
    forall u ensures SameWrites(a, b, u) {
      assert SameWrites(a + [x], b + [y], u);
    }
  }

  /** Events with strictly increasing times are determined by their instants and the bytes at each. */
  lemma {:induction false} EventsAreDetermined(a: seq<Timed>, b: seq<Timed>)
    requires StrictlyIncreasing(a) && StrictlyIncreasing(b)
    requires Times(a) == Times(b)
    requires forall t :: SameWrites(a, b, t)
    ensures a == b
  {
    if a != [] && b != [] {
      var j, k := |a| - 1, |b| - 1;
      assert a == a[..j] + [a[j]] && b == b[..k] + [b[k]];
      SameLast(a[..j], a[j], b[..k], b[k]);
      EventsAreDetermined(a[..j], b[..k]);
    }
  }

  /** Joining pieces in time order is the only way to list, once per instant and in order of time, what was
      written at that instant. */
  lemma CoalesceCharacterised(cs: seq<Timed>, es: seq<Timed>)
    requires Nondecreasing(cs)
    ensures es == Coalesce(cs)
      <==> StrictlyIncreasing(es) && Times(es) == Times(cs) && forall t :: SameWrites(es, cs, t)
  {
    if cs != [] {
      CoalesceIsStrict(cs, cs[0].time, cs[|cs| - 1].time);
    }
    forall t ensures SameWrites(Coalesce(cs), cs, t) {
      CoalesceKeepsBytes(cs, t);
    }
    CoalesceKeepsBytes(cs, 0);
    if StrictlyIncreasing(es) && Times(es) == Times(cs) && forall t :: SameWrites(es, cs, t) {
      forall t ensures SameWrites(es, Coalesce(cs), t) {
        assert SameWrites(Coalesce(cs), cs, t) && SameWrites(es, cs, t);
      }
      EventsAreDetermined(es, Coalesce(cs));
    }
  }

  // ---- time never runs backwards

  lemma FromBigEndianIsInt64(s: bytes)
    requires |s| == 8
    ensures IsInt64(ToInt64(FromBigEndian(s)))
  {
    WordSizes();
  }

  lemma PrependMonotone(c: Timed, d: Decoded, last: int)
    requires last <= c.time < TWO_63
    requires d.Ok? ==> Nondecreasing(d.items) && TimesWithin(d.items, c.time, TWO_63 - 1)
    ensures Prepend(c, d).Ok? ==>
      Nondecreasing(Prepend(c, d).items) && TimesWithin(Prepend(c, d).items, last, TWO_63 - 1)
  {}

  lemma {:induction false} ScanIsMonotone(s: bytes, last: int)
    requires last < TWO_63
    ensures Scan(s, last).Ok? ==>
      Nondecreasing(Scan(s, last).items) && TimesWithin(Scan(s, last).items, last, TWO_63 - 1)
    decreases |s|, 1
  {
    if s != [] {
      if MAGIC <= s {
        ScanHeaderIsMonotone(s, last);
      } else if Index(s, MAGIC).Some? {
        var j := Index(s, MAGIC).value;
        ScanHeaderIsMonotone(s[j..], last);
        PrependMonotone(Timed(last, s[..j]), ScanHeader(s[j..], last), last);
      }
    }
  }

  lemma {:induction false} ScanHeaderIsMonotone(s: bytes, last: int)
    requires MAGIC <= s && last < TWO_63
    ensures ScanHeader(s, last).Ok? ==>
      Nondecreasing(ScanHeader(s, last).items) && TimesWithin(ScanHeader(s, last).items, last, TWO_63 - 1)
    decreases |s|, 0
  {
    var body := |MAGIC| + HEADER_LEN;
    if |s| >= body {
      var t := Max(HeaderTime(s), last);
      FromBigEndianIsInt64(s[|MAGIC|..|MAGIC| + TIME_LEN]);
      var end := Min(body + HeaderSize(s), |s|);
      ScanIsMonotone(s[end..], t);
      PrependMonotone(Timed(t, s[body..end]), Scan(s[end..], t), last);
    }
  }

  /** Whatever the input, decoded times strictly increase, start no earlier than `EPOCH` and fit 64 bits. */
  lemma DecodeIsStrict(s: bytes)
    ensures Decode(s).Ok? ==> StrictlyIncreasing(Decode(s).items) && TimesWithin(Decode(s).items, EPOCH, TWO_63 - 1)
  {
    ScanIsMonotone(s, EPOCH);
    if Scan(s, EPOCH).Ok? {
      CoalesceIsStrict(Scan(s, EPOCH).items, EPOCH, TWO_63 - 1);
    }
  }
}
