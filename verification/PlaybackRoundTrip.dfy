/** What a program wrote is what the decoder returns, also when the stream was cut short. */
module PlaybackRoundTrip {
  import opened Bytes
  import opened Playback

  /** One write of a playground program, or text that reached the stream without a header. */
  datatype Piece = Frame(nanos: int, payload: bytes) | Text(text: bytes)

  function EncodeHeader(nanos: int, size: nat): (h: bytes)
    requires IsInt64(nanos)
    ensures |h| == |MAGIC| + HEADER_LEN && MAGIC <= h
  {
    MAGIC + ToBigEndian(FromInt64(nanos), TIME_LEN) + ToBigEndian(size, SIZE_LEN)
  }

  predicate Writable(p: Piece) {
    p.Frame? ==> IsInt64(p.nanos) && |p.payload| < 0x1_0000_0000
  }

  function EncodePiece(p: Piece): bytes
    requires Writable(p)
  {
    match p
    case Frame(nanos, payload) => EncodeHeader(nanos, |payload|) + payload
    case Text(text) => text
  }

  function Encode(ps: seq<Piece>): bytes
    requires forall p | p in ps :: Writable(p)
  {
    if ps == [] then [] else EncodePiece(ps[0]) + Encode(ps[1..])
  }

  /** The text in front of the first frame. */
  function LeadText(ps: seq<Piece>): bytes {
    if ps == [] || ps[0].Frame? then [] else ps[0].text + LeadText(ps[1..])
  }

  /** Frames are writable and no stretch of text between frames contains the magic. */
  predicate Clean(ps: seq<Piece>)
    ensures Clean(ps) ==> forall p | p in ps :: Writable(p)
  {
    ps == [] || (Writable(ps[0]) && !Contains(LeadText(ps), MAGIC) && Clean(ps[1..]))
  }

  /** The pieces with the times a reader sees: never earlier than the piece before. */
  function Expected(ps: seq<Piece>, last: int): seq<Timed> {
    if ps == [] then []
    else
      match ps[0]
      case Text(text) => (if text == [] then [] else [Timed(last, text)]) + Expected(ps[1..], last)
      case Frame(nanos, payload) =>
        [Timed(Max(nanos, last), payload)] + Expected(ps[1..], Max(nanos, last))
  }

  function Keep(p: Piece, rest: Option<seq<Piece>>): Option<seq<Piece>> {
    match rest
    case None => None
    case Some(qs) => Some([p] + qs)
  }

  /** What is left of the pieces when only `k` bytes of their encoding arrived; nothing if the cut leaves
      a header whose magic is complete but whose fields are not. */
  function Survives(ps: seq<Piece>, k: nat): Option<seq<Piece>>
    requires Clean(ps)
  {
    if ps == [] then Some([])
    else
      var size := |EncodePiece(ps[0])|;
      if k >= size then
        Keep(ps[0], Survives(ps[1..], k - size))
      else
        match ps[0]
        case Text(text) => Some([Text(text[..k])])
        case Frame(nanos, payload) =>
          if k == 0 then Some([])
          else if k < |MAGIC| then Some([Text(MAGIC[..k])])
          else if k < |MAGIC| + HEADER_LEN then None
          else Some([Frame(nanos, payload[..k - (|MAGIC| + HEADER_LEN)])])
  }

  // ---- the magic has no self-overlap

  lemma ContainsAt(s: bytes, i: int)
    requires MatchAt(s, MAGIC, i)
    ensures Contains(s, MAGIC)
  {}

  /** Text free of the magic hides no match that runs into a magic, whole or cut, following it. */
  lemma MagicHasNoBorder(text: bytes, tail: bytes, k: int)
    requires !Contains(text, MAGIC)
    requires tail <= MAGIC || MAGIC <= tail
    requires 0 <= k < |text| && k <= |text + tail| - |MAGIC|
    ensures !MatchAt(text + tail, MAGIC, k)
  {
    if k + |MAGIC| <= |text| {
      MatchAtPrefix(text, tail, MAGIC, k);
    } else {
      var d := |text| - k;
      assert (text + tail)[k..k + |MAGIC|][3] == tail[3 - d] == MAGIC[3 - d] != MAGIC[3];
    }
  }

  lemma MagicFoundAfterText(text: bytes, tail: bytes)
    requires !Contains(text, MAGIC) && MAGIC <= tail
    ensures Index(text + tail, MAGIC) == Some(|text|)
  {
    MatchAtSuffix(text, tail, MAGIC, 0);
    assert MatchAt(tail, MAGIC, 0);
    forall k | 0 <= k < |text| ensures !MatchAt(text + tail, MAGIC, k) {
      MagicHasNoBorder(text, tail, k);
    }
  }

  lemma CutMagicStaysText(text: bytes, k: nat)
    requires !Contains(text, MAGIC) && k < |MAGIC|
    ensures !Contains(text + MAGIC[..k], MAGIC)
  {
    var s := text + MAGIC[..k];
    if Contains(s, MAGIC) {
      var i :| 0 <= i <= |s| && MatchAt(s, MAGIC, i);
      assert i < |text|;
      MagicHasNoBorder(text, MAGIC[..k], i);
    }
  }

  lemma PrefixStaysMagicFree(text: bytes, more: bytes)
    requires !Contains(text + more, MAGIC)
    ensures !Contains(text, MAGIC)
  {
    if Contains(text, MAGIC) {
      var i :| 0 <= i <= |text| && MatchAt(text, MAGIC, i);
      MatchAtPrefix(text, more, MAGIC, i);
      ContainsAt(text + more, i);
    }
  }

  // ---- one step of the decoder on encoded input

  lemma HeaderFields(nanos: int, size: nat, rest: bytes)
    requires IsInt64(nanos) && size < 0x1_0000_0000
    ensures HeaderTime(EncodeHeader(nanos, size) + rest) == nanos
    ensures HeaderSize(EncodeHeader(nanos, size) + rest) == size
  {
    WordSizes();
    var t := ToBigEndian(FromInt64(nanos), TIME_LEN);
    var n := ToBigEndian(size, SIZE_LEN);
    var s := EncodeHeader(nanos, size) + rest;
    assert s[|MAGIC|..|MAGIC| + TIME_LEN] == t;
    assert s[|MAGIC| + TIME_LEN..|MAGIC| + HEADER_LEN] == n;
    BigEndianRoundTrip(FromInt64(nanos), TIME_LEN);
    BigEndianRoundTrip(size, SIZE_LEN);
  }

  lemma ScanWholeHeader(s: bytes, last: int)
    requires MAGIC <= s && |s| >= |MAGIC| + HEADER_LEN
    ensures var body := |MAGIC| + HEADER_LEN;
      var t := Max(HeaderTime(s), last);
      var end := Min(body + HeaderSize(s), |s|);
      Scan(s, last) == Prepend(Timed(t, s[body..end]), Scan(s[end..], t))
  {
    assert Scan(s, last) == ScanHeader(s, last);
  }

  /** Reading a frame whose payload arrived up to `got`; a cut payload must be the end of the stream. */
  lemma ScanFrame(nanos: int, payload: bytes, got: nat, rest: bytes, last: int)
    requires Writable(Frame(nanos, payload)) && got <= |payload|
    requires got < |payload| ==> rest == []
    ensures Scan(EncodeHeader(nanos, |payload|) + payload[..got] + rest, last)
      == Prepend(Timed(Max(nanos, last), payload[..got]), Scan(rest, Max(nanos, last)))
  {
    var h := EncodeHeader(nanos, |payload|);
    ThreeParts(h, payload[..got], rest);
    HeaderFields(nanos, |payload|, payload[..got] + rest);
    hide Scan, ScanHeader, HeaderTime, HeaderSize, EncodeHeader;
    ScanWholeHeader(h + payload[..got] + rest, last);
  }

  /** Events so far, with the text waiting to be delivered. */
  function AddText(es: seq<Timed>, last: int, text: bytes): seq<Timed> {
    if text == [] then es else AddEvent(es, Timed(last, text))
  }

  lemma AddTextTwice(es: seq<Timed>, last: int, a: bytes, b: bytes)
    ensures AddText(AddText(es, last, a), last, b) == AddText(es, last, a + b)
  {
    if a == [] {
      assert a + b == b;
    } else if b == [] {
      assert a + b == a;
    } else {
      var k := |es| - 1;
      if es != [] && es[k].time == last {
        assert es[k].msg + a + b == es[k].msg + (a + b);
      }
    }
  }

  lemma PrefixIsMatch(s: bytes)
    ensures MAGIC <= s <==> MatchAt(s, MAGIC, 0)
  {
    assert |MAGIC| <= |s| ==> s[0..0 + |MAGIC|] == s[..|MAGIC|];
    assert MAGIC <= s ==> s[..|MAGIC|] == MAGIC;
  }

  lemma ScanText(es: seq<Timed>, text: bytes, last: int)
    requires !Contains(text, MAGIC)
    ensures Finish(es, Scan(text, last)) == Ok(AddText(es, last, text))
  {
    if text != [] {
      PrefixIsMatch(text);
      var c := Timed(last, text);
      assert CoalesceOnto(es, [c]) == CoalesceOnto(AddEvent(es, c), [c][1..]);
      assert [c][1..] == [];
    }
  }

  lemma ScanTextThenHeader(es: seq<Timed>, text: bytes, s: bytes, last: int)
    requires !Contains(text, MAGIC) && MAGIC <= s
    ensures Finish(es, Scan(text + s, last)) == Finish(AddText(es, last, text), Scan(s, last))
  {
    if text == [] {
      assert text + s == s;
    } else {
      MagicFoundAfterText(text, s);
      PrefixIsMatch(text + s);
      assert (text + s)[..|text|] == text && (text + s)[|text|..] == s;
      FinishPrepend(es, Timed(last, text), Scan(s, last));
    }
  }

  // ---- the theorems

  /** Pieces read after the events `es`, if any survive. */
  function Delivered(es: seq<Timed>, survivors: Option<seq<Piece>>, last: int): Decoded {
    match survivors
    case None => ShortHeader
    case Some(qs) => Ok(CoalesceOnto(es, Expected(qs, last)))
  }

  lemma DeliveredText(es: seq<Timed>, t: bytes, rest: Option<seq<Piece>>, last: int)
    ensures Delivered(es, Keep(Text(t), rest), last) == Delivered(AddText(es, last, t), rest, last)
  {
    if rest.Some? {
      assert ([Text(t)] + rest.value)[1..] == rest.value;
      var tail := Expected(rest.value, last);
      assert [] + tail == tail;
      assert ([Timed(last, t)] + tail)[1..] == tail;
    }
  }

  lemma DeliveredFrame(es: seq<Timed>, nanos: int, payload: bytes, rest: Option<seq<Piece>>, last: int)
    ensures Delivered(es, Keep(Frame(nanos, payload), rest), last)
      == Delivered(AddEvent(es, Timed(Max(nanos, last), payload)), rest, Max(nanos, last))
  {
    if rest.Some? {
      assert ([Frame(nanos, payload)] + rest.value)[1..] == rest.value;
      var tail := Expected(rest.value, Max(nanos, last));
      assert ([Timed(Max(nanos, last), payload)] + tail)[1..] == tail;
    }
  }

  lemma DecodeCutText(es: seq<Timed>, text: bytes, cut: bytes, last: int)
    requires !Contains(text + cut, MAGIC)
    ensures Finish(es, Scan(text + cut, last)) == Delivered(AddText(es, last, text), Some([Text(cut)]), last)
  {
    ScanText(es, text + cut, last);
    AddTextTwice(es, last, text, cut);
    assert [Text(cut)] == [Text(cut)] + [];
    DeliveredText(AddText(es, last, text), cut, Some([]), last);
  }

  /** A frame at the end of the input, of which `got` payload bytes arrived. */
  lemma DecodeCutFrame(es: seq<Timed>, nanos: int, payload: bytes, got: nat, last: int)
    requires Writable(Frame(nanos, payload)) && got <= |payload|
    ensures Finish(es, Scan(EncodeHeader(nanos, |payload|) + payload[..got], last))
      == Delivered(es, Some([Frame(nanos, payload[..got])]), last)
  {
    var s := EncodeHeader(nanos, |payload|) + payload[..got];
    assert s + [] == s;
    ScanFrame(nanos, payload, got, [], last);
    FinishPrepend(es, Timed(Max(nanos, last), payload[..got]), Scan([], Max(nanos, last)));
    assert [Frame(nanos, payload[..got])] == [Frame(nanos, payload[..got])] + [];
    DeliveredFrame(es, nanos, payload[..got], Some([]), last);
  }

  lemma DecodeWholeFrame(es: seq<Timed>, nanos: int, payload: bytes, more: bytes, last: int)
    requires Writable(Frame(nanos, payload))
    ensures Finish(es, Scan(EncodeHeader(nanos, |payload|) + payload + more, last))
      == Finish(AddEvent(es, Timed(Max(nanos, last), payload)), Scan(more, Max(nanos, last)))
  {
    assert payload[..|payload|] == payload;
    ScanFrame(nanos, payload, |payload|, more, last);
    FinishPrepend(es, Timed(Max(nanos, last), payload), Scan(more, Max(nanos, last)));
  }

  lemma SplitText(text: bytes, t: bytes, more: bytes, k: nat)
    requires k <= |t + more|
    ensures k < |t| ==> (t + more)[..k] == t[..k]
    ensures k >= |t| ==> text + (t + more)[..k] == (text + t) + more[..k - |t|]
  {}

  lemma SplitFrame(head: bytes, payload: bytes, more: bytes, k: nat)
    requires k <= |head + payload + more|
    ensures k <= |head| ==> (head + payload + more)[..k] == head[..k]
    ensures |head| <= k < |head| + |payload| ==> (head + payload + more)[..k] == head + payload[..k - |head|]
    ensures k >= |head| + |payload| ==>
      (head + payload + more)[..k] == head + payload + more[..k - |head| - |payload|]
  {}

  lemma TextStaysMagicFree(text: bytes, ps: seq<Piece>, k: nat)
    requires ps != [] && ps[0].Text? && !Contains(text + LeadText(ps), MAGIC)
    ensures !Contains((text + ps[0].text) + LeadText(ps[1..]), MAGIC)
    ensures k <= |ps[0].text| ==> !Contains(text + ps[0].text[..k], MAGIC)
  {
    var t, lead := ps[0].text, LeadText(ps[1..]);
    assert LeadText(ps) == t + lead;
    hide LeadText, Contains;
    Assoc(text, t, lead);
    if k <= |t| {
      assert t == t[..k] + t[k..];
      Assoc(t[..k], t[k..], lead);
      Assoc(text, t[..k], t[k..] + lead);
      PrefixStaysMagicFree(text + t[..k], t[k..] + lead);
    }
  }

  /** Decoding the first `k` bytes of an encoding, with `text` read but not yet delivered. */
  lemma {:induction false} DecodePrefix(es: seq<Timed>, text: bytes, ps: seq<Piece>, k: nat, last: int)
    requires Clean(ps) && k <= |Encode(ps)|
    requires !Contains(text + LeadText(ps), MAGIC)
    ensures Finish(es, Scan(text + Encode(ps)[..k], last)) == Delivered(AddText(es, last, text), Survives(ps, k), last)
    decreases |ps|, 2
  {
    PrefixStaysMagicFree(text, LeadText(ps));
    if ps == [] {
      assert text + Encode(ps)[..k] == text;
      ScanText(es, text, last);
    } else if ps[0].Text? {
      DecodePrefixOfText(es, text, ps, k, last);
    } else {
      DecodePrefixOfFrame(es, text, ps, k, last);
    }
  }

  lemma {:induction false} DecodePrefixOfText(es: seq<Timed>, text: bytes, ps: seq<Piece>, k: nat, last: int)
    requires Clean(ps) && k <= |Encode(ps)| && ps != [] && ps[0].Text?
    requires !Contains(text + LeadText(ps), MAGIC)
    ensures Finish(es, Scan(text + Encode(ps)[..k], last)) == Delivered(AddText(es, last, text), Survives(ps, k), last)
    decreases |ps|, 1
  {
    var t, rest := ps[0].text, ps[1..];
    SplitText(text, t, Encode(rest), k);
    TextStaysMagicFree(text, ps, k);
    if k < |t| {
      DecodeCutText(es, text, t[..k], last);
    } else {
      DecodePrefix(es, text + t, rest, k - |t|, last);
      AddTextTwice(es, last, text, t);
      DeliveredText(AddText(es, last, text), t, Survives(rest, k - |t|), last);
    }
  }

  lemma EmptyText(es: seq<Timed>, t: bytes, last: int)
    ensures t == [] ==> Delivered(es, Some([Text(t)]), last) == Delivered(es, Some([]), last)
  {
    assert [Text(t)] == [Text(t)] + [];
    DeliveredText(es, t, Some([]), last);
  }

  lemma FrameStart(ps: seq<Piece>, k: nat)
    requires Clean(ps) && k <= |Encode(ps)| && ps != [] && ps[0].Frame?
    ensures if k < |MAGIC| then Encode(ps)[..k] == MAGIC[..k] else MAGIC <= Encode(ps)[..k]
  {
    SplitFrame(EncodeHeader(ps[0].nanos, |ps[0].payload|), ps[0].payload, Encode(ps[1..]), Min(k, |MAGIC|));
    assert MAGIC <= Encode(ps);
  }

  lemma {:induction false} DecodePrefixOfFrame(es: seq<Timed>, text: bytes, ps: seq<Piece>, k: nat, last: int)
    requires Clean(ps) && k <= |Encode(ps)| && ps != [] && ps[0].Frame?
    requires !Contains(text, MAGIC)
    ensures Finish(es, Scan(text + Encode(ps)[..k], last)) == Delivered(AddText(es, last, text), Survives(ps, k), last)
    decreases |ps|, 1
  {
    FrameStart(ps, k);
    if k < |MAGIC| {
      CutMagicStaysText(text, k);
      DecodeCutText(es, text, MAGIC[..k], last);
      EmptyText(AddText(es, last, text), MAGIC[..k], last);
      assert |EncodePiece(ps[0])| > k;
    } else {
      ScanTextThenHeader(es, text, Encode(ps)[..k], last);
      DecodeAtFrame(AddText(es, last, text), ps, k, last);
    }
  }

  lemma {:induction false} DecodeAtFrame(es: seq<Timed>, ps: seq<Piece>, k: nat, last: int)
    requires Clean(ps) && |MAGIC| <= k <= |Encode(ps)| && ps != [] && ps[0].Frame?
    ensures Finish(es, Scan(Encode(ps)[..k], last)) == Delivered(es, Survives(ps, k), last)
    decreases |ps|, 0
  {
    var Frame(nanos, payload) := ps[0];
    var rest, head := ps[1..], EncodeHeader(nanos, |payload|);
    SplitFrame(head, payload, Encode(rest), k);
    if k < |head| {
      FrameStart(ps, k);
    } else if k < |head| + |payload| {
      DecodeCutFrame(es, nanos, payload, k - |head|, last);
    } else {
      var left := k - |head| - |payload|;
      DecodeWholeFrame(es, nanos, payload, Encode(rest)[..left], last);
      DecodeAfterFrame(AddEvent(es, Timed(Max(nanos, last), payload)), rest, left, Max(nanos, last));
      DeliveredFrame(es, nanos, payload, Survives(rest, left), last);
    }
  }

  lemma {:induction false} DecodeAfterFrame(es: seq<Timed>, ps: seq<Piece>, k: nat, last: int)
    requires Clean(ps) && k <= |Encode(ps)|
    ensures Finish(es, Scan(Encode(ps)[..k], last)) == Delivered(es, Survives(ps, k), last)
    decreases |ps|, 3
  {
    var s := Encode(ps)[..k];
    assert [] + s == s && [] + LeadText(ps) == LeadText(ps);
    DecodePrefix(es, [], ps, k, last);
  }

  /** Truncation: the first `k` bytes of a stream decode to what survives of it, and to an error exactly
      when the cut falls inside the fields of a header. */
  lemma Truncation(ps: seq<Piece>, k: nat)
    requires Clean(ps) && k <= |Encode(ps)|
    ensures Decode(Encode(ps)[..k])
      == match Survives(ps, k)
         case None => ShortHeader
         case Some(qs) => Ok(Coalesce(Expected(qs, EPOCH)))
  {
    DecodeAfterFrame([], ps, k, EPOCH);
  }

  lemma {:induction false} AllSurvive(ps: seq<Piece>)
    requires Clean(ps)
    ensures Survives(ps, |Encode(ps)|) == Some(ps)
  {
    if ps != [] {
      AllSurvive(ps[1..]);
      assert ps == [ps[0]] + ps[1..];
    }
  }

  /** Round trip: decoding what was written returns the pieces, in order, with times clamped to the
      running maximum and equal-time neighbours joined. */
  lemma RoundTrip(ps: seq<Piece>)
    requires Clean(ps)
    ensures Decode(Encode(ps)) == Ok(Coalesce(Expected(ps, EPOCH)))
  {
    AllSurvive(ps);
    assert Encode(ps)[..|Encode(ps)|] == Encode(ps);
    Truncation(ps, |Encode(ps)|);
  }

  /** Output without headers, of a program that knows nothing of them, is one event at the beginning of time, in
      November 2009. */
  lemma PlainText(text: bytes)
    requires text != [] && !Contains(text, [0, 0, 80, 66])
    ensures Decode(text) == Ok([Timed(1257894000_000000000, text)])
  {
    ScanText([], text, EPOCH);
  }

  // ---- the theorems cover every input: any byte string is a prefix of some encoding

  /** Pieces whose encoding starts with `s`; whatever the cut removed is filled with zeros. */
  function Complete(s: bytes): seq<Piece>
    decreases |s|, 1
  {
    if s == [] then []
    else if MAGIC <= s then CompleteFrame(s)
    else
      match Index(s, MAGIC)
      case None => [Text(s)]
      case Some(j) => [Text(s[..j])] + CompleteFrame(s[j..])
  }

  function Padded(got: bytes, size: nat): (payload: bytes)
    requires |got| <= size
    ensures |payload| == size && got <= payload
  {
    got + Zeros(size - |got|)
  }

  function CompleteFrame(s: bytes): seq<Piece>
    requires MAGIC <= s
    decreases |s|, 0
  {
    var body := |MAGIC| + HEADER_LEN;
    if |s| < body then
      var h := s + Zeros(body - |s|);
      [Frame(HeaderTime(h), Zeros(HeaderSize(h)))]
    else
      var end := Min(body + HeaderSize(s), |s|);
      [Frame(HeaderTime(s), Padded(s[body..end], HeaderSize(s)))] + Complete(s[end..])
  }

  lemma HeaderIsEncoded(h: bytes)
    requires MAGIC <= h && |h| == |MAGIC| + HEADER_LEN
    ensures IsInt64(HeaderTime(h)) && HeaderSize(h) < 0x1_0000_0000
    ensures EncodeHeader(HeaderTime(h), HeaderSize(h)) == h
  {
    WordSizes();
    var t, n := h[|MAGIC|..|MAGIC| + TIME_LEN], h[|MAGIC| + TIME_LEN..|MAGIC| + HEADER_LEN];
    FromBigEndianIsInt64(t);
    BigEndianIsOnto(t);
    BigEndianIsOnto(n);
    assert h == MAGIC + t + n;
  }

  lemma TextBeforeMagic(s: bytes)
    ensures Index(s, MAGIC).Some? ==> !Contains(s[..Index(s, MAGIC).value], MAGIC)
    ensures Index(s, MAGIC).Some? ==> MAGIC <= s[Index(s, MAGIC).value..]
  {
    if Index(s, MAGIC).Some? {
      var j := Index(s, MAGIC).value;
      assert s == s[..j] + s[j..];
      forall i | 0 <= i <= |s[..j]| ensures !MatchAt(s[..j], MAGIC, i) {
        if i <= j - |MAGIC| { MatchAtPrefix(s[..j], s[j..], MAGIC, i); }
      }
      MatchAtSuffix(s[..j], s[j..], MAGIC, 0);
      PrefixIsMatch(s[j..]);
    }
  }

  lemma CleanCons(p: Piece, ps: seq<Piece>)
    requires Clean(ps) && Writable(p)
    requires p.Text? ==> !Contains(p.text, MAGIC) && (ps == [] || ps[0].Frame?)
    ensures Clean([p] + ps) && Encode([p] + ps) == EncodePiece(p) + Encode(ps)
  {
    assert ([p] + ps)[1..] == ps;
    assert p.Text? ==> LeadText([p] + ps) == p.text + [] == p.text;
  }

  lemma PaddedPrefix(h: bytes, got: bytes, size: nat, left: bytes, more: bytes)
    requires |got| <= size && left <= more && (|got| < size ==> left == [])
    ensures h + got + left <= h + Padded(got, size) + more
  {
    if |got| == size {
      assert Padded(got, size) == got;
    } else {
      assert h + got + left == (h + Padded(got, size) + more)[..|h| + |got|];
    }
  }

  lemma CompletedText(text: bytes, left: bytes, rest: seq<Piece>)
    requires !Contains(text, MAGIC) && Clean(rest) && rest != [] && rest[0].Frame?
    requires left <= Encode(rest)
    ensures Clean([Text(text)] + rest) && text + left <= Encode([Text(text)] + rest)
  {
    CleanCons(Text(text), rest);
    PaddedPrefix([], text, |text|, left, Encode(rest));
    assert [] + text == text == Padded(text, |text|);
  }

  lemma {:induction false} CompleteIsCompletion(s: bytes)
    ensures Clean(Complete(s)) && s <= Encode(Complete(s))
    decreases |s|, 1
  {
    hide Encode, HeaderSize, HeaderTime, CompleteFrame;
    if s == [] {
    } else if MAGIC <= s {
      CompleteFrameIsCompletion(s);
    } else {
      match Index(s, MAGIC)
      case None =>
        CleanCons(Text(s), []);
        assert [Text(s)] == [Text(s)] + [];
      case Some(j) =>
        TextBeforeMagic(s);
        CompleteFrameIsCompletion(s[j..]);
        CompletedText(s[..j], s[j..], CompleteFrame(s[j..]));
        assert s == s[..j] + s[j..];
    }
  }

  lemma HeaderOfPrefix(s: bytes)
    requires |s| >= |MAGIC| + HEADER_LEN
    ensures var h := s[..|MAGIC| + HEADER_LEN];
      HeaderTime(s) == HeaderTime(h) && HeaderSize(s) == HeaderSize(h)
  {
    SameSlice(s, s[..|MAGIC| + HEADER_LEN], |MAGIC| + HEADER_LEN, |MAGIC|, |MAGIC| + TIME_LEN);
    SameSlice(s, s[..|MAGIC| + HEADER_LEN], |MAGIC| + HEADER_LEN, |MAGIC| + TIME_LEN, |MAGIC| + HEADER_LEN);
  }

  lemma WholeHeaderCompletion(s: bytes, rest: seq<Piece>)
    requires MAGIC <= s && |s| >= |MAGIC| + HEADER_LEN
    requires Clean(rest) && s[Min(|MAGIC| + HEADER_LEN + HeaderSize(s), |s|)..] <= Encode(rest)
    ensures var body := |MAGIC| + HEADER_LEN;
      var end := Min(body + HeaderSize(s), |s|);
      var ps := [Frame(HeaderTime(s), Padded(s[body..end], HeaderSize(s)))] + rest;
      Clean(ps) && s <= Encode(ps)
  {
    var body := |MAGIC| + HEADER_LEN;
    var h := s[..body];
    HeaderIsEncoded(h);
    HeaderOfPrefix(s);
    hide HeaderTime, HeaderSize, EncodeHeader, Padded, Encode, Clean, Contains;
    var end := Min(body + HeaderSize(s), |s|);
    var payload := Padded(s[body..end], HeaderSize(s));
    CleanCons(Frame(HeaderTime(s), payload), rest);
    assert EncodePiece(Frame(HeaderTime(s), payload)) == h + payload;
    CutInThree(s, body, end);
    PaddedPrefix(h, s[body..end], HeaderSize(s), s[end..], Encode(rest));
  }

  lemma {:induction false} CompleteFrameIsCompletion(s: bytes)
    requires MAGIC <= s
    ensures Clean(CompleteFrame(s)) && CompleteFrame(s) != [] && CompleteFrame(s)[0].Frame?
    ensures s <= Encode(CompleteFrame(s))
    decreases |s|, 0
  {
    var body := |MAGIC| + HEADER_LEN;
    if |s| < body {
      var h := s + Zeros(body - |s|);
      HeaderIsEncoded(h);
      CleanCons(Frame(HeaderTime(h), Zeros(HeaderSize(h))), []);
      assert CompleteFrame(s) == [Frame(HeaderTime(h), Zeros(HeaderSize(h)))] + [];
    } else {
      var end := Min(body + HeaderSize(s), |s|);
      CompleteIsCompletion(s[end..]);
      WholeHeaderCompletion(s, Complete(s[end..]));
    }
  }

  /** Decoding any input at all returns the surviving pieces of some stream that continues it. */
  lemma DecodeOfAnyInput(s: bytes)
    ensures exists ps :: Clean(ps) && s <= Encode(ps) && Decode(s) == Delivered([], Survives(ps, |s|), EPOCH)
  {
    CompleteIsCompletion(s);
    var ps := Complete(s);
    assert Encode(ps)[..|s|] == s;
    Truncation(ps, |s|);
  }
}
