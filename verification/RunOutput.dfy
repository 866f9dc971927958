/**
 The reply to a run request, from the two copied output streams and the result of waiting. Program output is
 sent complete or not at all.
 */
module RunOutput {
  import opened Bytes
  import opened OutputWriters

  /** "golang-gvisor-process-started" and a newline. */
  const START_MESSAGE: bytes := [
    103, 111, 108, 97, 110, 103, 45, 103, 118, 105, 115, 111, 114, 45, 112, 114, 111, 99, 101, 115, 115, 45,
    115, 116, 97, 114, 116, 101, 100, 10]

  /** "golang-gvisor-process-got-input" and a newline. */
  const STDERR_HEADER: bytes := [
    103, 111, 108, 97, 110, 103, 45, 103, 118, 105, 115, 111, 114, 45, 112, 114, 111, 99, 101, 115, 115, 45,
    103, 111, 116, 45, 105, 110, 112, 117, 116, 10]

  const MAX_OUTPUT := 104857600
  const STDOUT_CAP := MAX_OUTPUT + |START_MESSAGE|
  const STDERR_CAP := MAX_OUTPUT

  /** Drops everything through the header line, which the container writes before the program starts. */
  function CleanStderr(x: bytes): bytes {
    match Index(x, STDERR_HEADER)
    case None => x
    case Some(i) => x[i + |STDERR_HEADER|..]
  }

  /** The two lines, as text. */
  lemma LinesAreText()
    ensures |START_MESSAGE| == |"golang-gvisor-process-started\n"|
    ensures forall i :: 0 <= i < 30 ==> START_MESSAGE[i] == "golang-gvisor-process-started\n"[i] as int
    ensures |STDERR_HEADER| == |"golang-gvisor-process-got-input\n"|
    ensures forall i :: 0 <= i < 32 ==> STDERR_HEADER[i] == "golang-gvisor-process-got-input\n"[i] as int
  {}

  /** The header is one line. */
  lemma HeaderIsOneLine()
    ensures |START_MESSAGE| == 30 && |STDERR_HEADER| == 32
    ensures STDERR_HEADER[31] == NL && forall j :: 0 <= j < 31 ==> STDERR_HEADER[j] != NL
  {}

  /** No match of the header begins in front of a header: its newline would have to be inside that one. */
  lemma NoHeaderAcross(spam: bytes, program: bytes, k: nat)
    requires !Contains(spam, STDERR_HEADER) && k < |spam|
    ensures !MatchAt(spam + STDERR_HEADER + program, STDERR_HEADER, k)
  {
    HeaderIsOneLine();
    var h := STDERR_HEADER;
    var x := spam + h + program;
    if k + 32 <= |spam| {
      Assoc(spam, h, program);
      MatchAtPrefix(spam, h + program, h, k);
      assert !MatchAt(spam, h, k);
    } else {
      assert x[k + 31] == h[k + 31 - |spam|];
      NoMatch(x, h, k, 31);
    }
  }

  /** The header separates what the container wrote from what the program wrote, also if the program
      writes it again. */
  lemma CleanStderrKeepsProgram(spam: bytes, program: bytes)
    requires !Contains(spam, STDERR_HEADER)
    ensures CleanStderr(spam + STDERR_HEADER + program) == program
  {
    hide Index, IndexFrom;
    var h := STDERR_HEADER;
    var x := spam + h + program;
    assert x[|spam|..|spam| + |h|] == h;
    forall k | 0 <= k < |spam| ensures !MatchAt(x, h, k) {
      NoHeaderAcross(spam, program, k);
    }
    IndexIs(x, h, |spam|);
  }

  // ---- copying a stream into a writer

  lemma {:induction false} ConcatSplit(chunks: seq<bytes>, i: nat)
    requires i < |chunks|
    ensures Concat(chunks[..i + 1]) == Concat(chunks[..i]) + chunks[i]
  {
    if i == 0 {
      assert chunks[..1] == [chunks[0]] && chunks[..1][1..] == [];
    } else {
      assert chunks[..i + 1][1..] == chunks[1..][..i] && chunks[..i][1..] == chunks[1..][..i - 1];
      ConcatSplit(chunks[1..], i - 1);
    }
  }

  lemma {:induction false} ConcatPrefix(chunks: seq<bytes>, i: nat)
    requires i <= |chunks|
    ensures Concat(chunks[..i]) <= Concat(chunks)
    decreases |chunks| - i
  {
    if i == |chunks| {
      assert chunks[..i] == chunks;
    } else {
      ConcatSplit(chunks, i);
      ConcatPrefix(chunks, i + 1);
    }
  }

  /** Copies standard error, one read at a time, until a write fails. Empty reads are not written. */
  method CopyStderr(w: LimitedWriter, chunks: seq<bytes>) returns (failed: bool)
    requires w.Valid() && w.offered == [] && w.cap > 0
    modifies w
    ensures w.Valid() && w.offered <= Concat(chunks)
    ensures failed <==> w.n < 0
    ensures failed <==> |Concat(chunks)| > w.cap
    ensures !failed ==> w.offered == Concat(chunks)
  {
    for i := 0 to |chunks|
      invariant w.Valid() && w.n >= 0
      invariant w.offered == Concat(chunks[..i])
    {
      ConcatSplit(chunks, i);
      if chunks[i] != [] {
        var _, refused := w.Write(chunks[i]);
        failed := refused;
        if failed {
          ConcatPrefix(chunks, i + 1);
          return;
        }
      }
    }
    assert chunks[..|chunks|] == chunks;
    failed := false;
  }

  lemma PastMarkGrows(s: bytes, whole: bytes, mark: bytes)
    requires s <= whole
    ensures |PastMark(s, mark)| <= |PastMark(whole, mark)|
  {
    hide Index, IndexFrom;
    if Index(s, mark).Some? {
      assert whole == s + whole[|s|..];
      SplitOfAppended(s, whole[|s|..], mark);
    }
  }

  /** What a write adds for the second destination: nothing before the mark, everything after it. */
  lemma OfferedAfter(s: bytes, p: bytes, mark: bytes)
    ensures Unmarked(s, mark) ==> PastMark(s, mark) == []
    ensures Unmarked(s + p, mark) ==> PastMark(s + p, mark) == []
    ensures Index(s, mark).Some? ==> PastMark(s + p, mark) == PastMark(s, mark) + p
  {
    hide IndexFrom, Index;
    if Index(s, mark).Some? {
      SplitOfAppended(s, p, mark);
    }
  }

  /** Copies standard output; only what follows the start message counts against the cap. */
  method CopyStdout(w: SwitchWriter, chunks: seq<bytes>) returns (failed: bool)
    requires w.Valid() && !w.broken && w.stream == [] && w.dst1.open && w.dst2.cap > 0
    modifies w, w.dst1`data, w.dst2
    ensures w.Valid() && !w.broken
    ensures failed <==> w.dst2.n < 0
    ensures failed <==> |PastMark(Concat(chunks), w.mark)| > w.dst2.cap
    ensures !failed ==> w.stream == Concat(chunks)
  {
    hide PastMark, UpTo, Index, IndexFrom, Carry;
    EmptyStream(w.mark);
    for i := 0 to |chunks|
      invariant w.Valid() && !w.broken && w.dst2.n >= 0
      invariant w.stream == Concat(chunks[..i])
    {
      ConcatSplit(chunks, i);
      ConcatPrefix(chunks, i + 1);
      if chunks[i] != [] {
        PastMarkGrows(Concat(chunks[..i + 1]), Concat(chunks), w.mark);
        OfferedAfter(w.stream, chunks[i], w.mark);
        var _, refused := w.Write(chunks[i]);
        failed := refused;
        if failed {
          return;
        }
      }
    }
    assert chunks[..|chunks|] == chunks;
    failed := false;
  }

  // ---- the reply

  /** What waiting for the container's process reported. */
  datatype WaitResult = Success | ExitError(code: int) | OtherError

  datatype Reply =
    | TimedOut
    | TooMuchOutput
    | ServerError
    | Response(stdout: bytes, stderr: bytes, exitCode: int)

  /** The end of the run handler, after waiting; `ctxDone` is whether the run's context was done by then. */
  method BuildReply(ctxDone: bool, err: WaitResult, stdout: LimitedWriter, stderr: LimitedWriter)
      returns (r: Reply)
    requires stdout.Valid() && stderr.Valid() && stdout.cap >= 0 && stderr.cap >= 0
    ensures r.TimedOut? <==> ctxDone
    ensures r.Response? && err.ExitError? ==> stdout.dst == stdout.offered && stderr.dst == stderr.offered
    ensures r.Response? ==> err != OtherError && !ctxDone
    ensures r.Response? ==> r.stdout == stdout.dst && r.stderr == CleanStderr(stderr.dst)
    ensures r.Response? ==> r.exitCode == if err.ExitError? then err.code else 0
    ensures r.TooMuchOutput? <==> !ctxDone && err != Success && (stdout.n < 0 || stderr.n < 0)
    ensures r.ServerError? <==> !ctxDone && err == OtherError && stdout.n >= 0 && stderr.n >= 0
  {
    hide Index, IndexFrom, CleanStderr;
    if ctxDone {
      return TimedOut;
    }
    var exitCode := 0;
    if err != Success {
      if stderr.n < 0 || stdout.n < 0 {
        return TooMuchOutput;
      }
      if !err.ExitError? {
        return ServerError;
      }
      exitCode := err.code;
    }
    stdout.CompleteExactly();
    stderr.CompleteExactly();
    r := Response(stdout.dst, CleanStderr(stderr.dst), exitCode);
  }

  /** How waiting for a process combines its exit status with the two copies: a failed status hides a failed
      copy, and success is reported only if both copies finished. */
  function Waited(exitCode: int, copyFailed: bool): WaitResult {
    if exitCode != 0 then ExitError(exitCode)
    else if copyFailed then OtherError
    else Success
  }

  /** The reply to a run that wrote `out` and `err`. */
  function ReplyTo(out: bytes, err: bytes, exitCode: int, ctxDone: bool): Reply {
    if ctxDone then TimedOut
    else if |PastMark(out, START_MESSAGE)| > STDOUT_CAP || |err| > STDERR_CAP then TooMuchOutput
    else Response(PastMark(out, START_MESSAGE), CleanStderr(err), exitCode)
  }

  /** A whole run, however its output was chunked. */
  method Run(outChunks: seq<bytes>, errChunks: seq<bytes>, exitCode: int, ctxDone: bool) returns (r: Reply)
    ensures r == ReplyTo(Concat(outChunks), Concat(errChunks), exitCode, ctxDone)
  {
    hide Index, IndexFrom, PastMark, CleanStderr;
    var stdout := new LimitedWriter(STDOUT_CAP);
    var stderr := new LimitedWriter(STDERR_CAP);
    var pipe := new PipeWriter();
    var switch := new SwitchWriter(START_MESSAGE, pipe, stdout);
    var outFailed := CopyStdout(switch, outChunks);
    var errFailed := CopyStderr(stderr, errChunks);
    stdout.CompleteExactly();
    stderr.CompleteExactly();
    r := BuildReply(ctxDone, Waited(exitCode, outFailed || errFailed), stdout, stderr);
  }

  /** In terms of what the program itself wrote: the reply holds exactly that, or nothing of it. What the
      container writes to standard error before the program starts counts against its cap, the start message
      does not count against the other. */
  lemma ReplyIsProgramOutput(out: bytes, spam: bytes, err: bytes, exitCode: int)
    requires !Contains(spam, STDERR_HEADER)
    ensures ReplyTo(START_MESSAGE + out, spam + STDERR_HEADER + err, exitCode, false) ==
      if |out| > MAX_OUTPUT + 30 || |spam| + 32 + |err| > MAX_OUTPUT then TooMuchOutput
      else Response(out, err, exitCode)
  {
    hide PastMark, CleanStderr;
    HeaderIsOneLine();
    LeadingMark(START_MESSAGE, out);
    CleanStderrKeepsProgram(spam, err);
  }

  lemma NoHeaderInNothing()
    ensures !Contains([], STDERR_HEADER)
  {
    HeaderIsOneLine();
  }

  lemma LoudReply(out: bytes, exitCode: int)
    requires |out| <= MAX_OUTPUT + 30
    ensures ReplyTo(START_MESSAGE + out, STDERR_HEADER, exitCode, false) == Response(out, [], exitCode)
  {
    hide ReplyTo, CleanStderr, PastMark;
    NoHeaderInNothing();
    assert [] + STDERR_HEADER + [] == STDERR_HEADER;
    HeaderIsOneLine();
    ReplyIsProgramOutput(out, [], [], exitCode);
  }

  /** Without the header line, all of standard error is sent. */
  lemma ReplyWithoutHeader(out: bytes, err: bytes, exitCode: int)
    requires !Contains(err, STDERR_HEADER)
    ensures ReplyTo(START_MESSAGE + out, err, exitCode, false) ==
      if |out| > MAX_OUTPUT + 30 || |err| > MAX_OUTPUT then TooMuchOutput else Response(out, err, exitCode)
  {
    hide PastMark;
    HeaderIsOneLine();
    LeadingMark(START_MESSAGE, out);
  }

  /** So a program may write 30 bytes more than the stated maximum to standard output. */
  lemma ThirtyBytesMore(exitCode: int)
    ensures exists out ::
      |out| == MAX_OUTPUT + 30
      && ReplyTo(START_MESSAGE + out, STDERR_HEADER, exitCode, false) == Response(out, [], exitCode)
  {
    LoudReply(Zeros(MAX_OUTPUT + 30), exitCode);
  }
}
