/**
 Waiting for a process that is interrupted when a context is done: two goroutines that meet once on an
 unbuffered channel, racing with the process, the context and a timer. One action is one step of one of them.
 */
module WaitOrStop {
  import opened Bytes

  datatype Cause = Canceled | DeadlineExceeded

  /** Errors by where they come from; `None` stands for nil. */
  datatype Error = FromContext(cause: Cause) | FromSignal(code: int) | FromWait(code: int)

  datatype SignalOutcome = Delivered | AlreadyFinished | Failed(code: int)

  /** The helper goroutine: the statement it is about to take. */
  datatype Helper =
    | Selecting               // offers nil, or sees the context done
    | Signalling
    | SendingNil              // the process had already finished
    | Grace(err: Error)       // offers the context's error until the timer fires
    | Killing(err: Error)
    | Sending(err: Error)
    | HelperDone

  /** The calling goroutine. `Waiting` and `Draining` are inside the command's own wait: before the process
      is reaped, and after it while output is still being collected. */
  datatype Caller =
    | Waiting
    | Draining
    | Receiving(waitErr: Option<Error>)
    | Returned(waitErr: Option<Error>, result: Option<Error>)

  datatype State = State(
    ctx: Option<Cause>,              // why the context is done, if it is
    running: bool,                   // the process has not ended
    helper: Helper,
    caller: Caller,
    signal: Option<SignalOutcome>,   // the outcome of the interrupt, once attempted
    inGrace: bool,                   // the hand-off happened while the timer ran
    elapsed: bool,                   // the timer has fired
    killed: bool,
    sends: nat)                      // values sent to the caller so far

  datatype Action =
    | ContextDone(cause: Cause)
    | ProcessEnds
    | Reap
    | WaitReturns(err: Option<Error>)
    | SeeContextDone
    | SendSignal(outcome: SignalOutcome)
    | TimerFires
    | Kill
    | HandOff

  const INIT := State(None, true, Selecting, Waiting, None, false, false, false, 0)

  predicate Reaped(s: State) { !s.caller.Waiting? }

  predicate Offers(h: Helper) { h.Selecting? || h.SendingNil? || h.Grace? || h.Sending? }

  /** The value the helper offers on the channel. */
  function Offer(s: State): Option<Error>
    requires Offers(s.helper) && (s.helper.Grace? ==> s.ctx.Some?)
  {
    match s.helper
    case Grace(_) => Some(FromContext(s.ctx.value))
    case Sending(err) => Some(err)
    case _ => None
  }

  predicate CanStep(s: State, a: Action) {
    match a
    case ContextDone(_) => s.ctx.None?
    case ProcessEnds => s.running
    case Reap => s.caller.Waiting? && !s.running
    case WaitReturns(err) => s.caller.Draining? && (err.Some? ==> err.value.FromWait?)
    case SeeContextDone => s.helper.Selecting? && s.ctx.Some?
    case SendSignal(outcome) => s.helper.Signalling? && s.ctx.Some? && (outcome.AlreadyFinished? <==> Reaped(s))
    case TimerFires => s.helper.Grace?
    case Kill => s.helper.Killing?
    case HandOff => Offers(s.helper) && (s.helper.Grace? ==> s.ctx.Some?) && s.caller.Receiving?
  }

  function Next(killDelay: int, s: State, a: Action): State
    requires CanStep(s, a)
  {
    match a
    case ContextDone(cause) => s.(ctx := Some(cause))
    case ProcessEnds => s.(running := false)
    case Reap => s.(caller := Draining)
    case WaitReturns(err) => s.(caller := Receiving(err))
    case SeeContextDone => s.(helper := Signalling)
    case SendSignal(outcome) =>
      if outcome.AlreadyFinished? then s.(helper := SendingNil, signal := Some(outcome))
      else
        var err := if outcome.Delivered? then FromContext(s.ctx.value) else FromSignal(outcome.code);
        s.(helper := if killDelay > 0 then Grace(err) else Sending(err), signal := Some(outcome))
    case TimerFires => s.(helper := Killing(s.helper.err), elapsed := true)
    case Kill => s.(helper := Sending(s.helper.err), killed := true)
    case HandOff =>
      var v := Offer(s);
      s.(helper := HelperDone,
         caller := Returned(s.caller.waitErr, if v.Some? then v else s.caller.waitErr),
         inGrace := s.helper.Grace?,
         sends := s.sends + 1)
  }

  predicate IsRun(killDelay: int, s: State, run: seq<Action>)
    decreases |run|
  {
    run == [] || (CanStep(s, run[0]) && IsRun(killDelay, Next(killDelay, s, run[0]), run[1..]))
  }

  function End(killDelay: int, s: State, run: seq<Action>): State
    requires IsRun(killDelay, s, run)
    decreases |run|
  {
    if run == [] then s else End(killDelay, Next(killDelay, s, run[0]), run[1..])
  }

  ghost predicate Reachable(killDelay: int, s: State) {
    exists run :: IsRun(killDelay, INIT, run) && End(killDelay, INIT, run) == s
  }

  // ---- what every step keeps

  /** The interrupt was attempted on a process that had not been reaped. */
  predicate Interrupted(s: State) { s.signal.Some? && !s.signal.value.AlreadyFinished? }

  /** The error that a pending or finished interrupt is attributed to, unless it is handed off in the grace
      period. */
  function Attributed(s: State): Option<Error> {
    if !Interrupted(s) || s.ctx.None? then None
    else if s.signal.value.Delivered? then Some(FromContext(s.ctx.value))
    else Some(FromSignal(s.signal.value.code))
  }

  /** The error a finished call returns. */
  function Verdict(s: State): Option<Error>
    requires s.caller.Returned?
  {
    if !Interrupted(s) then s.caller.waitErr
    else if s.inGrace && s.ctx.Some? then Some(FromContext(s.ctx.value))
    else Attributed(s)
  }

  predicate Inv(killDelay: int, s: State) {
    && (Reaped(s) ==> !s.running)
    && (!s.helper.Selecting? && !s.helper.HelperDone? ==> s.ctx.Some?)
    && (s.signal.Some? ==> s.ctx.Some?)
    && (s.helper.Selecting? || s.helper.Signalling? ==> s.signal.None?)
    && (s.helper.SendingNil? ==> s.signal == Some(AlreadyFinished))
    && (s.signal == Some(AlreadyFinished) ==> Reaped(s))
    && (s.helper.Grace? || s.helper.Killing? || s.helper.Sending? ==>
          Interrupted(s) && Attributed(s) == Some(s.helper.err))
    && (s.helper.Grace? || s.helper.Killing? ==> killDelay > 0)
    && (s.helper.Grace? ==> !s.elapsed)
    && (s.helper.Sending? ==> (killDelay > 0 <==> s.killed))
    && (s.killed || s.helper.Killing? ==> s.elapsed)
    && (s.elapsed ==> killDelay > 0 && Interrupted(s))
    && (s.helper.HelperDone? <==> s.caller.Returned?)
    && s.sends == (if s.caller.Returned? then 1 else 0)
    && (s.inGrace <==> s.caller.Returned? && Interrupted(s) && killDelay > 0 && !s.elapsed)
    && (s.caller.Receiving? || s.caller.Returned? ==>
          s.caller.waitErr.Some? ==> s.caller.waitErr.value.FromWait?)
    && (s.caller.Returned? ==> s.caller.result == Verdict(s))
  }

  lemma StepKeepsInv(killDelay: int, s: State, a: Action)
    requires Inv(killDelay, s) && CanStep(s, a)
    ensures Inv(killDelay, Next(killDelay, s, a))
  {}

  lemma {:induction false} RunKeepsInv(killDelay: int, s: State, run: seq<Action>)
    requires Inv(killDelay, s) && IsRun(killDelay, s, run)
    ensures Inv(killDelay, End(killDelay, s, run))
    decreases |run|
  {
    hide Inv;
    if run != [] {
      StepKeepsInv(killDelay, s, run[0]);
      RunKeepsInv(killDelay, Next(killDelay, s, run[0]), run[1..]);
    }
  }

  lemma ReachableInv(killDelay: int, s: State)
    requires Reachable(killDelay, s)
    ensures Inv(killDelay, s)
  {
    var run :| IsRun(killDelay, INIT, run) && End(killDelay, INIT, run) == s;
    RunKeepsInv(killDelay, INIT, run);
  }

  // ---- safety

  /** The helper hands off exactly once, and when the call has returned it has nothing left to do. */
  lemma HandOffOnce(killDelay: int, s: State)
    requires Reachable(killDelay, s)
    ensures s.sends <= 1
    ensures s.caller.Returned? <==> s.sends == 1
    ensures s.caller.Returned? <==> s.helper.HelperDone?
  {
    ReachableInv(killDelay, s);
  }

  /** Which error is returned: the one from waiting exactly when no interrupt was attempted on a process that
      was still there; otherwise the context's, or the failed interrupt's own unless the hand-off came within
      the grace period. */
  lemma Attribution(killDelay: int, s: State)
    requires Reachable(killDelay, s) && s.caller.Returned?
    ensures (s.caller.result.None? || s.caller.result.value.FromWait?) <==> !Interrupted(s)
    ensures !Interrupted(s) ==> s.caller.result == s.caller.waitErr
    ensures Interrupted(s) ==> s.ctx.Some?
    ensures Interrupted(s) ==>
      if s.signal.value.Failed? && !s.inGrace then s.caller.result == Some(FromSignal(s.signal.value.code))
      else s.caller.result == Some(FromContext(s.ctx.value))
  {
    ReachableInv(killDelay, s);
  }

  /** The process is killed only after an interrupt was attempted on it and a positive delay has passed. */
  lemma KillIsLastResort(killDelay: int, s: State)
    requires Reachable(killDelay, s) && s.killed
    ensures killDelay > 0 && s.elapsed && Interrupted(s) && s.ctx.Some?
  {
    ReachableInv(killDelay, s);
  }

  // ---- outcomes in terms of what happened in the run

  /** What waiting for the process gave, once it has given something. */
  function Waited(c: Caller): Option<Option<Error>> {
    match c
    case Receiving(waitErr) => Some(waitErr)
    case Returned(waitErr, _) => Some(waitErr)
    case _ => None
  }

  lemma StepIsRemembered(killDelay: int, s: State, a: Action)
    requires Inv(killDelay, s) && CanStep(s, a)
    ensures var t := Next(killDelay, s, a);
      && (forall c :: t.ctx == Some(c) <==> s.ctx == Some(c) || a == ContextDone(c))
      && (forall o :: t.signal == Some(o) <==> s.signal == Some(o) || a == SendSignal(o))
      && (forall e :: Waited(t.caller) == Some(e) <==> Waited(s.caller) == Some(e) || a == WaitReturns(e))
      && (t.elapsed <==> s.elapsed || a == TimerFires)
      && (t.killed <==> s.killed || a == Kill)
      && (!t.running <==> !s.running || a == ProcessEnds)
  {}

  /** The state remembers exactly the events of the run. */
  lemma {:induction false} RunIsRemembered(killDelay: int, s: State, run: seq<Action>)
    requires Inv(killDelay, s) && IsRun(killDelay, s, run)
    ensures var t := End(killDelay, s, run);
      && (forall c :: t.ctx == Some(c) <==> s.ctx == Some(c) || ContextDone(c) in run)
      && (forall o :: t.signal == Some(o) <==> s.signal == Some(o) || SendSignal(o) in run)
      && (forall e :: Waited(t.caller) == Some(e) <==> Waited(s.caller) == Some(e) || WaitReturns(e) in run)
      && (t.elapsed <==> s.elapsed || TimerFires in run)
      && (t.killed <==> s.killed || Kill in run)
      && (!t.running <==> !s.running || ProcessEnds in run)
    decreases |run|
  {
    if run != [] {
      StepKeepsInv(killDelay, s, run[0]);
      StepIsRemembered(killDelay, s, run[0]);
      RunIsRemembered(killDelay, Next(killDelay, s, run[0]), run[1..]);
      hide Inv, Next, CanStep;
      assert forall a :: a in run <==> a == run[0] || a in run[1..];
    }
  }

  /** The result of a finished call, from what happened: what waiting gave, unless a signal was sent or failed
      to be sent to a process that was still there; then the reason the context was done, or the signal's own
      failure unless the process was gone before the grace period was over. */
  lemma OutcomeOfRun(killDelay: int, run: seq<Action>)
    requires IsRun(killDelay, INIT, run) && End(killDelay, INIT, run).caller.Returned?
    ensures var result := End(killDelay, INIT, run).caller.result;
      && ((forall o :: SendSignal(o) in run ==> o.AlreadyFinished?) ==> WaitReturns(result) in run)
      && (SendSignal(Delivered) in run ==>
            exists cause :: ContextDone(cause) in run && result == Some(FromContext(cause)))
      && (forall code :: SendSignal(Failed(code)) in run ==>
            if killDelay > 0 && TimerFires !in run
            then exists cause :: ContextDone(cause) in run && result == Some(FromContext(cause))
            else result == Some(FromSignal(code)))
  {
    RunKeepsInv(killDelay, INIT, run);
    RunIsRemembered(killDelay, INIT, run);
    var s := End(killDelay, INIT, run);
    hide IsRun, End;
    assert s.caller.result == Verdict(s);
    if s.ctx.Some? {
      assert ContextDone(s.ctx.value) in run;
    }
    if s.signal.Some? {
      assert SendSignal(s.signal.value) in run;
    }
    assert Waited(s.caller) == Some(s.caller.waitErr);
  }

  lemma {:induction false} RunSnoc(killDelay: int, s: State, run: seq<Action>, a: Action)
    requires IsRun(killDelay, s, run) && CanStep(End(killDelay, s, run), a)
    ensures IsRun(killDelay, s, run + [a])
    ensures End(killDelay, s, run + [a]) == Next(killDelay, End(killDelay, s, run), a)
    decreases |run|
  {
    if run == [] {
      assert [] + [a] == [a] && [a][1..] == [];
    } else {
      RunSnoc(killDelay, Next(killDelay, s, run[0]), run[1..], a);
      assert (run + [a])[1..] == run[1..] + [a];
    }
  }

  lemma ReachNext(killDelay: int, s: State, a: Action) returns (t: State)
    requires Reachable(killDelay, s) && CanStep(s, a)
    ensures t == Next(killDelay, s, a) && Reachable(killDelay, t)
  {
    t := Next(killDelay, s, a);
    var run :| IsRun(killDelay, INIT, run) && End(killDelay, INIT, run) == s;
    RunSnoc(killDelay, INIT, run, a);
  }

  lemma InitIsReachable(killDelay: int)
    ensures Reachable(killDelay, INIT)
  {
    assert IsRun(killDelay, INIT, []) && End(killDelay, INIT, []) == INIT;
  }

  lemma UndisturbedRun(killDelay: int, err: Option<Error>)
    requires err.Some? ==> err.value.FromWait?
    ensures exists s :: Reachable(killDelay, s) && s.caller.Returned? && s.caller.result == err
  {
    InitIsReachable(killDelay);
    var s := ReachNext(killDelay, INIT, ProcessEnds);
    s := ReachNext(killDelay, s, Reap);
    s := ReachNext(killDelay, s, WaitReturns(err));
    s := ReachNext(killDelay, s, HandOff);
    assert s.caller.Returned? && s.caller.result == err;
  }

  /** Once the helper offers its error, the process may end and the call returns that error. */
  lemma FinishedRun(killDelay: int, s: State)
    requires Reachable(killDelay, s) && s.helper.Sending? && s.caller.Waiting? && s.running
    ensures exists t :: Reachable(killDelay, t) && t.caller.Returned? && t.caller.result == Some(s.helper.err)
  {
    var t := ReachNext(killDelay, s, ProcessEnds);
    t := ReachNext(killDelay, t, Reap);
    t := ReachNext(killDelay, t, WaitReturns(None));
    t := ReachNext(killDelay, t, HandOff);
    assert t.caller.Returned? && t.caller.result == Some(s.helper.err);
  }

  lemma SignalledRun(killDelay: int, cause: Cause, outcome: SignalOutcome)
    requires !outcome.AlreadyFinished?
    ensures exists s ::
      Reachable(killDelay, s) && s.caller.Returned?
      && s.caller.result == Some(if outcome.Delivered? then FromContext(cause) else FromSignal(outcome.code))
  {
    InitIsReachable(killDelay);
    var s := ReachNext(killDelay, INIT, ContextDone(cause));
    s := ReachNext(killDelay, s, SeeContextDone);
    s := ReachNext(killDelay, s, SendSignal(outcome));
    if killDelay > 0 {
      s := ReachNext(killDelay, s, TimerFires);
      s := ReachNext(killDelay, s, Kill);
    }
    FinishedRun(killDelay, s);
  }

  /** Each of these results does occur: any error of waiting or none, any reason of the context, and any failure
      to signal. */
  lemma EveryOutcomeOccurs(killDelay: int, result: Option<Error>)
    ensures exists s :: Reachable(killDelay, s) && s.caller.Returned? && s.caller.result == result
  {
    match result
    case Some(FromContext(cause)) =>
      SignalledRun(killDelay, cause, Delivered);
    case Some(FromSignal(code)) =>
      SignalledRun(killDelay, Canceled, Failed(code));
    case _ => UndisturbedRun(killDelay, result);
  }

  /** A process that is gone by the time of the signal leaves the result of waiting alone. */
  lemma LateSignalOccurs(killDelay: int, cause: Cause, err: Option<Error>) returns (s: State)
    requires err.Some? ==> err.value.FromWait?
    ensures Reachable(killDelay, s) && s.caller.Returned? && s.caller.result == err
    ensures s.ctx == Some(cause) && s.signal == Some(AlreadyFinished)
  {
    InitIsReachable(killDelay);
    s := INIT;
    s := ReachNext(killDelay, s, ProcessEnds);
    s := ReachNext(killDelay, s, Reap);
    s := ReachNext(killDelay, s, ContextDone(cause));
    s := ReachNext(killDelay, s, SeeContextDone);
    s := ReachNext(killDelay, s, SendSignal(AlreadyFinished));
    s := ReachNext(killDelay, s, WaitReturns(err));
    s := ReachNext(killDelay, s, HandOff);
  }

  /** A process that ends in the grace period is not killed, and the call returns the context's error even if
      the signal failed. */
  lemma GraceOccurs(killDelay: int, cause: Cause, outcome: SignalOutcome) returns (s: State)
    requires killDelay > 0 && !outcome.AlreadyFinished?
    ensures Reachable(killDelay, s) && s.caller.Returned? && s.caller.result == Some(FromContext(cause))
    ensures s.signal == Some(outcome) && !s.killed && !s.elapsed
  {
    InitIsReachable(killDelay);
    s := INIT;
    s := ReachNext(killDelay, s, ContextDone(cause));
    s := ReachNext(killDelay, s, SeeContextDone);
    s := ReachNext(killDelay, s, SendSignal(outcome));
    s := ReachNext(killDelay, s, ProcessEnds);
    s := ReachNext(killDelay, s, Reap);
    s := ReachNext(killDelay, s, WaitReturns(None));
    s := ReachNext(killDelay, s, HandOff);
  }

  /** When the process has been waited for, the call can return at once, except while the helper is about to
      signal or kill; in particular the grace period does not have to run out. */
  lemma ReturnsAtOnce(killDelay: int, s: State)
    requires Reachable(killDelay, s) && s.caller.Receiving?
    ensures CanStep(s, HandOff) <==> !s.helper.Signalling? && !s.helper.Killing?
    ensures CanStep(s, HandOff) ==> Next(killDelay, s, HandOff).caller.Returned?
  {
    ReachableInv(killDelay, s);
  }

  // ---- progress

  function HelperSteps(h: Helper): nat {
    match h
    case Selecting => 5
    case Signalling => 4
    case Grace(_) => 3
    case Killing(_) => 2
    case Sending(_) => 1
    case SendingNil => 1
    case HelperDone => 0
  }

  function CallerSteps(c: Caller): nat {
    match c
    case Waiting => 3
    case Draining => 2
    case Receiving(_) => 1
    case Returned(_, _) => 0
  }

  function Measure(s: State): nat {
    (if s.ctx.None? then 1 else 0) + (if s.running then 1 else 0) + HelperSteps(s.helper) + CallerSteps(s.caller)
  }

  lemma StepDecreases(killDelay: int, s: State, a: Action)
    requires CanStep(s, a)
    ensures Measure(Next(killDelay, s, a)) < Measure(s)
  {}

  /** No run takes more than ten steps. */
  lemma {:induction false} RunsAreShort(killDelay: int, s: State, run: seq<Action>)
    requires IsRun(killDelay, s, run)
    ensures |run| + Measure(End(killDelay, s, run)) <= Measure(s) <= 10
    decreases |run|
  {
    if run != [] {
      StepDecreases(killDelay, s, run[0]);
      RunsAreShort(killDelay, Next(killDelay, s, run[0]), run[1..]);
    }
  }

  /** Actions that will happen if nothing else does: everything but the context becoming done and a process
      ending that was not killed. */
  predicate Due(s: State, a: Action) {
    CanStep(s, a) && !a.ContextDone? && (a.ProcessEnds? ==> s.killed)
  }

  /** The two ways to wait forever on a process that does not end: nobody asks to stop, or the interrupt is
      ignored and no delay for a stronger signal was given. */
  predicate Hangs(killDelay: int, s: State) {
    s.running && ((s.ctx.None? && s.helper.Selecting?) || (killDelay <= 0 && s.helper.Sending?))
  }

  /** A reachable state has nothing due exactly when the call has returned or hangs in one of those ways. */
  lemma StuckExactly(killDelay: int, s: State)
    requires Reachable(killDelay, s)
    ensures (forall a :: !Due(s, a)) <==> s.caller.Returned? || Hangs(killDelay, s)
  {
    ReachableInv(killDelay, s);
    if !s.caller.Returned? && !Hangs(killDelay, s) {
      var a :=
        if s.helper.Signalling? then SendSignal(if Reaped(s) then AlreadyFinished else Delivered)
        else if s.helper.Grace? then TimerFires
        else if s.helper.Killing? then Kill
        else if s.helper.Selecting? && s.ctx.Some? then SeeContextDone
        else if s.running then ProcessEnds
        else if s.caller.Waiting? then Reap
        else if s.caller.Draining? then WaitReturns(None)
        else HandOff;
      assert Due(s, a);
    }
  }

  /** A run in which the context became done and nothing is due any more. */
  ghost predicate Complete(killDelay: int, run: seq<Action>) {
    && IsRun(killDelay, INIT, run)
    && End(killDelay, INIT, run).ctx.Some?
    && forall a :: !Due(End(killDelay, INIT, run), a)
  }

  predicate HasReturned(killDelay: int, run: seq<Action>)
    requires IsRun(killDelay, INIT, run)
  {
    End(killDelay, INIT, run).caller.Returned?
  }

  /** Once the context is done and a grace period was given, every run that cannot be extended by an action
      that is due has returned. */
  lemma AlwaysReturns(killDelay: int, run: seq<Action>)
    requires killDelay > 0 && Complete(killDelay, run)
    ensures HasReturned(killDelay, run) && |run| <= 10
  {
    var s := End(killDelay, INIT, run);
    assert Reachable(killDelay, s);
    StuckExactly(killDelay, s);
    RunsAreShort(killDelay, INIT, run);
  }

  lemma RunCons(killDelay: int, s: State, a: Action, run: seq<Action>)
    requires CanStep(s, a) && IsRun(killDelay, Next(killDelay, s, a), run)
    ensures IsRun(killDelay, s, [a] + run)
    ensures End(killDelay, s, [a] + run) == End(killDelay, Next(killDelay, s, a), run)
  {
    assert ([a] + run)[1..] == run;
  }

  /** Without one, a process that ignores the interrupt is waited for forever. */
  lemma MayHang(killDelay: int, cause: Cause) returns (run: seq<Action>)
    requires killDelay <= 0
    ensures Complete(killDelay, run) && !HasReturned(killDelay, run)
  {
    var s0 := Next(killDelay, INIT, ContextDone(cause));
    var s1 := Next(killDelay, s0, SeeContextDone);
    var s2 := Next(killDelay, s1, SendSignal(Delivered));
    RunCons(killDelay, s1, SendSignal(Delivered), []);
    RunCons(killDelay, s0, SeeContextDone, [SendSignal(Delivered)]);
    run := [ContextDone(cause)] + ([SeeContextDone] + [SendSignal(Delivered)]);
    RunCons(killDelay, INIT, ContextDone(cause), [SeeContextDone] + [SendSignal(Delivered)]);
    assert End(killDelay, INIT, run) == s2;
    assert Reachable(killDelay, s2);
    StuckExactly(killDelay, s2);
  }

  /** So a call returns after its context is done, whatever the process does, exactly if it was given a positive
      delay. */
  lemma ReturnsExactly(killDelay: int)
    ensures (forall run :: Complete(killDelay, run) ==> HasReturned(killDelay, run)) <==> killDelay > 0
  {
    if killDelay > 0 {
      forall run | Complete(killDelay, run) ensures HasReturned(killDelay, run) {
        AlwaysReturns(killDelay, run);
      }
    } else {
      var run := MayHang(killDelay, Canceled);
      assert Complete(killDelay, run) && !HasReturned(killDelay, run);
    }
  }
}
