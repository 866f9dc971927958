/** What runs of the container pool answer, in terms of the steps they took. */
module PoolOutcomes {
  import opened Bytes
  import opened ContainerPool

  // ---- one reply

  lemma MoveKeepsReply(k: ClientState, cont: Option<Container>, wanted: bool, m: Move)
    requires LocalOk(k, cont, wanted) && CanMove(k, cont, m) && k.reply.Some?
    ensures Moved(k, cont, m).reply == k.reply
  {}

  lemma StepKeepsReply(s: State, a: Action, x: nat)
    requires Inv(s) && CanStep(s, a) && x in s.clients && s.clients[x].reply.Some?
    ensures x in Next(s, a).clients && Next(s, a).clients[x].reply == s.clients[x].reply
  {
    assert ClientOk(s, x);
    hide Inv, Moved, CanMove, UserOk;
    if a.Do? && a.x == x {
      MoveKeepsReply(s.clients[x], Held(s, x), HasWanted(s, x), a.m);
    }
  }

  /** A reply is given once: whatever happens afterwards, it stays the same. */
  lemma {:induction false} ReplyIsFinal(s: State, run: seq<Action>, x: nat)
    requires Inv(s) && IsRun(s, run) && x in s.clients && s.clients[x].reply.Some?
    ensures x in End(s, run).clients && End(s, run).clients[x].reply == s.clients[x].reply
    decreases |run|
  {
    hide Inv, Next, CanStep;
    if run != [] {
      StepKeepsInv(s, run[0]);
      StepKeepsReply(s, run[0], x);
      ReplyIsFinal(Next(s, run[0]), run[1..], x);
    }
  }

  // ---- the step behind a reply

  /** Taking the step `m`, a client answers `r`. */
  predicate Gives(m: Move, r: Reply) {
    match r
    case TimeoutReply => m.SeeDone?
    case Failure => m.FailBody? || m.FailFeed?
    case Judged(_) => m.SendReply?
    case Healthy => m == EndProbe(true)
    case Unhealthy => m == EndProbe(false) || m.LeaveWithoutContainer?
  }

  predicate Answers(m: Move) { m.SeeDone? || m.FailBody? || m.FailFeed? || m.SendReply? || m.EndProbe? }

  lemma MoveGives(k: ClientState, cont: Option<Container>, wanted: bool, m: Move)
    requires LocalOk(k, cont, wanted) && CanMove(k, cont, m)
    ensures k.reply.None? && Moved(k, cont, m).reply.Some? ==> Gives(m, Moved(k, cont, m).reply.value)
    ensures Answers(m) ==> k.reply.None? && Moved(k, cont, m).reply.Some?
  {}

  lemma StepGives(s: State, a: Action, x: nat)
    requires Inv(s) && CanStep(s, a) && x in Next(s, a).clients && Next(s, a).clients[x].reply.Some?
    requires x in s.clients ==> s.clients[x].reply.None?
    ensures a.Do? && a.x == x && Gives(a.m, Next(s, a).clients[x].reply.value)
  {
    if a.Do? {
      assert ClientOk(s, a.x);
      hide Inv, Moved, CanMove, LocalOk;
      MoveGives(s.clients[a.x], Held(s, a.x), HasWanted(s, a.x), a.m);
    }
  }

  lemma AnswerGives(s: State, x: nat, m: Move)
    requires Inv(s) && CanStep(s, Do(x, m)) && Answers(m)
    ensures var t := Next(s, Do(x, m));
      x in t.clients && t.clients[x].reply.Some? && Gives(m, t.clients[x].reply.value)
  {
    assert ClientOk(s, x);
    hide Inv, Moved, CanMove, LocalOk;
    MoveGives(s.clients[x], Held(s, x), HasWanted(s, x), m);
  }

  lemma {:induction false} ReplyHasStep(s: State, run: seq<Action>, x: nat)
    requires Inv(s) && IsRun(s, run) && x in End(s, run).clients && End(s, run).clients[x].reply.Some?
    requires x in s.clients ==> s.clients[x].reply.None?
    ensures exists m :: Do(x, m) in run && Gives(m, End(s, run).clients[x].reply.value)
    decreases |run|
  {
    hide Inv, Next, CanStep, Gives;
    if run != [] {
      var t := Next(s, run[0]);
      StepKeepsInv(s, run[0]);
      if x in t.clients && t.clients[x].reply.Some? {
        StepGives(s, run[0], x);
        ReplyIsFinal(t, run[1..], x);
        assert Do(x, run[0].m) in run;
      } else {
        ReplyHasStep(t, run[1..], x);
        var m :| Do(x, m) in run[1..] && Gives(m, End(s, run).clients[x].reply.value);
        assert Do(x, m) in run;
      }
    }
  }

  lemma {:induction false} StepHasReply(s: State, run: seq<Action>, x: nat, m: Move)
    requires Inv(s) && IsRun(s, run) && Do(x, m) in run && Answers(m)
    ensures x in End(s, run).clients && End(s, run).clients[x].reply.Some?
    ensures Gives(m, End(s, run).clients[x].reply.value)
    decreases |run|
  {
    hide Inv, Next, CanStep, Gives, Answers;
    var t := Next(s, run[0]);
    StepKeepsInv(s, run[0]);
    if run[0] == Do(x, m) {
      AnswerGives(s, x, m);
      ReplyIsFinal(t, run[1..], x);
    } else {
      StepHasReply(t, run[1..], x, m);
    }
  }

  /** What a client has answered, from the steps of the run: a timeout exactly if it saw its context done after
      waiting, an error exactly if the request could not be read or not be written to the container, an outcome
      exactly if it got to sending it; and what a health check found. */
  lemma RepliesOfRun(numWorkers: nat, run: seq<Action>, x: nat)
    requires IsRun(Init(numWorkers), run) && x in End(Init(numWorkers), run).clients
    ensures var reply := End(Init(numWorkers), run).clients[x].reply;
      && (reply == Some(TimeoutReply) <==> Do(x, SeeDone) in run)
      && (reply == Some(Failure) <==> Do(x, FailBody) in run || Do(x, FailFeed) in run)
      && (reply.Some? && reply.value.Judged? <==> Do(x, SendReply) in run)
      && (reply == Some(Healthy) <==> Do(x, EndProbe(true)) in run)
      && (Do(x, EndProbe(false)) in run ==> reply == Some(Unhealthy))
      && (reply == Some(Unhealthy) ==> Do(x, EndProbe(false)) in run || Do(x, LeaveWithoutContainer) in run)
  {
    InitialInv(numWorkers);
    var s := Init(numWorkers);
    hide IsRun, End;
    if End(s, run).clients[x].reply.Some? {
      ReplyHasStep(s, run, x);
    }
    forall m | Do(x, m) in run && Answers(m)
      ensures End(s, run).clients[x].reply.Some? && Gives(m, End(s, run).clients[x].reply.value)
    {
      StepHasReply(s, run, x, m);
    }
  }

  // ---- the outcome behind a judged reply

  predicate HasResult(s: State, c: nat, r: Result) { c in s.containers && s.containers[c].result == Some(r) }

  lemma StepResults(s: State, a: Action, c: nat, r: Result)
    requires Inv(s) && CanStep(s, a)
    ensures HasResult(Next(s, a), c, r) <==> HasResult(s, c, r) || a == ProcessWaited(c, r)
  {
    if a.Do? {
      assert ClientOk(s, a.x);
      MoveIsLocal(s, a.x, a.m);
      hide Next, CanStep, Inv;
    }
  }

  /** A container has the result that waiting for its process gave. */
  lemma {:induction false} ResultsOfRun(s: State, run: seq<Action>, c: nat, r: Result)
    requires Inv(s) && IsRun(s, run)
    ensures HasResult(End(s, run), c, r) <==> HasResult(s, c, r) || ProcessWaited(c, r) in run
    decreases |run|
  {
    hide Inv, Next, CanStep, HasResult;
    if run != [] {
      StepKeepsInv(s, run[0]);
      StepResults(s, run[0], c, r);
      ResultsOfRun(Next(s, run[0]), run[1..], c, r);
      assert ProcessWaited(c, r) in run <==> run[0] == ProcessWaited(c, r) || ProcessWaited(c, r) in run[1..];
    }
  }

  /** What is answered from an outcome is what waiting for the client's own container gave in this run, and that
      was not an interruption. */
  lemma JudgedIsReal(numWorkers: nat, run: seq<Action>, x: nat, err: Result)
    requires IsRun(Init(numWorkers), run) && x in End(Init(numWorkers), run).clients
    requires End(Init(numWorkers), run).clients[x].reply == Some(Judged(err))
    ensures var k := End(Init(numWorkers), run).clients[x];
      k.container.Some? && ProcessWaited(k.container.value, err) in run && !IsInterrupt(err)
  {
    var s := End(Init(numWorkers), run);
    assert Reachable(numWorkers, s);
    NoInterruptedReply(numWorkers, s, x);
    InitialInv(numWorkers);
    ResultsOfRun(Init(numWorkers), run, s.clients[x].container.value, err);
  }

  // ---- leaving without an answer

  predicate LeftEarly(k: ClientState) { k.reply.None? && (k.pc.ReleaseSlot? || k.pc.Finished?) }

  lemma MoveLeaves(k: ClientState, cont: Option<Container>, wanted: bool, m: Move)
    requires LocalOk(k, cont, wanted) && CanMove(k, cont, m)
    ensures LeftEarly(Moved(k, cont, m)) ==> LeftEarly(k) || m.LeaveWithoutSlot? || m.LeaveWithoutContainer?
  {}

  lemma StepLeaves(s: State, a: Action, x: nat)
    requires Inv(s) && CanStep(s, a) && x in Next(s, a).clients && LeftEarly(Next(s, a).clients[x])
    ensures (x in s.clients && LeftEarly(s.clients[x]))
      || a == Do(x, LeaveWithoutSlot) || a == Do(x, LeaveWithoutContainer)
  {
    if a.Do? && a.x == x {
      assert ClientOk(s, x);
      hide Inv, Moved, CanMove, LocalOk, LeftEarly;
      MoveLeaves(s.clients[x], Held(s, x), HasWanted(s, x), a.m);
    }
  }

  lemma {:induction false} LeftEarlyHasStep(s: State, run: seq<Action>, x: nat)
    requires Inv(s) && IsRun(s, run) && x in End(s, run).clients && LeftEarly(End(s, run).clients[x])
    ensures (x in s.clients && LeftEarly(s.clients[x]))
      || Do(x, LeaveWithoutSlot) in run || Do(x, LeaveWithoutContainer) in run
    decreases |run|
  {
    hide Inv, Next, CanStep, LeftEarly;
    if run != [] {
      StepKeepsInv(s, run[0]);
      var t := Next(s, run[0]);
      LeftEarlyHasStep(t, run[1..], x);
      if x in t.clients && LeftEarly(t.clients[x]) {
        StepLeaves(s, run[0], x);
      }
      assert forall a :: a in run <==> a == run[0] || a in run[1..];
    }
  }

  /** A handler leaves without an answer only if it gave up waiting for a slot or for a container. */
  lemma UnansweredGaveUp(numWorkers: nat, run: seq<Action>, x: nat)
    requires IsRun(Init(numWorkers), run) && x in End(Init(numWorkers), run).clients
    requires End(Init(numWorkers), run).clients[x].pc.Finished? && End(Init(numWorkers), run).clients[x].reply.None?
    ensures Do(x, LeaveWithoutSlot) in run || Do(x, LeaveWithoutContainer) in run
    ensures End(Init(numWorkers), run).clients[x].container.None?
  {
    InitialInv(numWorkers);
    LeftEarlyHasStep(Init(numWorkers), run, x);
    RunKeepsInv(Init(numWorkers), run);
    assert ClientOk(End(Init(numWorkers), run), x);
  }

  // ---- each answer occurs

  lemma {:induction false} RunSnoc(s: State, run: seq<Action>, a: Action)
    requires IsRun(s, run) && CanStep(End(s, run), a)
    ensures IsRun(s, run + [a]) && End(s, run + [a]) == Next(End(s, run), a)
    decreases |run|
  {
    hide Next, CanStep;
    if run == [] {
      assert [] + [a] == [a] && [a][1..] == [];
    } else {
      RunSnoc(Next(s, run[0]), run[1..], a);
      assert (run + [a])[1..] == run[1..] + [a];
    }
  }

  lemma StepReaches(numWorkers: nat, s: State, a: Action) returns (t: State)
    requires Reachable(numWorkers, s) && CanStep(s, a)
    ensures t == Next(s, a) && Reachable(numWorkers, t)
  {
    hide Next, CanStep;
    t := Next(s, a);
    var run :| IsRun(Init(numWorkers), run) && End(Init(numWorkers), run) == s;
    RunSnoc(Init(numWorkers), run, a);
  }

  lemma InitIsReachable(numWorkers: nat)
    ensures Reachable(numWorkers, Init(numWorkers))
  {
    assert IsRun(Init(numWorkers), []) && End(Init(numWorkers), []) == Init(numWorkers);
  }

  /** Client 0 is in state `k` and has container 0, the only one. */
  predicate Alone(s: State, k: ClientState, cont: Container) {
    0 in s.clients && s.clients[0] == k && k.container == Some(0) && s.containers == map[0 := cont]
  }

  lemma MoveReaches(numWorkers: nat, s: State, k: ClientState, cont: Container, m: Move) returns (t: State)
    requires Reachable(numWorkers, s) && Alone(s, k, cont)
    requires CanMove(k, Some(cont), m) && !m.TakeSlot? && !m.GiveSlot?
    requires Moved(k, Some(cont), m).container == Some(0)
    ensures Reachable(numWorkers, t) && Alone(t, Moved(k, Some(cont), m), Touched(cont, m))
  {
    hide CanMove, Moved;
    t := StepReaches(numWorkers, s, Do(0, m));
  }

  lemma WaitReaches(numWorkers: nat, s: State, k: ClientState, cont: Container, r: Result) returns (t: State)
    requires Reachable(numWorkers, s) && Alone(s, k, cont) && cont.result.None?
    requires IsInterrupt(r) ==> cont.cancelled
    ensures Reachable(numWorkers, t) && Alone(t, k, cont.(result := Some(r)))
  {
    t := StepReaches(numWorkers, s, ProcessWaited(0, r));
  }

  function Served(probe: bool): ClientState {
    if probe then ClientState(ProbeClosing, Some(0), None, RunCtx.Cancelled, Unwanting, None)
    else ClientState(Feeding, Some(0), None, Live, Watching, None)
  }

  /** A client that is about to be given container 0. */
  lemma Seek(numWorkers: nat, probe: bool) returns (s: State)
    requires numWorkers > 0
    ensures Reachable(numWorkers, s) && |s.workers| > 0 && s.workers[0] == Offering(0)
    ensures 0 in s.clients && s.clients[0] == NEW_RUN.(pc := if probe then ProbeSeeking else WantContainer)
    ensures s.containers == map[0 := Container(Worker(0), false, None)]
  {
    InitIsReachable(numWorkers);
    s := Init(numWorkers);
    s := StepReaches(numWorkers, s, StartContainer(0, 0));
    s := StepReaches(numWorkers, s, Arrive(0, probe));
    if !probe {
      s := StepReaches(numWorkers, s, Do(0, TakeSlot));
      s := StepReaches(numWorkers, s, Do(0, ReadBody));
    }
  }

  /** A run handler, or a health check, that was just given container 0. */
  lemma Serve(numWorkers: nat, probe: bool) returns (s: State)
    requires numWorkers > 0
    ensures Reachable(numWorkers, s) && Alone(s, Served(probe), Container(Client(0), false, None))
  {
    s := Seek(numWorkers, probe);
    s := StepReaches(numWorkers, s, Deliver(0, 0));
  }

  lemma AloneIs(s: State, k: ClientState, cont: Container)
    requires Alone(s, k, cont)
    ensures 0 in s.clients && s.clients[0] == k
  {}

  lemma OutcomeOccurs(numWorkers: nat, err: Result) returns (s: State)
    requires numWorkers > 0 && !IsInterrupt(err)
    ensures Reachable(numWorkers, s) && 0 in s.clients && s.clients[0].reply == Some(Judged(err))
  {
    hide Next, CanStep, Reachable, Alone;
    s := Serve(numWorkers, false);
    var k, cont := Served(false), Container(Client(0), false, None);
    s := MoveReaches(numWorkers, s, k, cont, Feed);
    k, cont := Moved(k, Some(cont), Feed), Touched(cont, Feed);
    s := WaitReaches(numWorkers, s, k, cont, err);
    cont := cont.(result := Some(err));
    s := MoveReaches(numWorkers, s, k, cont, ReturnFromWait);
    k, cont := Moved(k, Some(cont), ReturnFromWait), Touched(cont, ReturnFromWait);
    s := MoveReaches(numWorkers, s, k, cont, SeeLive);
    k, cont := Moved(k, Some(cont), SeeLive), Touched(cont, SeeLive);
    s := MoveReaches(numWorkers, s, k, cont, SendReply);
    k, cont := Moved(k, Some(cont), SendReply), Touched(cont, SendReply);
    AloneIs(s, k, cont);
  }

  lemma TimeoutOccurs(numWorkers: nat, r: Result) returns (s: State)
    requires numWorkers > 0
    ensures Reachable(numWorkers, s) && 0 in s.clients && s.clients[0].reply == Some(TimeoutReply)
    ensures s.clients[0].waited == Some(r)
  {
    hide Next, CanStep, Reachable, Alone;
    s := Serve(numWorkers, false);
    var k, cont := Served(false), Container(Client(0), false, None);
    s := MoveReaches(numWorkers, s, k, cont, Feed);
    k, cont := Moved(k, Some(cont), Feed), Touched(cont, Feed);
    s := MoveReaches(numWorkers, s, k, cont, Timeout);
    k, cont := Moved(k, Some(cont), Timeout), Touched(cont, Timeout);
    s := MoveReaches(numWorkers, s, k, cont, CloserWakes);
    k, cont := Moved(k, Some(cont), CloserWakes), Touched(cont, CloserWakes);
    s := MoveReaches(numWorkers, s, k, cont, Unwant);
    k, cont := Moved(k, Some(cont), Unwant), Touched(cont, Unwant);
    s := MoveReaches(numWorkers, s, k, cont, CancelCmd);
    k, cont := Moved(k, Some(cont), CancelCmd), Touched(cont, CancelCmd);
    s := WaitReaches(numWorkers, s, k, cont, r);
    cont := cont.(result := Some(r));
    s := MoveReaches(numWorkers, s, k, cont, ReturnFromWait);
    k, cont := Moved(k, Some(cont), ReturnFromWait), Touched(cont, ReturnFromWait);
    s := MoveReaches(numWorkers, s, k, cont, SeeDone);
    k, cont := Moved(k, Some(cont), SeeDone), Touched(cont, SeeDone);
    AloneIs(s, k, cont);
  }

  lemma ErrorOccurs(numWorkers: nat, reading: bool) returns (s: State)
    requires numWorkers > 0
    ensures Reachable(numWorkers, s) && 0 in s.clients && s.clients[0].reply == Some(Failure)
    ensures s.clients[0].container.None? <==> reading
  {
    if reading {
      InitIsReachable(numWorkers);
      s := Init(numWorkers);
      s := StepReaches(numWorkers, s, Arrive(0, false));
      s := StepReaches(numWorkers, s, Do(0, TakeSlot));
      s := StepReaches(numWorkers, s, Do(0, FailBody));
    } else {
      s := Serve(numWorkers, false);
      s := StepReaches(numWorkers, s, Do(0, FailFeed));
    }
  }

  lemma HealthyOccurs(numWorkers: nat) returns (s: State)
    requires numWorkers > 0
    ensures Reachable(numWorkers, s) && 0 in s.clients && s.clients[0].reply == Some(Healthy)
  {
    hide Next, CanStep, Reachable, Alone;
    s := Serve(numWorkers, true);
    var k, cont := Served(true), Container(Client(0), false, None);
    s := MoveReaches(numWorkers, s, k, cont, Unwant);
    k, cont := Moved(k, Some(cont), Unwant), Touched(cont, Unwant);
    s := MoveReaches(numWorkers, s, k, cont, CancelCmd);
    k, cont := Moved(k, Some(cont), CancelCmd), Touched(cont, CancelCmd);
    s := WaitReaches(numWorkers, s, k, cont, None);
    cont := cont.(result := Some(None));
    s := MoveReaches(numWorkers, s, k, cont, CloserWaits);
    k, cont := Moved(k, Some(cont), CloserWaits), Touched(cont, CloserWaits);
    s := MoveReaches(numWorkers, s, k, cont, SignalClosed);
    k, cont := Moved(k, Some(cont), SignalClosed), Touched(cont, SignalClosed);
    s := MoveReaches(numWorkers, s, k, cont, EndProbe(true));
    k, cont := Moved(k, Some(cont), EndProbe(true)), Touched(cont, EndProbe(true));
    AloneIs(s, k, cont);
  }

  lemma UnhealthyOccurs(numWorkers: nat, given: bool) returns (s: State)
    requires numWorkers > 0
    ensures Reachable(numWorkers, s) && 0 in s.clients && s.clients[0].reply == Some(Unhealthy)
    ensures s.clients[0].container.Some? <==> given
  {
    if given {
      s := Serve(numWorkers, true);
      s := StepReaches(numWorkers, s, Do(0, EndProbe(false)));
    } else {
      InitIsReachable(numWorkers);
      s := Init(numWorkers);
      s := StepReaches(numWorkers, s, Arrive(0, true));
      s := StepReaches(numWorkers, s, Do(0, LeaveWithoutContainer));
    }
  }

  /** Giving up before there is a slot, or before there is a container, ends without an answer. */
  lemma LeavingOccurs(numWorkers: nat, slot: bool) returns (s: State)
    requires numWorkers > 0
    ensures Reachable(numWorkers, s) && At(s, 0, if slot then ReleaseSlot else Finished)
    ensures s.clients[0].reply.None? && s.clients[0].container.None?
  {
    InitIsReachable(numWorkers);
    s := Init(numWorkers);
    s := StepReaches(numWorkers, s, Arrive(0, false));
    if slot {
      s := StepReaches(numWorkers, s, Do(0, TakeSlot));
      s := StepReaches(numWorkers, s, Do(0, ReadBody));
      s := StepReaches(numWorkers, s, Do(0, LeaveWithoutContainer));
    } else {
      s := StepReaches(numWorkers, s, Do(0, LeaveWithoutSlot));
    }
  }

  /** With a worker, every answer occurs in some run, but no outcome of an interrupted process. */
  lemma RepliesExactly(numWorkers: nat, r: Reply)
    requires numWorkers > 0
    ensures (exists s, x :: Reachable(numWorkers, s) && x in s.clients && s.clients[x].reply == Some(r))
      <==> !(r.Judged? && IsInterrupt(r.err))
  {
    if r.Judged? && IsInterrupt(r.err) {
      forall s, x | Reachable(numWorkers, s) && x in s.clients ensures s.clients[x].reply != Some(r) {
        if s.clients[x].reply == Some(r) {
          NoInterruptedReply(numWorkers, s, x);
        }
      }
    } else {
      var s: State;
      match r {
        case TimeoutReply => s := TimeoutOccurs(numWorkers, None);
        case Failure => s := ErrorOccurs(numWorkers, true);
        case Judged(err) => s := OutcomeOccurs(numWorkers, err);
        case Healthy => s := HealthyOccurs(numWorkers);
        case Unhealthy => s := UnhealthyOccurs(numWorkers, false);
      }
      assert Reachable(numWorkers, s) && 0 in s.clients && s.clients[0].reply == Some(r);
    }
  }
}
