/**
 The container pool gets things done: a handler that was given a container gets rid of it, the pool does not
 deadlock, and runs do not go on forever.
 */
module PoolProgress {
  import opened Bytes
  import opened ContainerPool

  // ---- a handler that has a container gets rid of it

  /** What will happen to client `x` if nothing else does. Writing to the container may block for as long as its
      process has not been waited for; then the pipe is closed and the write fails. A process whose context is
      done is waited for. */
  predicate Due(s: State, x: nat, a: Action) {
    && CanStep(s, a)
    && x in s.clients
    && match a
       case ProcessWaited(c, _) => s.clients[x].container == Some(c) && s.containers[c].cancelled
       case Do(y, m) => y == x && !m.Feed? && (m.FailFeed? ==> HasEnded(Held(s, x)))
       case _ => false
  }

  /** What moves the closer of a container whose context is done. */
  function CloserStep(s: State, x: nat): Action
    requires x in s.clients && Held(s, x).Some?
  {
    match s.clients[x].closer
    case Watching => Do(x, CloserWakes)
    case Unwanting => Do(x, Unwant)
    case Cancelling => Do(x, CancelCmd)
    case WaitingForEnd =>
      if HasEnded(Held(s, x)) then Do(x, CloserWaits) else ProcessWaited(s.clients[x].container.value, None)
    case _ => Do(x, SignalClosed)
  }

  lemma CloserStepIsDue(s: State, x: nat)
    requires x in s.clients && ClientOk(s, x) && Held(s, x).Some?
    requires !s.clients[x].ctx.Live? && !s.clients[x].closer.Closed?
    ensures Due(s, x, CloserStep(s, x))
  {}

  lemma OwnStepIsDue(s: State, x: nat)
    requires x in s.clients && ClientOk(s, x) && Held(s, x).Some?
    requires HasEnded(Held(s, x)) || !(s.clients[x].pc.Feeding? || s.clients[x].pc.Waiting?)
    requires s.clients[x].pc.AwaitClosed? ==> s.clients[x].closer.Closed?
    requires s.clients[x].pc.ReleaseSlot? ==> s.sem > 0
    requires HoldsSlot(s.clients[x].pc)
    ensures exists m :: Due(s, x, Do(x, m))
  {
    var k := s.clients[x];
    var m := match k.pc
      case Feeding => FailFeed
      case Waiting => ReturnFromWait
      case Checking => if k.ctx.Live? then SeeLive else SeeDone
      case Replying => SendReply
      case Cancel => CancelCtx
      case AwaitClosed => Join
      case _ => GiveSlot;
    assert Due(s, x, Do(x, m));
  }

  /** A run handler that was given a container is never stuck before it has given its slot back, even if the
      container never reads what the handler writes to it. */
  lemma HandlerIsNeverStuck(numWorkers: nat, s: State, x: nat)
    requires Reachable(numWorkers, s) && x in s.clients && HoldsSlot(s.clients[x].pc)
    requires s.clients[x].container.Some?
    ensures exists a :: Due(s, x, a)
  {
    ReachableInv(numWorkers, s);
    assert ClientOk(s, x) && x in SlotHolders(s);
    hide Inv, ClientsOk, ContainersOk, WorkersOk, SlotHolders, HoldsSlot, Reachable;
    var k := s.clients[x];
    if (k.pc.Feeding? || k.pc.Waiting?) && !HasEnded(Held(s, x)) {
      if k.ctx.Live? {
        assert Due(s, x, Do(x, Timeout));
      } else {
        CloserStepIsDue(s, x);
      }
    } else if k.pc.AwaitClosed? && !k.closer.Closed? {
      CloserStepIsDue(s, x);
    } else {
      OwnStepIsDue(s, x);
    }
  }

  /** Steps left for a client with container record `cont`, its closer and its timer. */
  function Work(k: ClientState, cont: Container): nat {
    (match k.pc
     case Feeding => 7
     case Waiting => 6
     case Checking => 5
     case Replying => 4
     case Cancel => 3
     case AwaitClosed => 2
     case ReleaseSlot => 1
     case ProbeClosing => 1
     case _ => 0)
    + (match k.closer
       case Watching => 5
       case Unwanting => 4
       case Cancelling => 3
       case WaitingForEnd => 2
       case Signalling => 1
       case _ => 0)
    + (if k.ctx.Live? then 1 else 0)
    + (if cont.result.None? then 1 else 0)
  }

  function Remaining(s: State, x: nat): nat
    requires x in s.clients && Held(s, x).Some?
  {
    Work(s.clients[x], Held(s, x).value)
  }

  lemma MoveAdvances(k: ClientState, cont: Container, wanted: bool, m: Move)
    requires LocalOk(k, Some(cont), wanted) && CanMove(k, Some(cont), m)
    ensures Work(Moved(k, Some(cont), m), Touched(cont, m)) < Work(k, cont) <= 14
  {
    hide UserOk;
  }

  lemma OtherStepKeeps(s: State, a: Action, x: nat)
    requires Inv(s) && CanStep(s, a) && x in s.clients && Held(s, x).Some? && (a.Do? ==> a.x != x)
    ensures var t := Next(s, a);
      && x in t.clients && t.clients[x] == s.clients[x] && Held(t, x).Some?
      && (Held(t, x).value.result.None? ==> Held(s, x).value.result.None?)
      && (a.ProcessWaited? && s.clients[x].container == Some(a.c) ==>
            Held(s, x).value.result.None? && Held(t, x).value.result.Some?)
  {
    hide UserOk;
    assert ClientOk(s, x);
    match a
    case Do(y, m) =>
      assert ClientOk(s, y);
      hide Next, CanMove, Moved, LocalOk;
      OthersKeep(s, x, y);
      MoveIsLocal(s, y, m);
    case Deliver(w, y) => assert ClientOk(s, y) && WorkerOk(s, w);
    case _ =>
  }

  /** A step of client `x`, or one that is due for it. */
  predicate IsFor(s: State, x: nat, a: Action) { Due(s, x, a) || (a.Do? && a.x == x) }

  /** Every step leaves no more of them, and a step of `x` or one that is due for it leaves fewer. */
  lemma HandlerAdvances(s: State, a: Action, x: nat)
    requires Inv(s) && CanStep(s, a) && x in s.clients && s.clients[x].container.Some?
    ensures Held(s, x).Some? && Remaining(s, x) <= 14
    ensures var t := Next(s, a);
      && x in t.clients && t.clients[x].container == s.clients[x].container && Held(t, x).Some?
      && Remaining(t, x) <= Remaining(s, x)
      && (IsFor(s, x, a) ==> Remaining(t, x) < Remaining(s, x))
  {
    assert ClientOk(s, x);
    if a.Do? && a.x == x {
      MoveIsLocal(s, x, a.m);
      hide Inv, Next, Work, UserOk, Moved, CanMove;
      MoveAndSlot(s.clients[x], Held(s, x), HasWanted(s, x), a.m);
      MoveAdvances(s.clients[x], Held(s, x).value, HasWanted(s, x), a.m);
    } else {
      hide Inv, Next, CanStep;
      OtherStepKeeps(s, a, x);
    }
  }

  function StepsFor(s: State, run: seq<Action>, x: nat): nat
    requires IsRun(s, run)
    decreases |run|
  {
    if run == [] then 0
    else (if IsFor(s, x, run[0]) then 1 else 0) + StepsFor(Next(s, run[0]), run[1..], x)
  }

  lemma HasRecord(s: State, x: nat)
    requires Inv(s) && x in s.clients && s.clients[x].container.Some?
    ensures Held(s, x).Some? && Remaining(s, x) <= 14
  {
    assert ClientOk(s, x);
  }

  /** In every run at most fourteen steps are for a client after it was given a container. */
  lemma {:induction false} FewStepsFor(s: State, run: seq<Action>, x: nat)
    requires Inv(s) && IsRun(s, run) && x in s.clients && s.clients[x].container.Some?
    ensures Held(s, x).Some? && x in End(s, run).clients && Held(End(s, run), x).Some?
    ensures StepsFor(s, run, x) + Remaining(End(s, run), x) <= Remaining(s, x) <= 14
    decreases |run|
  {
    hide Inv, Next, CanStep, Remaining, IsFor;
    if run == [] {
      HasRecord(s, x);
    } else {
      HandlerAdvances(s, run[0], x);
      StepKeepsInv(s, run[0]);
      FewStepsFor(Next(s, run[0]), run[1..], x);
    }
  }

  // ---- the whole pool

  /** What will happen if nothing else does: nobody arrives, gives up or gets a write to a container through. */
  predicate DueInPool(s: State, a: Action) {
    && CanStep(s, a)
    && match a
       case ProcessWaited(c, _) => s.containers[c].cancelled
       case Arrive(_, _) => false
       case Do(x, m) =>
         && !m.LeaveWithoutSlot? && !m.LeaveWithoutContainer? && !m.FailBody? && !m.Feed?
         && (m.FailFeed? ==> HasEnded(Held(s, x)))
         && (m.EndProbe? ==> m.healthy)
       case _ => true
  }

  lemma DueIsDueInPool(s: State, x: nat, a: Action)
    requires Due(s, x, a) && ClientOk(s, x) && s.clients[x].container.Some? && !s.clients[x].pc.ProbeClosing?
    ensures DueInPool(s, a)
  {
    hide UserOk;
  }

  lemma FreshName(names: set<nat>) returns (c: nat)
    ensures c !in names
  {
    var some := Below(|names| + 1);
    assert |some - names| == |some| - |some * names|;
    assert |names - some| == |names| - |some * names| by { assert some * names == names * some; }
    c :| c in some - names;
  }

  /** Whoever wants a container gets one started or handed out. */
  lemma SeekerIsServed(s: State, x: nat)
    requires Inv(s) && |s.workers| > 0 && (At(s, x, WantContainer) || At(s, x, ProbeSeeking))
    ensures exists a :: DueInPool(s, a)
  {
    assert WorkerOk(s, 0);
    hide Inv;
    if s.workers[0].Starting? {
      var c := FreshName(s.containers.Keys);
      assert DueInPool(s, StartContainer(0, c));
    } else {
      assert DueInPool(s, Deliver(0, x));
    }
  }

  lemma HolderIsServed(numWorkers: nat, s: State, x: nat)
    requires Reachable(numWorkers, s) && numWorkers > 0 && x in SlotHolders(s)
    ensures exists a :: DueInPool(s, a)
  {
    ReachableInv(numWorkers, s);
    assert ClientOk(s, x) && s.sem > 0;
    hide Inv, Reachable;
    if s.clients[x].container.Some? {
      HandlerIsNeverStuck(numWorkers, s, x);
      var a :| Due(s, x, a);
      DueIsDueInPool(s, x, a);
    } else if s.clients[x].pc.WantContainer? {
      SeekerIsServed(s, x);
    } else {
      assert DueInPool(s, Do(x, if s.clients[x].pc.Reading? then ReadBody else GiveSlot));
    }
  }

  lemma ProbeIsServed(s: State, x: nat)
    requires x in s.clients && ClientOk(s, x)
    requires s.clients[x].pc.ProbeClosing? || (s.clients[x].pc.ProbeFinished? && Held(s, x).Some?)
    requires s.clients[x].pc.ProbeFinished? ==> !s.clients[x].closer.Closed?
    requires !s.clients[x].ctx.Live?
    ensures exists a :: DueInPool(s, a)
  {
    if s.clients[x].closer.Closed? {
      assert DueInPool(s, Do(x, EndProbe(true)));
    } else {
      CloserStepIsDue(s, x);
      assert DueInPool(s, CloserStep(s, x));
    }
  }

  /** Everyone is done, and what was handed out is closed. */
  predicate Settled(k: ClientState) {
    (k.pc.Finished? || k.pc.ProbeFinished?) && (k.container.Some? ==> k.closer.Closed?)
  }

  lemma SomeHolder(numWorkers: nat, s: State)
    requires Reachable(numWorkers, s) && s.sem > 0
    ensures SlotHolders(s) != {}
  {
    ReachableInv(numWorkers, s);
    hide SlotHolders;
  }

  /** With at least one worker the pool does not deadlock: as long as a client wants something, uses something
      or has a container that is not closed, some step is due. */
  lemma PoolIsNeverStuck(numWorkers: nat, s: State, x: nat)
    requires Reachable(numWorkers, s) && numWorkers > 0 && x in s.clients && !Settled(s.clients[x])
    ensures exists a :: DueInPool(s, a)
  {
    ReachableInv(numWorkers, s);
    assert ClientOk(s, x);
    hide Inv, Reachable;
    var k := s.clients[x];
    if HoldsSlot(k.pc) {
      HolderIsServed(numWorkers, s, x);
    } else if k.pc.WantSlot? {
      if s.sem < |s.workers| {
        assert DueInPool(s, Do(x, TakeSlot));
      } else {
        SomeHolder(numWorkers, s);
        var y :| y in SlotHolders(s);
        HolderIsServed(numWorkers, s, y);
      }
    } else if k.pc.ProbeSeeking? {
      SeekerIsServed(s, x);
    } else {
      ProbeIsServed(s, x);
    }
  }

  // ---- how much is left to do

  ghost function Pick(m: map<nat, nat>): (x: nat)
    requires m != map[]
    ensures x in m
  {
    var x :| x in m; x
  }

  ghost function Sum(m: map<nat, nat>): nat
    decreases |m|
  {
    if m == map[] then 0 else m[Pick(m)] + Sum(m - {Pick(m)})
  }

  lemma {:induction false} SumWithout(m: map<nat, nat>, x: nat)
    requires x in m
    ensures Sum(m) == m[x] + Sum(m - {x})
    decreases |m|
  {
    var y := Pick(m);
    if y != x {
      SumWithout(m - {y}, x);
      SumWithout(m - {x}, y);
      assert m - {y} - {x} == m - {x} - {y};
    }
  }

  lemma SumUpdate(m: map<nat, nat>, x: nat, v: nat)
    ensures Sum(m[x := v]) == v + if x in m then Sum(m) - m[x] else Sum(m)
  {
    SumWithout(m[x := v], x);
    assert m[x := v] - {x} == m - {x};
    if x in m {
      SumWithout(m, x);
    } else {
      assert m - {x} == m;
    }
  }

  /** Steps left for a client, whether or not it has a container yet. */
  function Load(k: ClientState, cont: Option<Container>): nat {
    match cont
    case Some(cont) => Work(k, cont)
    case None =>
      match k.pc
      case WantSlot => 19
      case Reading => 18
      case WantContainer => 17
      case ProbeSeeking => 17
      case ReleaseSlot => 1
      case _ => 0
  }

  /** Steps left for a worker: starting a container, and the end of the one it offers. */
  function WorkerLoad(worker: WorkerPc, containers: map<nat, Container>): nat {
    match worker
    case Starting => 2
    case Offering(c) => if c in containers && containers[c].result.None? then 1 else 0
  }

  function ClientLoads(s: State): map<nat, nat> { map x | x in s.clients :: Load(s.clients[x], Held(s, x)) }

  function WorkerLoads(s: State): map<nat, nat> {
    map w: nat | w < |s.workers| :: WorkerLoad(s.workers[w], s.containers)
  }

  ghost function Total(s: State): nat { Sum(ClientLoads(s)) + Sum(WorkerLoads(s)) }

  lemma MoveLightens(k: ClientState, cont: Option<Container>, wanted: bool, m: Move)
    requires LocalOk(k, cont, wanted) && CanMove(k, cont, m)
    ensures cont.Some? ==> Load(Moved(k, cont, m), Some(Touched(cont.value, m))) < Load(k, cont)
    ensures cont.None? ==> Load(Moved(k, cont, m), None) < Load(k, cont)
  {
    hide UserOk;
  }

  lemma OneClientChanged(s: State, t: State, x: nat)
    requires x in t.clients && t.clients.Keys == s.clients.Keys + {x}
    requires forall y :: y in s.clients && y != x ==> t.clients[y] == s.clients[y] && Held(t, y) == Held(s, y)
    ensures ClientLoads(t) == ClientLoads(s)[x := Load(t.clients[x], Held(t, x))]
  {
    hide Load, Held;
  }

  lemma NoClientChanged(s: State, t: State)
    requires t.clients == s.clients && forall y :: y in s.clients ==> Held(t, y) == Held(s, y)
    ensures ClientLoads(t) == ClientLoads(s)
  {
    hide Load, Held;
  }

  predicate SameLoad(s: State, t: State, w: nat)
    requires w < |s.workers| && w < |t.workers|
  {
    WorkerLoad(t.workers[w], t.containers) == WorkerLoad(s.workers[w], s.containers)
  }

  lemma OneWorkerChanged(s: State, t: State, w: nat)
    requires w < |t.workers| == |s.workers|
    requires forall v :: 0 <= v < |s.workers| && v != w ==> SameLoad(s, t, v)
    ensures WorkerLoads(t) == WorkerLoads(s)[w := WorkerLoad(t.workers[w], t.containers)]
  {
    hide WorkerLoad;
    forall v | 0 <= v < |s.workers| && v != w ensures WorkerLoads(t)[v] == WorkerLoads(s)[v] {
      assert SameLoad(s, t, v);
    }
  }

  lemma NoWorkerChanged(s: State, t: State)
    requires |t.workers| == |s.workers| && forall v :: 0 <= v < |s.workers| ==> SameLoad(s, t, v)
    ensures WorkerLoads(t) == WorkerLoads(s)
  {
    hide WorkerLoad;
    forall v | 0 <= v < |s.workers| ensures WorkerLoads(t)[v] == WorkerLoads(s)[v] {
      assert SameLoad(s, t, v);
    }
  }

  lemma MoveKeepsOtherClients(s: State, x: nat, m: Move)
    requires Inv(s) && CanStep(s, Do(x, m))
    ensures var t := Next(s, Do(x, m));
      && x in t.clients && ClientLoads(t) == ClientLoads(s)[x := Load(t.clients[x], Held(t, x))]
  {
    assert ClientOk(s, x);
    var t := Next(s, Do(x, m));
    MoveIsLocal(s, x, m);
    hide Next, CanStep, CanMove, Moved, LocalOk, Load, ContainersOk, WorkersOk, SlotsOk;
    forall y | y in s.clients && y != x ensures Held(t, y) == Held(s, y) {
      assert ClientOk(s, y);
      OthersKeep(s, x, y);
    }
    OneClientChanged(s, t, x);
  }

  lemma MoveKeepsWorkers(s: State, x: nat, m: Move)
    requires Inv(s) && CanStep(s, Do(x, m))
    ensures WorkerLoads(Next(s, Do(x, m))) == WorkerLoads(s)
  {
    assert ClientOk(s, x);
    var t := Next(s, Do(x, m));
    MoveIsLocal(s, x, m);
    hide Next, CanStep, CanMove, Moved, LocalOk, ClientsOk, ContainersOk, SlotsOk;
    forall w | 0 <= w < |s.workers| ensures SameLoad(s, t, w) {
      assert WorkerOk(s, w);
    }
    NoWorkerChanged(s, t);
  }

  lemma MoveLightensTotal(s: State, x: nat, m: Move)
    requires Inv(s) && CanStep(s, Do(x, m))
    ensures Total(Next(s, Do(x, m))) < Total(s)
  {
    assert ClientOk(s, x);
    var t := Next(s, Do(x, m));
    MoveIsLocal(s, x, m);
    MoveAndSlot(s.clients[x], Held(s, x), HasWanted(s, x), m);
    MoveLightens(s.clients[x], Held(s, x), HasWanted(s, x), m);
    MoveKeepsOtherClients(s, x, m);
    MoveKeepsWorkers(s, x, m);
    SumUpdate(ClientLoads(s), x, Load(t.clients[x], Held(t, x)));
  }

  lemma HasNoStrangeName(s: State, x: nat)
    requires x in s.clients && ClientOk(s, x)
    ensures s.clients[x].container.Some? ==> s.clients[x].container.value in s.containers
  {
    hide UserOk;
  }

  lemma StartLightensTotal(s: State, w: nat, c: nat)
    requires Inv(s) && CanStep(s, StartContainer(w, c))
    ensures Total(Next(s, StartContainer(w, c))) < Total(s)
  {
    var t := Next(s, StartContainer(w, c));
    hide LocalOk, Load;
    forall y | y in s.clients ensures Held(t, y) == Held(s, y) {
      assert ClientOk(s, y);
      HasNoStrangeName(s, y);
    }
    NoClientChanged(s, t);
    forall v | 0 <= v < |s.workers| && v != w ensures SameLoad(s, t, v) {
      assert WorkerOk(s, v);
    }
    OneWorkerChanged(s, t, w);
    SumUpdate(WorkerLoads(s), w, 1);
  }

  lemma GivenLightens(k: ClientState, c: nat, cont: Container)
    requires LocalOk(k, None, false) && (k.pc.WantContainer? || k.pc.ProbeSeeking?)
    ensures Load(k, None) == 17 && Load(Given(k, c), Some(cont)) <= 14
  {}

  lemma SeekerHasNothing(s: State, x: nat)
    requires x in s.clients && ClientOk(s, x) && (At(s, x, WantContainer) || At(s, x, ProbeSeeking))
    ensures s.clients[x].container.None? && Held(s, x).None? && !HasWanted(s, x)
  {
    hide UserOk;
  }

  lemma DeliverLoads(s: State, w: nat, x: nat)
    requires Inv(s) && CanStep(s, Deliver(w, x))
    ensures var t := Next(s, Deliver(w, x));
      && x in t.clients && Load(s.clients[x], Held(s, x)) == 17 && Load(t.clients[x], Held(t, x)) <= 14
      && ClientLoads(t) == ClientLoads(s)[x := Load(t.clients[x], Held(t, x))]
  {
    var t := Next(s, Deliver(w, x));
    assert ClientOk(s, x) && WorkerOk(s, w);
    SeekerHasNothing(s, x);
    GivenLightens(s.clients[x], s.workers[w].c, Held(t, x).value);
    hide LocalOk, ContainersOk, SlotsOk, Load;
    forall y | y in s.clients && y != x ensures Held(t, y) == Held(s, y) {
      assert ClientOk(s, y);
    }
    OneClientChanged(s, t, x);
  }

  lemma DeliverLightensTotal(s: State, w: nat, x: nat)
    requires Inv(s) && CanStep(s, Deliver(w, x))
    ensures Total(Next(s, Deliver(w, x))) < Total(s)
  {
    var t := Next(s, Deliver(w, x));
    DeliverLoads(s, w, x);
    assert WorkerOk(s, w);
    hide LocalOk, Load, Given, ClientsOk, ContainersOk, SlotsOk;
    forall v | 0 <= v < |s.workers| && v != w ensures SameLoad(s, t, v) {
      assert WorkerOk(s, v);
    }
    OneWorkerChanged(s, t, w);
    SumUpdate(ClientLoads(s), x, Load(t.clients[x], Held(t, x)));
    SumUpdate(WorkerLoads(s), w, 2);
  }

  lemma OfferedEndLightensTotal(s: State, c: nat, r: Result)
    requires Inv(s) && CanStep(s, ProcessWaited(c, r)) && s.containers[c].owner.Worker?
    ensures Total(Next(s, ProcessWaited(c, r))) < Total(s)
  {
    var t, w := Next(s, ProcessWaited(c, r)), s.containers[c].owner.w;
    assert ContainerOk(s, c);
    hide LocalOk, Load, ContainersOk, SlotsOk;
    forall y | y in s.clients ensures Held(t, y) == Held(s, y) {
      assert ClientOk(s, y);
    }
    NoClientChanged(s, t);
    forall v | 0 <= v < |s.workers| && v != w ensures SameLoad(s, t, v) {
      assert WorkerOk(s, v);
    }
    OneWorkerChanged(s, t, w);
    SumUpdate(WorkerLoads(s), w, 0);
  }

  lemma HeldEndLightensTotal(s: State, c: nat, r: Result)
    requires Inv(s) && CanStep(s, ProcessWaited(c, r)) && s.containers[c].owner.Client?
    ensures Total(Next(s, ProcessWaited(c, r))) < Total(s)
  {
    var t, x := Next(s, ProcessWaited(c, r)), s.containers[c].owner.x;
    assert ContainerOk(s, c);
    hide LocalOk, ContainersOk, SlotsOk;
    forall y | y in s.clients && y != x ensures Held(t, y) == Held(s, y) {
      assert ClientOk(s, y);
    }
    OneClientChanged(s, t, x);
    forall v | 0 <= v < |s.workers| ensures SameLoad(s, t, v) {
      assert WorkerOk(s, v);
    }
    NoWorkerChanged(s, t);
    SumUpdate(ClientLoads(s), x, Load(t.clients[x], Held(t, x)));
  }

  lemma ArrivalAddsLoad(s: State, x: nat, probe: bool)
    requires CanStep(s, Arrive(x, probe))
    ensures Total(Next(s, Arrive(x, probe))) <= Total(s) + 19
  {
    var t := Next(s, Arrive(x, probe));
    OneClientChanged(s, t, x);
    assert Load(t.clients[x], Held(t, x)) <= 19;
    hide Load, WorkerLoad, Held;
    assert WorkerLoads(t) == WorkerLoads(s);
    SumUpdate(ClientLoads(s), x, Load(t.clients[x], Held(t, x)));
  }

  lemma StepLightensTotal(s: State, a: Action)
    requires Inv(s) && CanStep(s, a)
    ensures Total(Next(s, a)) + 1 <= Total(s) + (if a.Arrive? then 20 else 0)
  {
    hide Inv, Next, Total;
    match a
    case StartContainer(w, c) => StartLightensTotal(s, w, c);
    case Deliver(w, x) => DeliverLightensTotal(s, w, x);
    case ProcessWaited(c, r) =>
      if s.containers[c].owner.Worker? {
        OfferedEndLightensTotal(s, c, r);
      } else {
        HeldEndLightensTotal(s, c, r);
      }
    case Arrive(x, probe) => ArrivalAddsLoad(s, x, probe);
    case Do(x, m) => MoveLightensTotal(s, x, m);
  }

  function Arrivals(run: seq<Action>): nat {
    if run == [] then 0 else (if run[0].Arrive? then 1 else 0) + Arrivals(run[1..])
  }

  lemma {:induction false} RunLightensTotal(s: State, run: seq<Action>)
    requires Inv(s) && IsRun(s, run)
    ensures |run| + Total(End(s, run)) <= Total(s) + 20 * Arrivals(run)
    decreases |run|
  {
    hide Inv, Next, CanStep, Total;
    if run != [] {
      StepKeepsInv(s, run[0]);
      StepLightensTotal(s, run[0]);
      RunLightensTotal(Next(s, run[0]), run[1..]);
    }
  }

  lemma {:induction false} SumConstant(m: map<nat, nat>, v: nat)
    requires forall x :: x in m ==> m[x] == v
    ensures Sum(m) == |m| * v
    decreases |m|
  {
    if m != map[] {
      var rest := m - {Pick(m)};
      assert rest.Keys == m.Keys - {Pick(m)};
      SumConstant(rest, v);
    }
  }

  lemma InitialTotal(numWorkers: nat)
    ensures Total(Init(numWorkers)) == 2 * numWorkers
  {
    var s := Init(numWorkers);
    assert ClientLoads(s) == map[];
    assert WorkerLoads(s).Keys == Below(numWorkers);
    SumConstant(WorkerLoads(s), 2);
  }

  /** No run is longer than two steps for each worker and twenty for each arrival. */
  lemma PoolRunsAreBounded(numWorkers: nat, run: seq<Action>)
    requires IsRun(Init(numWorkers), run)
    ensures |run| <= 2 * numWorkers + 20 * Arrivals(run)
  {
    hide Next, CanStep, Total;
    InitialInv(numWorkers);
    RunLightensTotal(Init(numWorkers), run);
    InitialTotal(numWorkers);
  }

  /** So, however the steps are interleaved, a run goes on until nothing is due, and then every handler that was
      given a container has replied and left, every health check has its verdict, and every container that was
      handed out is closed. */
  lemma EveryoneIsServed(numWorkers: nat, run: seq<Action>)
    requires numWorkers > 0 && IsRun(Init(numWorkers), run)
    requires forall a :: !DueInPool(End(Init(numWorkers), run), a)
    ensures var s := End(Init(numWorkers), run);
      && s.sem == 0
      && forall x :: x in s.clients ==>
           && Settled(s.clients[x])
           && (s.clients[x].container.Some? || s.clients[x].pc.ProbeFinished? ==> s.clients[x].reply.Some?)
  {
    var s := End(Init(numWorkers), run);
    assert Reachable(numWorkers, s);
    hide Init, Next, CanStep, IsRun, End, DueInPool;
    ReachableInv(numWorkers, s);
    forall x | x in s.clients
      ensures Settled(s.clients[x])
      ensures s.clients[x].container.Some? || s.clients[x].pc.ProbeFinished? ==> s.clients[x].reply.Some?
    {
      if !Settled(s.clients[x]) {
        PoolIsNeverStuck(numWorkers, s, x);
      }
      assert ClientOk(s, x);
    }
    assert SlotHolders(s) == {};
  }
}
