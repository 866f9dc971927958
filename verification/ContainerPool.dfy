/**
 Containers, the workers that start them, the run handlers and health checks that use them, and the goroutines
 that close them. One action is one step of one of these. Waiting for a container is an atomic read of its
 result; `WaitToken` shows that the channel behind it behaves that way.
 */
module ContainerPool {
  import opened Bytes
  import WaitOrStop

  /** What `WaitOrStop` returned for a container's process. */
  type Result = Option<WaitOrStop.Error>

  /** The process was stopped, as opposed to having ended on its own. */
  predicate IsInterrupt(r: Result) { r.Some? && !r.value.FromWait? }

  datatype Owner = Worker(w: nat) | Client(x: nat)

  datatype Container = Container(
    owner: Owner,
    cancelled: bool,           // the context given to `WaitOrStop` is done
    result: Option<Result>)    // set once `WaitOrStop` has returned

  datatype WorkerPc = Starting | Offering(c: nat)

  /** The goroutine that closes a container: waits for the context, then runs `Close`, then signals. */
  datatype Closer = NotStarted | Watching | Unwanting | Cancelling | WaitingForEnd | Signalling | Closed

  datatype RunCtx = Live | TimedOut | Cancelled

  /** What a run handler answers, or a health check finds. */
  datatype Reply = TimeoutReply | Failure | Judged(err: Result) | Healthy | Unhealthy

  /** Statements of a run handler, then of a health check. */
  datatype Pc =
    | WantSlot | Reading | WantContainer | Feeding | Waiting | Checking | Replying
    | Cancel | AwaitClosed | ReleaseSlot | Finished
    | ProbeSeeking | ProbeClosing | ProbeFinished

  datatype ClientState = ClientState(
    pc: Pc,
    container: Option<nat>,
    waited: Option<Result>,    // what waiting for the container returned
    ctx: RunCtx,
    closer: Closer,
    reply: Option<Reply>)

  datatype State = State(
    workers: seq<WorkerPc>,
    clients: map<nat, ClientState>,
    containers: map<nat, Container>,   // by name; names are unique
    wanted: set<nat>,
    sem: nat)                          // slots of the run semaphore in use

  /** A step of a client itself, of its closer or of its timer. */
  datatype Move =
    | TakeSlot | LeaveWithoutSlot
    | ReadBody | FailBody
    | LeaveWithoutContainer
    | Feed | FailFeed
    | ReturnFromWait
    | SeeDone | SeeLive
    | SendReply
    | CancelCtx | Join | GiveSlot
    | EndProbe(healthy: bool)
    | Timeout
    | CloserWakes | Unwant | CancelCmd | CloserWaits | SignalClosed

  datatype Action =
    | StartContainer(w: nat, c: nat)
    | Deliver(w: nat, x: nat)
    | ProcessWaited(c: nat, r: Result)
    | Arrive(x: nat, probe: bool)
    | Do(x: nat, m: Move)

  /** The process of the container, if there is one, has been waited for. */
  predicate HasEnded(cont: Option<Container>) { cont.Some? && cont.value.result.Some? }

  /** `cont` is the record of the client's container, if it has one. */
  predicate CanMove(k: ClientState, cont: Option<Container>, m: Move) {
    match m
    case TakeSlot => k.pc.WantSlot?
    case LeaveWithoutSlot => k.pc.WantSlot?
    case ReadBody => k.pc.Reading?
    case FailBody => k.pc.Reading?
    case LeaveWithoutContainer => k.pc.WantContainer? || k.pc.ProbeSeeking?
    case Feed => k.pc.Feeding?
    case FailFeed => k.pc.Feeding?
    case ReturnFromWait => k.pc.Waiting? && HasEnded(cont)
    case SeeDone => k.pc.Checking? && !k.ctx.Live?
    case SeeLive => k.pc.Checking? && k.ctx.Live?
    case SendReply => k.pc.Replying? && k.waited.Some?
    case CancelCtx => k.pc.Cancel?
    case Join => k.pc.AwaitClosed? && k.closer.Closed?
    case GiveSlot => k.pc.ReleaseSlot?
    case EndProbe(healthy) => k.pc.ProbeClosing? && (healthy ==> k.closer.Closed?)
    case Timeout => k.ctx.Live? && k.closer.Watching?
    case CloserWakes => k.closer.Watching? && !k.ctx.Live?
    case Unwant => k.closer.Unwanting? && cont.Some?
    case CancelCmd => k.closer.Cancelling? && cont.Some?
    case CloserWaits => k.closer.WaitingForEnd? && HasEnded(cont)
    case SignalClosed => k.closer.Signalling?
  }

  function Moved(k: ClientState, cont: Option<Container>, m: Move): ClientState
    requires CanMove(k, cont, m)
  {
    match m
    case TakeSlot => k.(pc := Reading)
    case LeaveWithoutSlot => k.(pc := Finished)
    case ReadBody => k.(pc := WantContainer)
    case FailBody => k.(pc := ReleaseSlot, reply := Some(Failure))
    case LeaveWithoutContainer =>
      if k.pc.ProbeSeeking? then k.(pc := ProbeFinished, reply := Some(Unhealthy)) else k.(pc := ReleaseSlot)
    case Feed => k.(pc := Waiting)
    case FailFeed => k.(pc := Cancel, reply := Some(Failure))
    case ReturnFromWait => k.(pc := Checking, waited := cont.value.result)
    case SeeDone => k.(pc := Cancel, reply := Some(TimeoutReply))
    case SeeLive => k.(pc := Replying, ctx := RunCtx.Cancelled)
    case SendReply => k.(pc := Cancel, reply := Some(Judged(k.waited.value)))
    case CancelCtx => k.(pc := AwaitClosed, ctx := if k.ctx.Live? then RunCtx.Cancelled else k.ctx)
    case Join => k.(pc := ReleaseSlot)
    case GiveSlot => k.(pc := Finished)
    case EndProbe(healthy) => k.(pc := ProbeFinished, reply := Some(if healthy then Healthy else Unhealthy))
    case Timeout => k.(ctx := TimedOut)
    case CloserWakes => k.(closer := Unwanting)
    case Unwant => k.(closer := Cancelling)
    case CancelCmd => k.(closer := WaitingForEnd)
    case CloserWaits => k.(closer := Signalling)
    case SignalClosed => k.(closer := Closed)
  }

  function Touched(cont: Container, m: Move): Container { if m.CancelCmd? then cont.(cancelled := true) else cont }

  predicate At(s: State, x: nat, pc: Pc) { x in s.clients && s.clients[x].pc == pc }

  /** The record of the container that client `x` was given. */
  function Held(s: State, x: nat): Option<Container>
    requires x in s.clients
  {
    match s.clients[x].container
    case Some(c) => if c in s.containers then Some(s.containers[c]) else None
    case None => None
  }

  predicate CanStep(s: State, a: Action) {
    match a
    case StartContainer(w, c) => w < |s.workers| && s.workers[w].Starting? && c !in s.containers
    case Deliver(w, x) =>
      w < |s.workers| && s.workers[w].Offering? && s.workers[w].c in s.containers
      && (At(s, x, WantContainer) || At(s, x, ProbeSeeking))
    case ProcessWaited(c, r) =>
      c in s.containers && s.containers[c].result.None? && (IsInterrupt(r) ==> s.containers[c].cancelled)
    case Arrive(x, _) => x !in s.clients
    case Do(x, m) =>
      && x in s.clients && CanMove(s.clients[x], Held(s, x), m)
      && (m.TakeSlot? ==> s.sem < |s.workers|)
      && (m.GiveSlot? ==> s.sem > 0)
  }

  const NEW_RUN := ClientState(WantSlot, None, None, Live, NotStarted, None)

  function Given(k: ClientState, c: nat): ClientState {
    if k.pc.ProbeSeeking?
    then k.(pc := ProbeClosing, container := Some(c), ctx := RunCtx.Cancelled, closer := Unwanting)
    else k.(pc := Feeding, container := Some(c), ctx := Live, closer := Watching)
  }

  function Next(s: State, a: Action): State
    requires CanStep(s, a)
  {
    match a
    case StartContainer(w, c) =>
      s.(workers := s.workers[w := Offering(c)],
         containers := s.containers[c := Container(Worker(w), false, None)],
         wanted := s.wanted + {c})
    case Deliver(w, x) =>
      var c := s.workers[w].c;
      s.(workers := s.workers[w := Starting],
         containers := s.containers[c := s.containers[c].(owner := Client(x))],
         clients := s.clients[x := Given(s.clients[x], c)])
    case ProcessWaited(c, r) => s.(containers := s.containers[c := s.containers[c].(result := Some(r))])
    case Arrive(x, probe) =>
      s.(clients := s.clients[x := if probe then NEW_RUN.(pc := ProbeSeeking) else NEW_RUN])
    case Do(x, m) =>
      var k, cont := s.clients[x], Held(s, x);
      State(s.workers,
            s.clients[x := Moved(k, cont, m)],
            if cont.Some? then s.containers[k.container.value := Touched(cont.value, m)] else s.containers,
            if m.Unwant? then s.wanted - {k.container.value} else s.wanted,
            s.sem + (if m.TakeSlot? then 1 else if m.GiveSlot? then -1 else 0))
  }

  function Init(numWorkers: nat): State { State(seq(numWorkers, i => Starting), map[], map[], {}, 0) }

  predicate IsRun(s: State, run: seq<Action>)
    decreases |run|
  {
    run == [] || (CanStep(s, run[0]) && IsRun(Next(s, run[0]), run[1..]))
  }

  function End(s: State, run: seq<Action>): State
    requires IsRun(s, run)
    decreases |run|
  {
    if run == [] then s else End(Next(s, run[0]), run[1..])
  }

  // ---- the invariant, entity by entity

  predicate Before(pc: Pc) { pc.WantSlot? || pc.Reading? || pc.WantContainer? || pc.ProbeSeeking? }

  predicate Using(pc: Pc) {
    pc.Feeding? || pc.Waiting? || pc.Checking? || pc.Replying? || pc.Cancel? || pc.AwaitClosed? || pc.ProbeClosing?
  }

  /** Between taking and giving back a slot of the semaphore. */
  predicate HoldsSlot(pc: Pc) {
    pc.Reading? || pc.WantContainer? || pc.ReleaseSlot? || (Using(pc) && !pc.ProbeClosing?)
  }

  /** A client that has container `c`, whose record is `cont`. */
  predicate UserOk(k: ClientState, cont: Container, wanted: bool) {
    && !k.closer.NotStarted?
    && (k.ctx.Live? ==> k.closer.Watching?)
    && (wanted <==> k.closer.Watching? || k.closer.Unwanting?)
    && (cont.cancelled <==> k.closer.WaitingForEnd? || k.closer.Signalling? || k.closer.Closed?)
    && (k.closer.Signalling? || k.closer.Closed? ==> cont.result.Some?)
    && (k.pc.Replying? || k.pc.AwaitClosed? || k.pc.ProbeClosing? || k.pc.ProbeFinished? ==> !k.ctx.Live?)
    && (k.pc.ReleaseSlot? || k.pc.Finished? ==> k.closer.Closed?)
    && (k.waited.Some? ==> cont.result == k.waited)
    && (k.pc.Checking? || k.pc.Replying? ==> k.waited.Some?)
    && (k.pc.Replying? ==> !IsInterrupt(k.waited.value))
    && (k.reply.Some? && k.reply.value.Judged? ==>
          k.waited == Some(k.reply.value.err) && !IsInterrupt(k.reply.value.err))
    && (k.reply == Some(Healthy) ==> k.closer.Closed?)
    && (Using(k.pc) && !k.pc.Cancel? && !k.pc.AwaitClosed? <==> k.reply.None?)
    && (k.pc.Feeding? || k.pc.Waiting? || k.pc.ProbeClosing? ==> k.waited.None?)
    && (k.waited.Some? && k.reply.Some? ==> k.reply.value.TimeoutReply? || k.reply.value.Judged?)
    && (k.reply == Some(TimeoutReply) ==> k.waited.Some? && !k.ctx.Live?)
  }

  /** What holds of a client, its container record if it has one, and whether that container is wanted. */
  predicate LocalOk(k: ClientState, cont: Option<Container>, wanted: bool) {
    && (Before(k.pc) ==> k.container.None? && k.reply.None?)
    && (Using(k.pc) ==> k.container.Some?)
    && (k.pc.ProbeFinished? ==> k.reply == Some(Healthy) || k.reply == Some(Unhealthy))
    && (k.container.Some? <==> cont.Some?)
    && match cont
       case None =>
         k.reply != Some(TimeoutReply) && k.ctx.Live? && k.closer.NotStarted? && k.waited.None?
         && !(k.reply.Some? && k.reply.value.Judged?) && k.reply != Some(Healthy)
       case Some(cont) => UserOk(k, cont, wanted)
  }

  predicate HasWanted(s: State, x: nat)
    requires x in s.clients
  {
    s.clients[x].container.Some? && s.clients[x].container.value in s.wanted
  }

  predicate ClientOk(s: State, x: nat)
    requires x in s.clients
  {
    && LocalOk(s.clients[x], Held(s, x), HasWanted(s, x))
    && (Held(s, x).Some? ==> Held(s, x).value.owner == Client(x))
  }

  predicate ContainerOk(s: State, c: nat)
    requires c in s.containers
  {
    var cont := s.containers[c];
    && (cont.result.Some? && IsInterrupt(cont.result.value) ==> cont.cancelled)
    && match cont.owner
       case Worker(w) => w < |s.workers| && s.workers[w] == Offering(c) && c in s.wanted && !cont.cancelled
       case Client(x) => x in s.clients && s.clients[x].container == Some(c)
  }

  predicate WorkerOk(s: State, w: nat)
    requires w < |s.workers|
  {
    s.workers[w].Offering? ==>
      s.workers[w].c in s.containers && s.containers[s.workers[w].c].owner == Worker(w)
  }

  function SlotHolders(s: State): set<nat> { set x | x in s.clients && HoldsSlot(s.clients[x].pc) }

  predicate SlotsOk(s: State) { s.sem == |SlotHolders(s)| <= |s.workers| }

  predicate ClientsOk(s: State) { forall x :: x in s.clients ==> ClientOk(s, x) }

  predicate ContainersOk(s: State) { forall c :: c in s.containers ==> ContainerOk(s, c) }

  predicate WorkersOk(s: State) { forall w :: 0 <= w < |s.workers| ==> WorkerOk(s, w) }

  predicate Inv(s: State) {
    && ClientsOk(s) && ContainersOk(s) && WorkersOk(s) && SlotsOk(s)
    && s.wanted <= s.containers.Keys
  }

  // ---- moves of one client

  predicate InterruptNeedsCancel(cont: Container) {
    cont.result.Some? && IsInterrupt(cont.result.value) ==> cont.cancelled
  }

  predicate IsCloserMove(m: Move) {
    m.Timeout? || m.CloserWakes? || m.Unwant? || m.CancelCmd? || m.CloserWaits? || m.SignalClosed?
  }

  lemma CloserMoveKeepsUser(k: ClientState, cont: Container, wanted: bool, m: Move)
    requires LocalOk(k, Some(cont), wanted) && CanMove(k, Some(cont), m) && IsCloserMove(m)
    ensures LocalOk(Moved(k, Some(cont), m), Some(Touched(cont, m)), wanted && !m.Unwant?)
  {}

  lemma ClientMoveKeepsUser(k: ClientState, cont: Container, wanted: bool, m: Move)
    requires LocalOk(k, Some(cont), wanted) && InterruptNeedsCancel(cont)
    requires CanMove(k, Some(cont), m) && !IsCloserMove(m)
    ensures LocalOk(Moved(k, Some(cont), m), Some(Touched(cont, m)), wanted && !m.Unwant?)
  {}

  lemma MoveWithoutContainer(k: ClientState, wanted: bool, m: Move)
    requires LocalOk(k, None, wanted) && CanMove(k, None, m)
    ensures LocalOk(Moved(k, None, m), None, wanted && !m.Unwant?)
  {}

  lemma MoveAndSlot(k: ClientState, cont: Option<Container>, wanted: bool, m: Move)
    requires LocalOk(k, cont, wanted) && CanMove(k, cont, m)
    ensures Moved(k, cont, m).container == k.container
    ensures m.Unwant? ==> cont.Some?
    ensures m.TakeSlot? ==> !HoldsSlot(k.pc) && HoldsSlot(Moved(k, cont, m).pc)
    ensures m.GiveSlot? ==> HoldsSlot(k.pc) && !HoldsSlot(Moved(k, cont, m).pc)
    ensures !m.TakeSlot? && !m.GiveSlot? ==> HoldsSlot(Moved(k, cont, m).pc) == HoldsSlot(k.pc)
  {
    hide UserOk;
  }

  /** What a move leaves alone. */
  lemma MoveIsLocal(s: State, x: nat, m: Move)
    requires CanStep(s, Do(x, m)) && ClientOk(s, x)
    ensures var t := Next(s, Do(x, m));
      && t.workers == s.workers
      && t.clients.Keys == s.clients.Keys && t.containers.Keys == s.containers.Keys
      && (forall y :: y in s.clients && y != x ==> t.clients[y] == s.clients[y])
      && t.clients[x] == Moved(s.clients[x], Held(s, x), m)
      && (forall c :: c in s.containers ==>
            t.containers[c] == if s.clients[x].container == Some(c) then Touched(s.containers[c], m)
                               else s.containers[c])
      && (forall c :: c in t.wanted <==> c in s.wanted && !(m.Unwant? && s.clients[x].container == Some(c)))
  {
    hide CanMove, Moved, UserOk;
    MoveAndSlot(s.clients[x], Held(s, x), HasWanted(s, x), m);
  }

  lemma MoveKeepsMover(s: State, x: nat, m: Move)
    requires CanStep(s, Do(x, m)) && Inv(s)
    ensures ClientOk(Next(s, Do(x, m)), x)
  {
    assert ClientOk(s, x);
    MoveIsLocal(s, x, m);
    var k, t := s.clients[x], Next(s, Do(x, m));
    hide CanMove, Moved, UserOk, CanStep, Next, IsCloserMove;
    MoveAndSlot(k, Held(s, x), HasWanted(s, x), m);
    match Held(s, x)
    case None => MoveWithoutContainer(k, HasWanted(s, x), m);
    case Some(cont) =>
      assert ContainerOk(s, k.container.value);
      if IsCloserMove(m) {
        CloserMoveKeepsUser(k, cont, HasWanted(s, x), m);
      } else {
        ClientMoveKeepsUser(k, cont, HasWanted(s, x), m);
      }
  }

  lemma SlotsUnchanged(s: State, t: State)
    requires SlotsOk(s) && t.sem == s.sem && |t.workers| == |s.workers|
    requires SlotHolders(t) == SlotHolders(s)
    ensures SlotsOk(t)
  {}

  lemma SameSlots(s: State, t: State, x: nat)
    requires x in s.clients && x in t.clients && t.clients == s.clients[x := t.clients[x]]
    ensures SlotHolders(t) == if HoldsSlot(t.clients[x].pc) then SlotHolders(s) + {x} else SlotHolders(s) - {x}
  {}

  lemma SlotsAfter(s: State, t: State, x: nat)
    requires SlotsOk(s) && |t.workers| == |s.workers|
    requires x in s.clients && x in t.clients && t.clients == s.clients[x := t.clients[x]]
    requires var before, after := HoldsSlot(s.clients[x].pc), HoldsSlot(t.clients[x].pc);
      if before == after then t.sem == s.sem
      else if after then t.sem == s.sem + 1 <= |s.workers|
      else t.sem == s.sem - 1
    ensures SlotsOk(t)
  {
    hide HoldsSlot;
    SameSlots(s, t, x);
    var holders := SlotHolders(s);
    if HoldsSlot(s.clients[x].pc) {
      assert x in holders;
      assert |holders - {x}| == |holders| - 1;
      assert HoldsSlot(t.clients[x].pc) ==> holders + {x} == holders;
    } else {
      assert x !in holders;
      assert |holders + {x}| == |holders| + 1;
      assert !HoldsSlot(t.clients[x].pc) ==> holders - {x} == holders;
    }
  }

  lemma MoveKeepsSlots(s: State, x: nat, m: Move)
    requires CanStep(s, Do(x, m)) && Inv(s)
    ensures SlotsOk(Next(s, Do(x, m)))
  {
    hide CanMove, Moved, HoldsSlot, UserOk, ContainersOk, WorkersOk, SlotsOk;
    assert ClientOk(s, x);
    MoveAndSlot(s.clients[x], Held(s, x), HasWanted(s, x), m);
    SlotsAfter(s, Next(s, Do(x, m)), x);
  }

  /** Another client has another container. */
  lemma OthersKeep(s: State, x: nat, y: nat)
    requires x in s.clients && y in s.clients && x != y && ClientOk(s, x) && ClientOk(s, y)
    ensures s.clients[y].container.Some? ==> s.clients[y].container != s.clients[x].container
  {
    hide UserOk;
  }

  lemma MoveKeepsClients(s: State, x: nat, m: Move)
    requires Inv(s) && CanStep(s, Do(x, m))
    ensures ClientsOk(Next(s, Do(x, m)))
  {
    assert ClientOk(s, x);
    MoveIsLocal(s, x, m);
    MoveKeepsMover(s, x, m);
    var t := Next(s, Do(x, m));
    hide Next, CanStep, CanMove, Moved, LocalOk, ContainersOk, WorkersOk, SlotsOk;
    forall y | y in t.clients ensures ClientOk(t, y) {
      assert ClientOk(s, y);
      if y != x { OthersKeep(s, x, y); }
    }
  }

  lemma MoveKeepsContainer(s: State, x: nat, m: Move, c: nat)
    requires CanStep(s, Do(x, m)) && ClientOk(s, x) && c in s.containers && ContainerOk(s, c)
    ensures c in Next(s, Do(x, m)).containers && ContainerOk(Next(s, Do(x, m)), c)
  {
    MoveIsLocal(s, x, m);
    MoveAndSlot(s.clients[x], Held(s, x), HasWanted(s, x), m);
    hide Next, CanStep, CanMove, Moved, LocalOk;
  }

  lemma MoveKeepsInv(s: State, x: nat, m: Move)
    requires Inv(s) && CanStep(s, Do(x, m))
    ensures Inv(Next(s, Do(x, m)))
  {
    assert ClientOk(s, x);
    MoveIsLocal(s, x, m);
    MoveKeepsClients(s, x, m);
    MoveKeepsSlots(s, x, m);
    var t := Next(s, Do(x, m));
    hide Next, CanStep, CanMove, Moved, ClientOk, ClientsOk, ContainerOk, SlotsOk;
    forall c | c in t.containers ensures ContainerOk(t, c) {
      MoveKeepsContainer(s, x, m, c);
    }
    forall w | 0 <= w < |t.workers| ensures WorkerOk(t, w) {
      assert WorkerOk(s, w);
    }
  }

  // ---- the other steps

  lemma StartKeepsInv(s: State, w: nat, c: nat)
    requires Inv(s) && CanStep(s, StartContainer(w, c))
    ensures Inv(Next(s, StartContainer(w, c)))
  {
    hide UserOk, HoldsSlot, Before, Using;
    var t := Next(s, StartContainer(w, c));
    forall y | y in t.clients ensures ClientOk(t, y) {
      assert ClientOk(s, y);
    }
    forall d | d in t.containers ensures ContainerOk(t, d) {
      if d != c { assert ContainerOk(s, d); }
    }
    forall v | 0 <= v < |t.workers| ensures WorkerOk(t, v) {
      assert WorkerOk(s, v);
    }
    SlotsUnchanged(s, t);
  }

  lemma DeliverServes(s: State, w: nat, x: nat)
    requires Inv(s) && CanStep(s, Deliver(w, x))
    ensures ClientOk(Next(s, Deliver(w, x)), x)
  {
    assert ClientOk(s, x) && WorkerOk(s, w) && ContainerOk(s, s.workers[w].c);
  }

  lemma DeliverKeepsClients(s: State, w: nat, x: nat)
    requires Inv(s) && CanStep(s, Deliver(w, x))
    ensures ClientsOk(Next(s, Deliver(w, x)))
  {
    DeliverServes(s, w, x);
    hide LocalOk, ContainersOk, SlotsOk, Given;
    var t := Next(s, Deliver(w, x));
    assert WorkerOk(s, w);
    forall y | y in t.clients ensures ClientOk(t, y) {
      assert ClientOk(s, y);
    }
  }

  lemma DeliverKeepsInv(s: State, w: nat, x: nat)
    requires Inv(s) && CanStep(s, Deliver(w, x))
    ensures Inv(Next(s, Deliver(w, x)))
  {
    hide UserOk, SlotsOk;
    var t := Next(s, Deliver(w, x));
    assert ClientOk(s, x) && WorkerOk(s, w);
    DeliverKeepsClients(s, w, x);
    hide ClientsOk;
    forall d | d in t.containers ensures ContainerOk(t, d) {
      assert ContainerOk(s, d);
    }
    forall v | 0 <= v < |t.workers| ensures WorkerOk(t, v) {
      assert WorkerOk(s, v);
    }
    SlotsAfter(s, t, x);
  }

  lemma ProcessWaitedKeepsInv(s: State, c: nat, r: Result)
    requires Inv(s) && CanStep(s, ProcessWaited(c, r))
    ensures Inv(Next(s, ProcessWaited(c, r)))
  {
    hide HoldsSlot, Before, Using;
    var t := Next(s, ProcessWaited(c, r));
    forall y | y in t.clients ensures ClientOk(t, y) {
      assert ClientOk(s, y);
    }
    forall d | d in t.containers ensures ContainerOk(t, d) {
      assert ContainerOk(s, d);
    }
    forall v | 0 <= v < |t.workers| ensures WorkerOk(t, v) {
      assert WorkerOk(s, v);
    }
    SlotsUnchanged(s, t);
  }

  lemma ArriveKeepsInv(s: State, x: nat, probe: bool)
    requires Inv(s) && x !in s.clients
    ensures Inv(Next(s, Arrive(x, probe)))
  {
    hide UserOk;
    var t := Next(s, Arrive(x, probe));
    forall y | y in t.clients ensures ClientOk(t, y) {
      if y != x { assert ClientOk(s, y); }
    }
    forall d | d in t.containers ensures ContainerOk(t, d) {
      assert ContainerOk(s, d);
    }
    forall v | 0 <= v < |t.workers| ensures WorkerOk(t, v) {
      assert WorkerOk(s, v);
    }
    assert SlotHolders(t) == SlotHolders(s);
    SlotsUnchanged(s, t);
  }

  lemma StepKeepsInv(s: State, a: Action)
    requires Inv(s) && CanStep(s, a)
    ensures Inv(Next(s, a))
  {
    hide Inv, Next;
    match a
    case StartContainer(w, c) => StartKeepsInv(s, w, c);
    case Deliver(w, x) => DeliverKeepsInv(s, w, x);
    case ProcessWaited(c, r) => ProcessWaitedKeepsInv(s, c, r);
    case Arrive(x, probe) => ArriveKeepsInv(s, x, probe);
    case Do(x, m) => MoveKeepsInv(s, x, m);
  }

  lemma {:induction false} RunKeepsInv(s: State, run: seq<Action>)
    requires Inv(s) && IsRun(s, run)
    ensures Inv(End(s, run))
    decreases |run|
  {
    hide Inv, Next, CanStep;
    if run != [] {
      StepKeepsInv(s, run[0]);
      RunKeepsInv(Next(s, run[0]), run[1..]);
    }
  }

  ghost predicate Reachable(numWorkers: nat, s: State) {
    exists run :: IsRun(Init(numWorkers), run) && End(Init(numWorkers), run) == s
  }

  lemma InitialInv(numWorkers: nat)
    ensures Inv(Init(numWorkers))
  {
    assert SlotHolders(Init(numWorkers)) == {};
  }

  lemma {:induction false} WorkersStay(s: State, run: seq<Action>)
    requires IsRun(s, run)
    ensures |End(s, run).workers| == |s.workers|
    decreases |run|
  {
    if run != [] {
      WorkersStay(Next(s, run[0]), run[1..]);
    }
  }

  lemma ReachableInv(numWorkers: nat, s: State)
    requires Reachable(numWorkers, s)
    ensures Inv(s) && |s.workers| == numWorkers
  {
    hide Next, CanStep;
    var run :| IsRun(Init(numWorkers), run) && End(Init(numWorkers), run) == s;
    InitialInv(numWorkers);
    RunKeepsInv(Init(numWorkers), run);
    WorkersStay(Init(numWorkers), run);
  }

  // ---- interrupted runs never pass as results

  /** The rule for `ProcessWaited`: waiting for a process reports that it was stopped exactly if a signal was
      sent, or failed to be sent, while it was still there, and then its context was done. */
  lemma StoppedOnlyWhenDone(killDelay: int, run: seq<WaitOrStop.Action>)
    requires WaitOrStop.IsRun(killDelay, WaitOrStop.INIT, run)
    requires WaitOrStop.End(killDelay, WaitOrStop.INIT, run).caller.Returned?
    ensures var s := WaitOrStop.End(killDelay, WaitOrStop.INIT, run);
      && (IsInterrupt(s.caller.result)
          <==> exists o: WaitOrStop.SignalOutcome :: WaitOrStop.SendSignal(o) in run && !o.AlreadyFinished?)
      && (IsInterrupt(s.caller.result) ==> exists cause :: WaitOrStop.ContextDone(cause) in run)
  {
    var s := WaitOrStop.End(killDelay, WaitOrStop.INIT, run);
    assert WaitOrStop.Reachable(killDelay, s);
    WaitOrStop.Attribution(killDelay, s);
    WaitOrStop.RunIsRemembered(killDelay, WaitOrStop.INIT, run);
    if IsInterrupt(s.caller.result) {
      assert WaitOrStop.SendSignal(s.signal.value) in run;
      assert WaitOrStop.ContextDone(s.ctx.value) in run;
    }
  }

  /** A reply made from the outcome of a run is made from a run that was not interrupted, and from the outcome
      of the container the handler was given. */
  lemma NoInterruptedReply(numWorkers: nat, s: State, x: nat)
    requires Reachable(numWorkers, s) && x in s.clients
    requires s.clients[x].reply.Some? && s.clients[x].reply.value.Judged?
    ensures !IsInterrupt(s.clients[x].reply.value.err)
    ensures Held(s, x).Some? && Held(s, x).value.result == Some(s.clients[x].reply.value.err)
  {
    ReachableInv(numWorkers, s);
    assert ClientOk(s, x);
  }

  /** After an interrupted wait only the timeout branch can be taken. */
  lemma InterruptedMeansTimeout(numWorkers: nat, s: State, x: nat)
    requires Reachable(numWorkers, s) && At(s, x, Checking)
    ensures s.clients[x].waited.Some?
    ensures IsInterrupt(s.clients[x].waited.value) ==> CanStep(s, Do(x, SeeDone)) && !CanStep(s, Do(x, SeeLive))
  {
    ReachableInv(numWorkers, s);
    assert ClientOk(s, x);
    assert ContainerOk(s, s.clients[x].container.value);
  }

  /** Who has waited for a container answers with a timeout or with the outcome, and with a timeout if the wait
      was interrupted; and a timeout is answered only after waiting. */
  lemma AnswerAfterWaiting(numWorkers: nat, s: State, x: nat)
    requires Reachable(numWorkers, s) && x in s.clients && s.clients[x].reply.Some?
    ensures var k := s.clients[x];
      && (k.waited.Some? ==> k.reply.value.TimeoutReply? || k.reply.value == Judged(k.waited.value))
      && (k.waited.Some? && IsInterrupt(k.waited.value) ==> k.reply.value.TimeoutReply?)
      && (k.reply.value.TimeoutReply? ==> k.waited.Some? && !k.ctx.Live?)
  {
    ReachableInv(numWorkers, s);
    assert ClientOk(s, x);
  }

  /** A handler that was given a container leaves only after it has replied and the container was closed: its
      process has been waited for and its name is no longer wanted. */
  lemma ClosedBeforeLeaving(numWorkers: nat, s: State, x: nat)
    requires Reachable(numWorkers, s) && (At(s, x, ReleaseSlot) || At(s, x, Finished))
    requires s.clients[x].container.Some?
    ensures s.clients[x].reply.Some? && s.clients[x].closer.Closed?
    ensures Held(s, x).Some? && Held(s, x).value.cancelled && Held(s, x).value.result.Some?
    ensures s.clients[x].container.value !in s.wanted
  {
    ReachableInv(numWorkers, s);
    assert ClientOk(s, x);
  }

  /** A health check finds the pool healthy only after the container it was given was closed. */
  lemma HealthyMeansClosed(numWorkers: nat, s: State, x: nat)
    requires Reachable(numWorkers, s) && x in s.clients && s.clients[x].reply == Some(Healthy)
    ensures s.clients[x].closer.Closed?
    ensures Held(s, x).Some? && Held(s, x).value.cancelled && Held(s, x).value.result.Some?
    ensures s.clients[x].container.value !in s.wanted
  {
    ReachableInv(numWorkers, s);
    assert ClientOk(s, x);
  }

  /** A health check that is over has come to one of two verdicts. */
  lemma ProbesAreDecided(numWorkers: nat, s: State, x: nat)
    requires Reachable(numWorkers, s) && At(s, x, ProbeFinished)
    ensures s.clients[x].reply == Some(Healthy) || s.clients[x].reply == Some(Unhealthy)
    ensures s.clients[x].container.None? ==> s.clients[x].reply == Some(Unhealthy)
  {
    ReachableInv(numWorkers, s);
    assert ClientOk(s, x);
  }

  // ---- bounds and ownership

  lemma {:induction false} InjectionBound(m: map<nat, nat>, to: set<nat>)
    requires forall c :: c in m ==> m[c] in to
    requires forall c, d :: c in m && d in m && m[c] == m[d] ==> c == d
    ensures |m| <= |to|
  {
    if m != map[] {
      var c :| c in m;
      var rest := map d | d in m && d != c :: m[d];
      assert rest.Keys == m.Keys - {c};
      InjectionBound(rest, to - {m[c]});
    }
  }

  function Below(n: nat): (r: set<nat>)
    ensures forall w: nat :: w in r <==> w < n
    ensures |r| == n
  {
    if n == 0 then {} else Below(n - 1) + {n - 1}
  }

  /** A container handed to a run handler and not yet closed. */
  predicate InUse(s: State, c: nat) {
    && c in s.containers && s.containers[c].owner.Client?
    && s.containers[c].owner.x in s.clients
    && var k := s.clients[s.containers[c].owner.x];
       !k.pc.ProbeClosing? && !k.pc.ProbeFinished? && !k.closer.Closed?
  }

  lemma UserHoldsSlot(s: State, c: nat)
    requires Inv(s) && InUse(s, c)
    ensures s.containers[c].owner.x in SlotHolders(s)
  {
    var x := s.containers[c].owner.x;
    assert ContainerOk(s, c) && ClientOk(s, x);
  }

  /** In every run at most `numWorkers` containers are waiting to be handed out, and at most `numWorkers` are in
      the hands of run handlers: the slot is given back only after the container is closed. */
  lemma PoolBounds(numWorkers: nat, s: State)
    requires Reachable(numWorkers, s)
    ensures s.sem <= numWorkers
    ensures |set c | c in s.containers && s.containers[c].owner.Worker?| <= numWorkers
    ensures |set c | c in s.containers && InUse(s, c)| <= numWorkers
  {
    ReachableInv(numWorkers, s);
    var offered := map c | c in s.containers && s.containers[c].owner.Worker? :: s.containers[c].owner.w;
    forall c | c in offered ensures offered[c] in Below(numWorkers) { assert ContainerOk(s, c); }
    forall c, d | c in offered && d in offered && offered[c] == offered[d] ensures c == d {
      assert ContainerOk(s, c) && ContainerOk(s, d);
    }
    InjectionBound(offered, Below(numWorkers));
    assert offered.Keys == set c | c in s.containers && s.containers[c].owner.Worker?;
    var used := map c | c in s.containers && InUse(s, c) :: s.containers[c].owner.x;
    forall c | c in used ensures used[c] in SlotHolders(s) { UserHoldsSlot(s, c); }
    forall c, d | c in used && d in used && used[c] == used[d] ensures c == d {
      assert ContainerOk(s, c) && ContainerOk(s, d);
    }
    InjectionBound(used, SlotHolders(s));
    assert used.Keys == set c | c in s.containers && InUse(s, c);
  }

  /** No two clients are ever given the same container, and none is given one that is still on offer. */
  lemma OneOwner(numWorkers: nat, s: State, x: nat, c: nat)
    requires Reachable(numWorkers, s) && x in s.clients && s.clients[x].container == Some(c)
    ensures forall y :: y in s.clients && s.clients[y].container == Some(c) ==> y == x
    ensures forall w :: 0 <= w < |s.workers| ==> s.workers[w] != Offering(c)
  {
    ReachableInv(numWorkers, s);
    assert ClientOk(s, x);
    forall y | y in s.clients && s.clients[y].container == Some(c) ensures y == x { assert ClientOk(s, y); }
    forall w | 0 <= w < |s.workers| ensures s.workers[w] != Offering(c) { assert WorkerOk(s, w); }
  }

  lemma StepKeepsOwner(s: State, a: Action, c: nat)
    requires Inv(s) && CanStep(s, a) && c in s.containers && s.containers[c].owner.Client?
    ensures c in Next(s, a).containers && Next(s, a).containers[c].owner == s.containers[c].owner
  {
    if a.Deliver? {
      assert WorkerOk(s, a.w);
    }
  }

  /** Once handed out, a container stays with its client for the rest of the run: it never goes back to the
      ready channel. */
  lemma {:induction false} NeverHandedOutAgain(s: State, run: seq<Action>, c: nat)
    requires Inv(s) && IsRun(s, run) && c in s.containers && s.containers[c].owner.Client?
    ensures c in End(s, run).containers && End(s, run).containers[c].owner == s.containers[c].owner
    decreases |run|
  {
    hide Inv;
    if run != [] {
      StepKeepsInv(s, run[0]);
      StepKeepsOwner(s, run[0], c);
      NeverHandedOutAgain(Next(s, run[0]), run[1..], c);
    }
  }

  /** The names marked wanted are exactly those of started containers whose closing has not begun. */
  lemma WantedExactly(numWorkers: nat, s: State, c: nat)
    requires Reachable(numWorkers, s)
    ensures c in s.wanted <==>
      c in s.containers
      && (s.containers[c].owner.Client? ==>
            s.containers[c].owner.x in s.clients
            && var closer := s.clients[s.containers[c].owner.x].closer; closer.Watching? || closer.Unwanting?)
  {
    ReachableInv(numWorkers, s);
    if c in s.containers {
      assert ContainerOk(s, c);
      if s.containers[c].owner.Client? { assert ClientOk(s, s.containers[c].owner.x); }
    }
  }
}
