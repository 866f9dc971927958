/**
 Waiting for a container: the result travels through a channel with one buffer slot, and everyone who takes
 it puts it back for the next.
 */
module WaitToken {
  import opened Bytes

  datatype Waiter<E> = Wanting | Holding(err: E) | Returned(err: E)

  datatype State<E> = State(
    sent: Option<E>,               // what the producer has sent, if it has
    buffer: Option<E>,             // the channel's one slot
    waiters: map<nat, Waiter<E>>)

  datatype Action<E> = Produce(err: E) | Arrive(id: nat) | Take(id: nat) | PutBack(id: nat)

  predicate IsHolding<E>(s: State<E>, id: nat) { id in s.waiters && s.waiters[id].Holding? }

  /** A send needs a free slot, a receive a full one. */
  predicate CanStep<E(==)>(s: State<E>, a: Action<E>) {
    match a
    case Produce(_) => s.sent.None? && s.buffer.None?
    case Arrive(id) => id !in s.waiters
    case Take(id) => id in s.waiters && s.waiters[id].Wanting? && s.buffer.Some?
    case PutBack(id) => IsHolding(s, id) && s.buffer.None?
  }

  function Next<E(==)>(s: State<E>, a: Action<E>): State<E>
    requires CanStep(s, a)
  {
    match a
    case Produce(err) => s.(sent := Some(err), buffer := Some(err))
    case Arrive(id) => s.(waiters := s.waiters[id := Wanting])
    case Take(id) => s.(buffer := None, waiters := s.waiters[id := Holding(s.buffer.value)])
    case PutBack(id) =>
      var err := s.waiters[id].err;
      s.(buffer := Some(err), waiters := s.waiters[id := Returned(err)])
  }

  predicate IsRun<E(==)>(s: State<E>, run: seq<Action<E>>)
    decreases |run|
  {
    run == [] || (CanStep(s, run[0]) && IsRun(Next(s, run[0]), run[1..]))
  }

  function End<E(==)>(s: State<E>, run: seq<Action<E>>): State<E>
    requires IsRun(s, run)
    decreases |run|
  {
    if run == [] then s else End(Next(s, run[0]), run[1..])
  }

  function Start<E>(): State<E> { State(None, None, map[]) }

  ghost predicate Inv<E(!new)>(s: State<E>) {
    && (s.buffer.Some? ==> s.buffer == s.sent)
    && (forall id :: IsHolding(s, id) ==> s.buffer.None? && s.sent == Some(s.waiters[id].err))
    && (forall i, j :: IsHolding(s, i) && IsHolding(s, j) ==> i == j)
    && (s.sent.Some? && s.buffer.None? ==> exists id :: IsHolding(s, id))
    && (forall id :: id in s.waiters && s.waiters[id].Returned? ==> s.sent == Some(s.waiters[id].err))
  }

  lemma StepKeepsInv<E(!new)>(s: State<E>, a: Action<E>)
    requires Inv(s) && CanStep(s, a)
    ensures Inv(Next(s, a))
  {
    var t := Next(s, a);
    match a
    case Produce(_) =>
    case Arrive(id) =>
      assert forall i :: IsHolding(t, i) ==> IsHolding(s, i);
      if s.sent.Some? && s.buffer.None? {
        var h :| IsHolding(s, h);
        assert IsHolding(t, h);
      }
    case Take(id) => assert IsHolding(t, id);
    case PutBack(id) =>
      forall i ensures !IsHolding(t, i) {
        if i != id && IsHolding(t, i) { assert IsHolding(s, i); }
      }
  }

  lemma {:induction false} RunKeepsInv<E(!new)>(s: State<E>, run: seq<Action<E>>)
    requires Inv(s) && IsRun(s, run)
    ensures Inv(End(s, run))
    decreases |run|
  {
    if run != [] {
      StepKeepsInv(s, run[0]);
      RunKeepsInv(Next(s, run[0]), run[1..]);
    }
  }

  function Holders<E>(s: State<E>): set<nat> { set id | id in s.waiters && s.waiters[id].Holding? }

  lemma {:induction false} SentIsProduced<E>(s: State<E>, run: seq<Action<E>>, err: E)
    requires IsRun(s, run)
    ensures s.sent == Some(err) ==> End(s, run).sent == Some(err)
    ensures Produce(err) in run ==> End(s, run).sent == Some(err)
    ensures End(s, run).sent == Some(err) ==> s.sent == Some(err) || Produce(err) in run
    decreases |run|
  {
    if run != [] {
      SentIsProduced(Next(s, run[0]), run[1..], err);
    }
  }

  /** In every run: the value is in the buffer or with one waiter once it was sent, and nowhere before; a
      waiter who holds it can always put it back; everyone who returns, returns what was sent, which is what
      the producer produced; and the producer never has to wait. */
  lemma TokenIsConserved<E(!new)>(run: seq<Action<E>>)
    requires IsRun(Start(), run)
    ensures var s := End(Start(), run);
      && (if s.buffer.Some? then 1 else 0) + |Holders(s)| == (if s.sent.Some? then 1 else 0)
      && (forall id :: IsHolding(s, id) ==> CanStep(s, PutBack(id)))
      && (forall id :: id in s.waiters && s.waiters[id].Returned? ==> s.sent == Some(s.waiters[id].err))
      && (forall err :: s.sent == Some(err) <==> Produce(err) in run)
      && (s.sent.None? ==> forall err :: CanStep(s, Produce(err)))
  {
    RunKeepsInv(Start<E>(), run);
    var s := End(Start(), run);
    forall err ensures s.sent == Some(err) <==> Produce(err) in run {
      SentIsProduced(Start<E>(), run, err);
    }
    if h: nat :| IsHolding(s, h) {
      assert Holders(s) == {h} by {
        forall i | i in Holders(s) ensures i == h { assert IsHolding(s, i); }
      }
    } else {
      assert Holders(s) == {} by {
        forall i | i in Holders(s) ensures false { assert IsHolding(s, i); }
      }
    }
  }

  /** Once the value was sent, nobody is left waiting: as long as a waiter has not returned, one can move. */
  lemma NobodyIsStuck<E(!new)>(run: seq<Action<E>>, id: nat)
    requires IsRun(Start(), run) && End(Start(), run).sent.Some?
    requires id in End(Start(), run).waiters && !End(Start(), run).waiters[id].Returned?
    ensures var s := End(Start(), run);
      exists i :: CanStep(s, Take(i)) || CanStep(s, PutBack(i))
  {
    RunKeepsInv(Start<E>(), run);
    var s := End(Start(), run);
    if s.buffer.None? {
      var h :| IsHolding(s, h);
      assert CanStep(s, PutBack(h));
    } else {
      assert !IsHolding(s, id);
      assert CanStep(s, Take(id));
    }
  }

  // ---- how long it takes

  /** Steps a waiter has left. */
  function Pending<E>(w: Waiter<E>): nat { if w.Wanting? then 2 else if w.Holding? then 1 else 0 }

  predicate IsOwn<E(==)>(a: Action<E>, id: nat) { a == Take(id) || a == PutBack(id) }

  function OwnSteps<E(==)>(run: seq<Action<E>>, id: nat): nat {
    if run == [] then 0 else (if IsOwn(run[0], id) then 1 else 0) + OwnSteps(run[1..], id)
  }

  lemma StepAdvances<E>(s: State<E>, a: Action<E>, id: nat)
    requires CanStep(s, a) && id in s.waiters
    ensures id in Next(s, a).waiters
    ensures Pending(Next(s, a).waiters[id]) == Pending(s.waiters[id]) - (if IsOwn(a, id) then 1 else 0)
  {}

  /** In every run a waiter comes nearer to returning by each of its own steps, and nothing sets it back. */
  lemma {:induction false} WaitersOnlyAdvance<E>(s: State<E>, run: seq<Action<E>>, id: nat)
    requires IsRun(s, run) && id in s.waiters
    ensures id in End(s, run).waiters
    ensures Pending(End(s, run).waiters[id]) == Pending(s.waiters[id]) - OwnSteps(run, id)
    decreases |run|
  {
    hide Pending, IsOwn;
    if run != [] {
      StepAdvances(s, run[0], id);
      WaitersOnlyAdvance(Next(s, run[0]), run[1..], id);
    }
  }

  function Wanters<E>(s: State<E>): set<nat> { set id | id in s.waiters && s.waiters[id].Wanting? }

  function Leavers<E>(s: State<E>): set<nat> { set id | id in s.waiters && s.waiters[id].Returned? }

  /** Steps taken to get to `s`: one for sending, and one for each that a waiter has taken. */
  function Taken<E>(s: State<E>): nat {
    (if s.sent.Some? then 1 else 0) + |Wanters(s)| + 2 * |Holders(s)| + 3 * |Leavers(s)|
  }

  /** Changing one waiter moves it from one class to another. */
  lemma Reclassified<E>(s: State<E>, t: State<E>, id: nat)
    requires id in t.waiters && t.waiters == s.waiters[id := t.waiters[id]]
    ensures Wanters(t) == if t.waiters[id].Wanting? then Wanters(s) + {id} else Wanters(s) - {id}
    ensures Holders(t) == if t.waiters[id].Holding? then Holders(s) + {id} else Holders(s) - {id}
    ensures Leavers(t) == if t.waiters[id].Returned? then Leavers(s) + {id} else Leavers(s) - {id}
  {}

  lemma SizeWith(s: set<nat>, x: nat)
    ensures |s + {x}| == if x in s then |s| else |s| + 1
    ensures |s - {x}| == if x in s then |s| - 1 else |s|
  {
    if x in s {
      assert s + {x} == s;
    } else {
      assert s - {x} == s;
    }
  }

  /** What one waiter has taken is what it has left subtracted from three. */
  lemma WaiterIsCounted<E>(s: State<E>, t: State<E>, id: nat)
    requires id in t.waiters && t.waiters == s.waiters[id := t.waiters[id]] && t.sent == s.sent
    ensures Taken(t) - Taken(s) ==
      (if id in s.waiters then Pending(s.waiters[id]) else 3) - Pending(t.waiters[id])
  {
    Reclassified(s, t, id);
    SizeWith(Wanters(s), id);
    SizeWith(Holders(s), id);
    SizeWith(Leavers(s), id);
  }

  lemma StepIsCounted<E>(s: State<E>, a: Action<E>)
    requires CanStep(s, a)
    ensures Taken(Next(s, a)) == Taken(s) + 1
  {
    var t := Next(s, a);
    if a.Produce? {
      assert Wanters(t) == Wanters(s) && Holders(t) == Holders(s) && Leavers(t) == Leavers(s);
    } else {
      hide Taken;
      WaiterIsCounted(s, t, a.id);
    }
  }

  lemma {:induction false} RunIsCounted<E>(s: State<E>, run: seq<Action<E>>)
    requires IsRun(s, run)
    ensures Taken(End(s, run)) == Taken(s) + |run|
    decreases |run|
  {
    hide Taken;
    if run != [] {
      StepIsCounted(s, run[0]);
      RunIsCounted(Next(s, run[0]), run[1..]);
    }
  }

  /** A run in which the value was sent and no waiter can move has taken three steps for each waiter and one
      more, and everyone has returned. */
  lemma EveryoneReturns<E(!new)>(run: seq<Action<E>>)
    requires IsRun(Start(), run) && End(Start(), run).sent.Some?
    requires forall i :: !CanStep(End(Start(), run), Take(i)) && !CanStep(End(Start(), run), PutBack(i))
    ensures forall id :: id in End(Start(), run).waiters ==> End(Start(), run).waiters[id].Returned?
    ensures |run| == 1 + 3 * |End(Start(), run).waiters|
  {
    var s := End(Start(), run);
    forall id | id in s.waiters ensures s.waiters[id].Returned? {
      if !s.waiters[id].Returned? {
        NobodyIsStuck(run, id);
      }
    }
    RunIsCounted(Start<E>(), run);
    assert Taken(Start<E>()) == 0;
    assert Wanters(s) == {} && Holders(s) == {} && Leavers(s) == s.waiters.Keys;
  }
}
