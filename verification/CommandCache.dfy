/**
 The response cache in front of the compile and vet commands. Requests of one or more servers interleave; the
 commands may return anything, and the cache may lose any entry at any time.
 */
module CommandCache {
  import opened Bytes

  datatype Endpoint = Compile | Vet

  datatype Event = Event(message: string, kind: string, delay: int)

  datatype Response = Response(
    errors: string,
    events: seq<Event>,
    status: int,
    isTest: bool,
    testsFailed: int,
    vetErrors: string,
    vetOK: bool)

  /** What determines an answer: the command, the Go version of the server, the program and the vet flag. */
  datatype Query = Query(endpoint: Endpoint, version: string, body: string, withVet: bool)

  // ---- keys

  function Prefix(q: Query): string {
    (if q.endpoint == Compile then "prog" else "vet") + (if q.withVet then "_vet" else "")
  }

  /** `prefix-version-hash`. */
  function Key(hash: string -> string, q: Query): string {
    Prefix(q) + ['-'] + q.version + ['-'] + hash(q.body)
  }

  /** Hashes are printed with a fixed number of digits. */
  const HASH_DIGITS := 64

  ghost predicate FixedWidth(hash: string -> string) { forall b :: |hash(b)| == HASH_DIGITS }

  lemma PrefixIsInjective(p: Query, q: Query)
    requires Prefix(p) == Prefix(q)
    ensures p.endpoint == q.endpoint && p.withVet == q.withVet
  {
    assert |Prefix(p)| == |Prefix(q)| && Prefix(p)[0] == Prefix(q)[0];
  }

  lemma DashEndsPrefix(a: string, s: string, b: string, t: string)
    requires a + ['-'] + s == b + ['-'] + t
    requires '-' !in a && '-' !in b
    ensures a == b && s == t
  {
    var x, y := a + ['-'] + s, b + ['-'] + t;
    assert x[|a|] == '-' && y[|b|] == '-';
    assert |a| == |b|;
    assert x[..|a|] == a && y[..|b|] == b && x[|a| + 1..] == s && y[|b| + 1..] == t;
  }

  lemma LastPart(v: string, h: string, w: string, k: string)
    requires v + ['-'] + h == w + ['-'] + k && |h| == |k|
    ensures v == w && h == k
  {
    var x, y := v + ['-'] + h, w + ['-'] + k;
    assert |v| == |w|;
    assert x[..|v|] == v && y[..|w|] == w && x[|v| + 1..] == h && y[|w| + 1..] == k;
  }

  /** Equal keys mean the same command, version and vet flag, and bodies with the same hash. */
  lemma KeyIsInjective(hash: string -> string, p: Query, q: Query)
    requires FixedWidth(hash)
    ensures Key(hash, p) == Key(hash, q)
      <==> p.endpoint == q.endpoint && p.version == q.version && p.withVet == q.withVet && hash(p.body) == hash(q.body)
  {
    if Key(hash, p) == Key(hash, q) {
      var s, t := p.version + ['-'] + hash(p.body), q.version + ['-'] + hash(q.body);
      assert Key(hash, p) == Prefix(p) + ['-'] + s && Key(hash, q) == Prefix(q) + ['-'] + t;
      DashEndsPrefix(Prefix(p), s, Prefix(q), t);
      PrefixIsInjective(p, q);
      LastPart(p.version, hash(p.body), q.version, hash(q.body));
    }
  }

  // ---- filters

  const BUILD_TIMEOUT := "timeout running go build"
  const RUN_TIMEOUT := "timeout running program"
  const INTERNAL_ERRORS: seq<string> := ["out of memory", "cannot allocate memory"]

  predicate IsTimeout(r: Response) { Contains(r.errors, BUILD_TIMEOUT) || Contains(r.errors, RUN_TIMEOUT) }

  predicate HasInternalError(s: string) { exists e :: e in INTERNAL_ERRORS && Contains(s, e) }

  /** A resource failure shows in the errors or in something the program wrote to standard error. */
  predicate IsInternal(r: Response) {
    HasInternalError(r.errors) || exists e :: e in r.events && e.kind == "stderr" && HasInternalError(e.message)
  }

  predicate Cacheable(r: Response) { !IsTimeout(r) && !IsInternal(r) }

  datatype Verdict = TimedOut | Internal | Keep

  lemma WordsOfInternalError(s: string)
    ensures HasInternalError(s) <==> Contains(s, "out of memory") || Contains(s, "cannot allocate memory")
  {
    hide Contains;
    assert INTERNAL_ERRORS[0] == "out of memory" && INTERNAL_ERRORS[1] == "cannot allocate memory";
    assert INTERNAL_ERRORS[0] in INTERNAL_ERRORS && INTERNAL_ERRORS[1] in INTERNAL_ERRORS;
  }

  method FindInternal(s: string) returns (found: bool)
    ensures found <==> HasInternalError(s)
  {
    for i := 0 to |INTERNAL_ERRORS|
      invariant forall j :: 0 <= j < i ==> !Contains(s, INTERNAL_ERRORS[j])
    {
      if Contains(s, INTERNAL_ERRORS[i]) {
        return true;
      }
    }
    return false;
  }

  /** The filters in terms of the words they look for. */
  lemma FilteredWords(r: Response)
    ensures IsTimeout(r) <==>
      Contains(r.errors, "timeout running go build") || Contains(r.errors, "timeout running program")
    ensures IsInternal(r) <==>
      || Contains(r.errors, "out of memory") || Contains(r.errors, "cannot allocate memory")
      || exists e :: e in r.events && e.kind == "stderr"
           && (Contains(e.message, "out of memory") || Contains(e.message, "cannot allocate memory"))
  {
    hide Contains;
    WordsOfInternalError(r.errors);
    forall e | e in r.events
      ensures HasInternalError(e.message)
        <==> Contains(e.message, "out of memory") || Contains(e.message, "cannot allocate memory")
    {
      WordsOfInternalError(e.message);
    }
  }

  function VerdictOn(r: Response): Verdict {
    if IsTimeout(r) then TimedOut else if IsInternal(r) then Internal else Keep
  }

  /** The filters between the command and the cache, in the order they are applied. */
  method Filter(r: Response) returns (v: Verdict)
    ensures v == VerdictOn(r)
    ensures v == TimedOut <==>
      Contains(r.errors, "timeout running go build") || Contains(r.errors, "timeout running program")
    ensures v == Internal <==>
      && !Contains(r.errors, "timeout running go build") && !Contains(r.errors, "timeout running program")
      && (|| Contains(r.errors, "out of memory") || Contains(r.errors, "cannot allocate memory")
          || exists e :: e in r.events && e.kind == "stderr"
               && (Contains(e.message, "out of memory") || Contains(e.message, "cannot allocate memory")))
  {
    FilteredWords(r);
    hide Contains;
    if Contains(r.errors, BUILD_TIMEOUT) || Contains(r.errors, RUN_TIMEOUT) {
      return TimedOut;
    }
    var found := FindInternal(r.errors);
    if found {
      return Internal;
    }
    for i := 0 to |r.events|
      invariant forall j :: 0 <= j < i ==> !(r.events[j].kind == "stderr" && HasInternalError(r.events[j].message))
    {
      var el := r.events[i];
      if el.kind != "stderr" {
        continue;
      }
      found := FindInternal(el.message);
      if found {
        return Internal;
      }
    }
    return Keep;
  }

  // ---- requests

  datatype Reply = Ok(resp: Response, fromCache: bool) | ServerError

  datatype Pc = Looking | Running | Filtering(resp: Response) | Storing(resp: Response) | Done(reply: Reply)

  datatype Request = Request(q: Query, pc: Pc)

  /** The command run by request `id` returned `resp` for `q`. */
  datatype Call = Call(id: nat, q: Query, resp: Response)

  datatype State = State(cache: map<string, Response>, requests: map<nat, Request>, calls: set<Call>)

  datatype Action =
    | Arrive(id: nat, q: Query)
    | Hit(id: nat)
    | Miss(id: nat)                        // not cached, or the cache failed
    | CommandReturns(id: nat, resp: Response)
    | CommandFails(id: nat)
    | Judge(id: nat)
    | Store(id: nat)
    | StoreFails(id: nat)
    | Evict(key: string)

  predicate CanStep(hash: string -> string, s: State, a: Action) {
    match a
    case Arrive(id, _) => id !in s.requests
    case Hit(id) => id in s.requests && s.requests[id].pc.Looking? && Key(hash, s.requests[id].q) in s.cache
    case Miss(id) => id in s.requests && s.requests[id].pc.Looking?
    case CommandReturns(id, _) => id in s.requests && s.requests[id].pc.Running?
    case CommandFails(id) => id in s.requests && s.requests[id].pc.Running?
    case Judge(id) => id in s.requests && s.requests[id].pc.Filtering?
    case Store(id) => id in s.requests && s.requests[id].pc.Storing?
    case StoreFails(id) => id in s.requests && s.requests[id].pc.Storing?
    case Evict(_) => true
  }

  function With(s: State, id: nat, pc: Pc): State
    requires id in s.requests
  {
    s.(requests := s.requests[id := s.requests[id].(pc := pc)])
  }

  function Next(hash: string -> string, s: State, a: Action): State
    requires CanStep(hash, s, a)
  {
    match a
    case Arrive(id, q) => s.(requests := s.requests[id := Request(q, Looking)])
    case Hit(id) => With(s, id, Done(Ok(s.cache[Key(hash, s.requests[id].q)], true)))
    case Miss(id) => With(s, id, Running)
    case CommandReturns(id, resp) =>
      With(s, id, Filtering(resp)).(calls := s.calls + {Call(id, s.requests[id].q, resp)})
    case CommandFails(id) => With(s, id, Done(ServerError))
    case Judge(id) =>
      var resp := s.requests[id].pc.resp;
      With(s, id,
        match VerdictOn(resp)
        case TimedOut => Done(Ok(resp, false))
        case Internal => Done(ServerError)
        case Keep => Storing(resp))
    case Store(id) =>
      var resp := s.requests[id].pc.resp;
      With(s, id, Done(Ok(resp, false))).(cache := s.cache[Key(hash, s.requests[id].q) := resp])
    case StoreFails(id) => With(s, id, Done(Ok(s.requests[id].pc.resp, false)))
    case Evict(key) => s.(cache := s.cache - {key})
  }

  const EMPTY := State(map[], map[], {})

  predicate IsRun(hash: string -> string, s: State, run: seq<Action>)
    decreases |run|
  {
    run == [] || (CanStep(hash, s, run[0]) && IsRun(hash, Next(hash, s, run[0]), run[1..]))
  }

  function End(hash: string -> string, s: State, run: seq<Action>): State
    requires IsRun(hash, s, run)
    decreases |run|
  {
    if run == [] then s else End(hash, Next(hash, s, run[0]), run[1..])
  }

  // ---- what every step keeps

  /** Some command call accounts for a cached answer under `key`. */
  ghost predicate Backed(hash: string -> string, calls: set<Call>, key: string, resp: Response) {
    Cacheable(resp) && exists c :: c in calls && Key(hash, c.q) == key && c.resp == resp
  }

  ghost predicate RequestOk(hash: string -> string, calls: set<Call>, id: nat, r: Request) {
    match r.pc
    case Filtering(resp) => Call(id, r.q, resp) in calls
    case Storing(resp) => Call(id, r.q, resp) in calls && Cacheable(resp)
    case Done(Ok(resp, false)) => Call(id, r.q, resp) in calls && (IsInternal(resp) ==> IsTimeout(resp))
    case Done(Ok(resp, true)) => Backed(hash, calls, Key(hash, r.q), resp)
    case _ => true
  }

  ghost predicate Inv(hash: string -> string, s: State) {
    && (forall key :: key in s.cache ==> Backed(hash, s.calls, key, s.cache[key]))
    && (forall id :: id in s.requests ==> RequestOk(hash, s.calls, id, s.requests[id]))
  }

  lemma MoreBacking(hash: string -> string, calls: set<Call>, c: Call, key: string, resp: Response)
    requires Backed(hash, calls, key, resp)
    ensures Backed(hash, calls + {c}, key, resp)
  {
    var d :| d in calls && Key(hash, d.q) == key && d.resp == resp;
    assert d in calls + {c};
  }

  lemma MoreCalls(hash: string -> string, s: State, c: Call)
    requires Inv(hash, s)
    ensures Inv(hash, s.(calls := s.calls + {c}))
  {
    hide Cacheable, Key;
    forall key | key in s.cache ensures Backed(hash, s.calls + {c}, key, s.cache[key]) {
      MoreBacking(hash, s.calls, c, key, s.cache[key]);
    }
    forall id | id in s.requests ensures RequestOk(hash, s.calls + {c}, id, s.requests[id]) {
      var r := s.requests[id];
      assert RequestOk(hash, s.calls, id, r);
      if r.pc.Done? && r.pc.reply.Ok? && r.pc.reply.fromCache {
        MoreBacking(hash, s.calls, c, Key(hash, r.q), r.pc.reply.resp);
      }
    }
  }

  lemma StepKeepsInv(hash: string -> string, s: State, a: Action)
    requires Inv(hash, s) && CanStep(hash, s, a)
    ensures Inv(hash, Next(hash, s, a))
  {
    hide Key, Contains, IsTimeout, IsInternal;
    if !a.Arrive? && !a.Evict? {
      assert RequestOk(hash, s.calls, a.id, s.requests[a.id]);
    }
    match a
    case CommandReturns(id, resp) => MoreCalls(hash, s, Call(id, s.requests[id].q, resp));
    case Store(id) =>
      var r := s.requests[id];
      assert Call(id, r.q, r.pc.resp) in s.calls;
      assert Backed(hash, s.calls, Key(hash, r.q), r.pc.resp);
    case _ =>
  }

  lemma {:induction false} RunKeepsInv(hash: string -> string, s: State, run: seq<Action>)
    requires Inv(hash, s) && IsRun(hash, s, run)
    ensures Inv(hash, End(hash, s, run))
    decreases |run|
  {
    hide Inv, Next, CanStep;
    if run != [] {
      StepKeepsInv(hash, s, run[0]);
      RunKeepsInv(hash, Next(hash, s, run[0]), run[1..]);
    }
  }

  // ---- soundness

  /** No program that a command was run for has the same hash as `body`, unless it is `body`. */
  ghost predicate NoCollision(hash: string -> string, calls: set<Call>, body: string) {
    forall c :: c in calls && hash(c.q.body) == hash(body) ==> c.q.body == body
  }

  lemma BackedIsOwn(hash: string -> string, calls: set<Call>, q: Query, resp: Response)
    requires FixedWidth(hash) && NoCollision(hash, calls, q.body)
    requires Backed(hash, calls, Key(hash, q), resp)
    ensures exists id :: Call(id, q, resp) in calls
  {
    var c :| c in calls && Key(hash, c.q) == Key(hash, q) && c.resp == resp;
    KeyIsInjective(hash, c.q, q);
    assert Call(c.id, q, resp) in calls;
  }

  // ---- what the actions of a run leave behind

  /** A request in the state was made, and stays, with its query. */
  lemma {:induction false} RequestsStay(hash: string -> string, s: State, run: seq<Action>, id: nat)
    requires IsRun(hash, s, run) && id in s.requests
    ensures id in End(hash, s, run).requests && End(hash, s, run).requests[id].q == s.requests[id].q
    decreases |run|
  {
    if run != [] {
      RequestsStay(hash, Next(hash, s, run[0]), run[1..], id);
    }
  }

  lemma {:induction false} RequestsArrive(hash: string -> string, s: State, run: seq<Action>, id: nat)
    requires IsRun(hash, s, run) && id in End(hash, s, run).requests
    ensures id in s.requests || Arrive(id, End(hash, s, run).requests[id].q) in run
    decreases |run|
  {
    if run != [] {
      var t := Next(hash, s, run[0]);
      RequestsArrive(hash, t, run[1..], id);
      if id in t.requests && id !in s.requests {
        RequestsStay(hash, t, run[1..], id);
        assert run[0] == Arrive(id, t.requests[id].q);
      }
    }
  }

  lemma {:induction false} CallsAreReturns(hash: string -> string, s: State, run: seq<Action>, c: Call)
    requires IsRun(hash, s, run) && c in End(hash, s, run).calls
    ensures c in s.calls
      || (CommandReturns(c.id, c.resp) in run && c.id in End(hash, s, run).requests
          && End(hash, s, run).requests[c.id].q == c.q)
    decreases |run|
  {
    if run != [] {
      var t := Next(hash, s, run[0]);
      CallsAreReturns(hash, t, run[1..], c);
      if c in t.calls && c !in s.calls {
        assert run[0] == CommandReturns(c.id, c.resp) && t.requests[c.id].q == c.q;
        RequestsStay(hash, t, run[1..], c.id);
      }
    }
  }

  /** Calls are what the run says: command returns to requests that arrived with that query. */
  lemma CallsAreReal(hash: string -> string, run: seq<Action>, c: Call)
    requires IsRun(hash, EMPTY, run) && c in End(hash, EMPTY, run).calls
    ensures Arrive(c.id, c.q) in run && CommandReturns(c.id, c.resp) in run
  {
    CallsAreReturns(hash, EMPTY, run, c);
    RequestsArrive(hash, EMPTY, run, c.id);
  }

  /** The command returned `resp` for `q` in the run. */
  ghost predicate WasReturned(run: seq<Action>, q: Query, resp: Response) {
    exists id :: Arrive(id, q) in run && CommandReturns(id, resp) in run
  }

  /** In every run, what is cached for a query was returned by the same command of a server with the same Go
      version for the same program and vet flag, and passed every filter. */
  lemma CacheIsSound(hash: string -> string, run: seq<Action>, q: Query)
    requires FixedWidth(hash) && IsRun(hash, EMPTY, run)
    requires Key(hash, q) in End(hash, EMPTY, run).cache
    requires NoCollision(hash, End(hash, EMPTY, run).calls, q.body)
    ensures var s := End(hash, EMPTY, run);
      var resp := s.cache[Key(hash, q)];
      Cacheable(resp) && WasReturned(run, q, resp)
  {
    RunKeepsInv(hash, EMPTY, run);
    var s := End(hash, EMPTY, run);
    var resp := s.cache[Key(hash, q)];
    BackedIsOwn(hash, s.calls, q, resp);
    var id :| Call(id, q, resp) in s.calls;
    CallsAreReal(hash, run, Call(id, q, resp));
  }

  /** Every successful reply carries what the requested command returned for the requested program, version
      and vet flag: either to this very request, or to an earlier one and then it passed every filter. A
      reply that mentions a resource failure is a timeout. */
  lemma RepliesAreSound(hash: string -> string, run: seq<Action>, id: nat)
    requires FixedWidth(hash) && IsRun(hash, EMPTY, run)
    requires id in End(hash, EMPTY, run).requests
    requires End(hash, EMPTY, run).requests[id].pc.Done? && End(hash, EMPTY, run).requests[id].pc.reply.Ok?
    requires NoCollision(hash, End(hash, EMPTY, run).calls, End(hash, EMPTY, run).requests[id].q.body)
    ensures var r := End(hash, EMPTY, run).requests[id];
      && Arrive(id, r.q) in run
      && (!r.pc.reply.fromCache ==> CommandReturns(id, r.pc.reply.resp) in run)
      && (r.pc.reply.fromCache ==> Cacheable(r.pc.reply.resp) && WasReturned(run, r.q, r.pc.reply.resp))
      && (IsInternal(r.pc.reply.resp) ==> IsTimeout(r.pc.reply.resp))
  {
    RunKeepsInv(hash, EMPTY, run);
    RequestsArrive(hash, EMPTY, run, id);
    var s := End(hash, EMPTY, run);
    var r := s.requests[id];
    assert RequestOk(hash, s.calls, id, r);
    if r.pc.reply.fromCache {
      BackedIsOwn(hash, s.calls, r.q, r.pc.reply.resp);
      var i :| Call(i, r.q, r.pc.reply.resp) in s.calls;
      CallsAreReal(hash, run, Call(i, r.q, r.pc.reply.resp));
    } else {
      CallsAreReal(hash, run, Call(id, r.q, r.pc.reply.resp));
    }
  }

  /** A response that timed out or ran out of memory is in the cache in no state of any run. */
  lemma NeverCached(hash: string -> string, run: seq<Action>, key: string)
    requires IsRun(hash, EMPTY, run) && key in End(hash, EMPTY, run).cache
    ensures var r := End(hash, EMPTY, run).cache[key];
      && !Contains(r.errors, "timeout running go build") && !Contains(r.errors, "timeout running program")
      && !Contains(r.errors, "out of memory") && !Contains(r.errors, "cannot allocate memory")
      && forall e :: e in r.events && e.kind == "stderr" ==>
           !Contains(e.message, "out of memory") && !Contains(e.message, "cannot allocate memory")
  {
    hide Contains;
    RunKeepsInv(hash, EMPTY, run);
    FilteredWords(End(hash, EMPTY, run).cache[key]);
  }

  // ---- completeness

  /** The reply that is certain, once the command has returned or failed. */
  function Fate(pc: Pc): Option<Reply> {
    match pc
    case Filtering(resp) => Some(if VerdictOn(resp) == Internal then ServerError else Ok(resp, false))
    case Storing(resp) => Some(Ok(resp, false))
    case Done(reply) => Some(reply)
    case _ => None
  }

  lemma {:induction false} FateIsKept(hash: string -> string, s: State, run: seq<Action>, id: nat)
    requires IsRun(hash, s, run) && id in s.requests && Fate(s.requests[id].pc).Some?
    ensures id in End(hash, s, run).requests
    ensures Fate(End(hash, s, run).requests[id].pc) == Fate(s.requests[id].pc)
    decreases |run|
  {
    hide VerdictOn;
    if run != [] {
      FateIsKept(hash, Next(hash, s, run[0]), run[1..], id);
    }
  }

  lemma {:induction false} FateOfReturn(hash: string -> string, s: State, run: seq<Action>, id: nat, resp: Response)
    requires IsRun(hash, s, run) && CommandReturns(id, resp) in run
    ensures id in End(hash, s, run).requests
    ensures Fate(End(hash, s, run).requests[id].pc) == Fate(Filtering(resp))
    decreases |run|
  {
    hide VerdictOn;
    var t := Next(hash, s, run[0]);
    if run[0] == CommandReturns(id, resp) {
      FateIsKept(hash, t, run[1..], id);
    } else {
      FateOfReturn(hash, t, run[1..], id, resp);
    }
  }

  lemma {:induction false} FateOfFailure(hash: string -> string, s: State, run: seq<Action>, id: nat)
    requires IsRun(hash, s, run) && CommandFails(id) in run
    ensures id in End(hash, s, run).requests
    ensures Fate(End(hash, s, run).requests[id].pc) == Some(ServerError)
    decreases |run|
  {
    hide VerdictOn;
    var t := Next(hash, s, run[0]);
    if run[0] == CommandFails(id) {
      FateIsKept(hash, t, run[1..], id);
    } else {
      FateOfFailure(hash, t, run[1..], id);
    }
  }

  predicate FromCacheIfDone(pc: Pc) {
    pc.Looking? || pc.Running? || (pc.Done? && pc.reply.Ok? && pc.reply.fromCache)
  }

  lemma {:induction false} FateWithoutCommand(hash: string -> string, s: State, run: seq<Action>, id: nat)
    requires IsRun(hash, s, run) && id in End(hash, s, run).requests
    requires CommandFails(id) !in run && forall resp :: CommandReturns(id, resp) !in run
    requires id in s.requests ==> FromCacheIfDone(s.requests[id].pc)
    ensures FromCacheIfDone(End(hash, s, run).requests[id].pc)
    decreases |run|
  {
    hide VerdictOn;
    if run != [] {
      assert run[0] in run && forall a :: a in run[1..] ==> a in run;
      FateWithoutCommand(hash, Next(hash, s, run[0]), run[1..], id);
    }
  }

  lemma {:induction false} StoredOrNot(hash: string -> string, s: State, run: seq<Action>, id: nat)
    requires IsRun(hash, s, run) && id in s.requests && Fate(s.requests[id].pc).Some?
    requires id in End(hash, s, run).requests && End(hash, s, run).requests[id].pc.Done?
    ensures Store(id) in run || StoreFails(id) in run <==> match s.requests[id].pc
      case Filtering(resp) => VerdictOn(resp) == Keep
      case Storing(_) => true
      case _ => false
    decreases |run|
  {
    hide VerdictOn;
    if run != [] {
      StoredOrNot(hash, Next(hash, s, run[0]), run[1..], id);
      assert forall a :: a in run <==> a == run[0] || a in run[1..];
    }
  }

  lemma {:induction false} NoSecondReturn(hash: string -> string, s: State, run: seq<Action>, id: nat, resp: Response)
    requires IsRun(hash, s, run) && id in s.requests && Fate(s.requests[id].pc).Some?
    ensures CommandReturns(id, resp) !in run
    decreases |run|
  {
    hide VerdictOn;
    if run != [] {
      NoSecondReturn(hash, Next(hash, s, run[0]), run[1..], id, resp);
      assert forall a :: a in run <==> a == run[0] || a in run[1..];
    }
  }

  lemma {:induction false} OfferedExactly(hash: string -> string, s: State, run: seq<Action>, id: nat, resp: Response)
    requires IsRun(hash, s, run) && CommandReturns(id, resp) in run
    requires id in End(hash, s, run).requests && End(hash, s, run).requests[id].pc.Done?
    requires id in s.requests ==> Fate(s.requests[id].pc).None?
    ensures Store(id) in run || StoreFails(id) in run <==> VerdictOn(resp) == Keep
    decreases |run|
  {
    hide VerdictOn;
    var t := Next(hash, s, run[0]);
    assert forall a :: a in run <==> a == run[0] || a in run[1..];
    if run[0] == CommandReturns(id, resp) {
      StoredOrNot(hash, t, run[1..], id);
    } else {
      if id in t.requests && Fate(t.requests[id].pc).Some? {
        NoSecondReturn(hash, t, run[1..], id, resp);
      }
      OfferedExactly(hash, t, run[1..], id, resp);
    }
  }

  /** What the command returned is offered to the cache exactly if it passes the filters. */
  lemma EveryGoodAnswerIsOffered(hash: string -> string, run: seq<Action>, id: nat, resp: Response)
    requires IsRun(hash, EMPTY, run) && CommandReturns(id, resp) in run
    requires id in End(hash, EMPTY, run).requests && End(hash, EMPTY, run).requests[id].pc.Done?
    ensures Store(id) in run || StoreFails(id) in run <==> Cacheable(resp)
  {
    OfferedExactly(hash, EMPTY, run, id, resp);
  }

  /** What every request gets: what its command returned, unless that mentions a resource failure and no
      timeout; an error if the command failed; and otherwise an answer from the cache. */
  lemma EveryReply(hash: string -> string, run: seq<Action>, id: nat)
    requires IsRun(hash, EMPTY, run)
    requires id in End(hash, EMPTY, run).requests && End(hash, EMPTY, run).requests[id].pc.Done?
    ensures var reply := End(hash, EMPTY, run).requests[id].pc.reply;
      && (forall resp :: CommandReturns(id, resp) in run ==>
            reply == if IsInternal(resp) && !IsTimeout(resp) then ServerError else Ok(resp, false))
      && (CommandFails(id) in run ==> reply == ServerError)
      && (CommandFails(id) !in run && (forall resp :: CommandReturns(id, resp) !in run) ==>
            reply.Ok? && reply.fromCache)
  {
    hide IsTimeout, IsInternal;
    forall resp | CommandReturns(id, resp) in run
      ensures End(hash, EMPTY, run).requests[id].pc.reply
        == if IsInternal(resp) && !IsTimeout(resp) then ServerError else Ok(resp, false)
    {
      FateOfReturn(hash, EMPTY, run, id, resp);
    }
    if CommandFails(id) in run {
      FateOfFailure(hash, EMPTY, run, id);
    } else if forall resp :: CommandReturns(id, resp) !in run {
      FateWithoutCommand(hash, EMPTY, run, id);
    }
  }

  /** A request that is not done can go on, and nothing is ruled out for what its command returns. */
  lemma RequestIsNeverStuck(hash: string -> string, s: State, id: nat, resp: Response)
    requires id in s.requests && !s.requests[id].pc.Done?
    ensures match s.requests[id].pc
      case Looking => CanStep(hash, s, Miss(id)) && Next(hash, s, Miss(id)).requests[id].pc == Running
      case Running => CanStep(hash, s, CommandReturns(id, resp)) && CanStep(hash, s, CommandFails(id))
      case Filtering(_) => CanStep(hash, s, Judge(id))
      case Storing(_) => CanStep(hash, s, Store(id)) && CanStep(hash, s, StoreFails(id))
      case Done(_) => true
  {}

  lemma RunCons(hash: string -> string, s: State, a: Action, run: seq<Action>)
    requires CanStep(hash, s, a) && IsRun(hash, Next(hash, s, a), run)
    ensures IsRun(hash, s, [a] + run)
    ensures End(hash, s, [a] + run) == End(hash, Next(hash, s, a), run)
  {
    assert ([a] + run)[1..] == run;
  }

  /** Steps a request has left at most. */
  function StepsLeft(pc: Pc): nat {
    match pc
    case Looking => 4
    case Running => 3
    case Filtering(_) => 2
    case Storing(_) => 1
    case Done(_) => 0
  }

  /** From any state a request can get its reply by itself in at most four steps, whatever its command returns. */
  lemma {:induction false} RequestCanFinish(hash: string -> string, s: State, id: nat, resp: Response)
      returns (run: seq<Action>)
    requires id in s.requests
    ensures IsRun(hash, s, run) && |run| <= StepsLeft(s.requests[id].pc)
    ensures id in End(hash, s, run).requests && End(hash, s, run).requests[id].pc.Done?
    ensures s.requests[id].pc.Looking? || s.requests[id].pc.Running? ==> CommandReturns(id, resp) in run
    decreases StepsLeft(s.requests[id].pc)
  {
    hide VerdictOn;
    run := [];
    if !s.requests[id].pc.Done? {
      var a := match s.requests[id].pc
        case Looking => Miss(id)
        case Running => CommandReturns(id, resp)
        case Filtering(_) => Judge(id)
        case _ => Store(id);
      var rest := RequestCanFinish(hash, Next(hash, s, a), id, resp);
      RunCons(hash, s, a, rest);
      run := [a] + rest;
    }
  }

  lemma {:induction false} CachedStays(hash: string -> string, s: State, run: seq<Action>, key: string)
    requires IsRun(hash, s, run) && key in s.cache && Evict(key) !in run
    ensures key in End(hash, s, run).cache
    ensures (forall id :: Store(id) !in run) ==> End(hash, s, run).cache[key] == s.cache[key]
    decreases |run|
  {
    hide VerdictOn;
    if run != [] {
      assert run[0] in run && forall a :: a in run[1..] ==> a in run;
      CachedStays(hash, Next(hash, s, run[0]), run[1..], key);
    }
  }

  /** The cache is used: once an answer was stored, a later request for the same key can be answered from the
      cache as long as the entry was not evicted, and gets that answer if nothing else was stored. */
  lemma StoredIsServed(hash: string -> string, s: State, id: nat, run: seq<Action>, other: nat)
    requires CanStep(hash, s, Store(id)) && IsRun(hash, Next(hash, s, Store(id)), run)
    requires Evict(Key(hash, s.requests[id].q)) !in run
    requires var t := End(hash, Next(hash, s, Store(id)), run);
      other in t.requests && t.requests[other].pc.Looking?
      && Key(hash, t.requests[other].q) == Key(hash, s.requests[id].q)
    ensures var t := End(hash, Next(hash, s, Store(id)), run);
      CanStep(hash, t, Hit(other))
      && var reply := Next(hash, t, Hit(other)).requests[other].pc;
         && reply.Done? && reply.reply.Ok? && reply.reply.fromCache
         && ((forall i :: Store(i) !in run) ==> reply.reply.resp == s.requests[id].pc.resp)
  {
    hide Key;
    CachedStays(hash, Next(hash, s, Store(id)), run, Key(hash, s.requests[id].q));
  }
}
