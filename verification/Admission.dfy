/** Request admission: two bounded semaphores and every way a request can leave
  * (src/immich_bridge/webdav_server.py, `ClientCompatibilityMiddleware.__call__`).
  * Requests run at once; each acquire, release and phase change is one step. */
module Admission {
  import opened Wrappers

  /** Where a request is. `Leaked` is the end of a request whose response generator was dropped
    * before it was started, or whose application call or closing was ended by an exception that is no
    * `Exception`: none of these passes a release. */
  datatype Phase =
    | Arrived | Admitted | WantsStream | InApp | Returned | Iterating
    | Closing | ReleasingStream | ReleasingRequest | Finished | Leaked

  /** The two flags are the source's `request_limiter_acquired` and `stream_limiter_acquired`. */
  datatype Request = Request(isGet: bool, phase: Phase, hasRequest: bool, hasStream: bool)

  /** A bounded semaphore; `overReleased` records the ValueError of a release above the bound. */
  datatype Semaphore = Semaphore(limit: nat, available: nat, overReleased: bool)

  datatype State = State(
    requestLimiter: Option<Semaphore>,
    streamLimiter: Option<Semaphore>,
    requests: map<nat, Request>)

  datatype Step =
    | Arrive(isGet: bool)
    | AnswerEarly            // rejected by validation, health answer or redirect: no permit taken
    | Admit
    | AcquireRequest
    | AcquireStream
    | AppReturns
    | AppRaises              // body too large or any other Exception
    | AppKilled
    | Start                  // the server starts the returned generator
    | Drop                   // the server drops it unstarted
    | IterationEnds          // exhausted, failed, or closed: the finally block begins
    | Closes                 // the response and the request's resources are closed, or fail to with an Exception
    | CloseKilled            // an exception that is no Exception from closing leaves the finally block
    | ReleaseStream
    | ReleaseRequest

  function Acquired(s: Semaphore): Semaphore
    requires s.available > 0
  {
    s.(available := s.available - 1)
  }

  function Released(s: Semaphore): Semaphore {
    if s.available + 1 > s.limit then s.(overReleased := true) else s.(available := s.available + 1)
  }

  function NewLimiter(limit: int): Option<Semaphore> {
    if limit > 0 then Some(Semaphore(limit, limit, false)) else None
  }

  function Initial(maxRequests: int, maxStreams: int): State {
    State(NewLimiter(maxRequests), NewLimiter(maxStreams), map[])
  }

  function Moved(s: State, id: nat, r: Request): State { s.(requests := s.requests[id := r]) }

  /** The non-blocking acquire of a request permit; refused requests are answered 503. */
  function RequestAcquired(s: State, id: nat, r: Request): State {
    if s.requestLimiter.None? then Moved(s, id, r.(phase := WantsStream))
    else if s.requestLimiter.value.available == 0 then Moved(s, id, r.(phase := Finished))
    else
      Moved(s, id, r.(phase := WantsStream, hasRequest := true))
      .(requestLimiter := Some(Acquired(s.requestLimiter.value)))
  }

  /** Only a GET takes a stream permit; when refused it still has its request permit to give back. */
  function StreamAcquired(s: State, id: nat, r: Request): State {
    if !r.isGet || s.streamLimiter.None? then Moved(s, id, r.(phase := InApp))
    else if s.streamLimiter.value.available == 0 then Moved(s, id, r.(phase := ReleasingRequest))
    else Moved(s, id, r.(phase := InApp, hasStream := true)).(streamLimiter := Some(Acquired(s.streamLimiter.value)))
  }

  function StreamReleased(s: State, id: nat, r: Request): State {
    var next := r.(phase := ReleasingRequest, hasStream := false);
    if r.hasStream && s.streamLimiter.Some?
    then Moved(s, id, next).(streamLimiter := Some(Released(s.streamLimiter.value)))
    else Moved(s, id, next)
  }

  function RequestReleased(s: State, id: nat, r: Request): State {
    var next := r.(phase := Finished, hasRequest := false);
    if r.hasRequest && s.requestLimiter.Some?
    then Moved(s, id, next).(requestLimiter := Some(Released(s.requestLimiter.value)))
    else Moved(s, id, next)
  }

  /** One step of one request; a step out of its phase changes nothing. */
  function Apply(s: State, id: nat, step: Step): State {
    if id !in s.requests then
      if step.Arrive? then Moved(s, id, Request(step.isGet, Arrived, false, false)) else s
    else
      var r := s.requests[id];
      match (step, r.phase)
      case (AnswerEarly, Arrived) => Moved(s, id, r.(phase := Finished))
      case (Admit, Arrived) => Moved(s, id, r.(phase := Admitted))
      case (AcquireRequest, Admitted) => RequestAcquired(s, id, r)
      case (AcquireStream, WantsStream) => StreamAcquired(s, id, r)
      case (AppReturns, InApp) => Moved(s, id, r.(phase := Returned))
      case (AppRaises, InApp) => Moved(s, id, r.(phase := ReleasingStream))
      case (AppKilled, InApp) => Moved(s, id, r.(phase := Leaked))
      case (Start, Returned) => Moved(s, id, r.(phase := Iterating))
      case (Drop, Returned) => Moved(s, id, r.(phase := Leaked))
      case (IterationEnds, Iterating) => Moved(s, id, r.(phase := Closing))
      case (Closes, Closing) => Moved(s, id, r.(phase := ReleasingStream))
      case (CloseKilled, Closing) => Moved(s, id, r.(phase := Leaked))
      case (ReleaseStream, ReleasingStream) => StreamReleased(s, id, r)
      case (ReleaseRequest, ReleasingRequest) => RequestReleased(s, id, r)
      case _ => s
  }

  function Run(s: State, steps: seq<(nat, Step)>): State {
    if steps == [] then s
    else
      var last := steps[|steps| - 1];
      Apply(Run(s, steps[..|steps| - 1]), last.0, last.1)
  }

  // ---------- conservation ----------

  predicate HoldsRequest(p: Phase) {
    !(p.Arrived? || p.Admitted? || p.Finished?)
  }

  predicate HoldsStream(p: Phase) {
    p.InApp? || p.Returned? || p.Iterating? || p.Closing? || p.ReleasingStream? || p.Leaked?
  }

  /** The requests a limiter counts, told by their phase alone. */
  function RequestHolders(s: State): set<nat> { set id | id in s.requests && HoldsRequest(s.requests[id].phase) }

  function StreamHolders(s: State): set<nat> {
    set id | id in s.requests && s.requests[id].isGet && HoldsStream(s.requests[id].phase)
  }

  /** Permits taken are the requests in holding phases, and nothing was released twice. */
  predicate Balanced(limiter: Option<Semaphore>, holders: set<nat>) {
    limiter.Some? ==> limiter.value.available + |holders| == limiter.value.limit && !limiter.value.overReleased
  }

  /** The two local flags of a request, told by its phase. */
  predicate Flagged(s: State, r: Request) {
    && (r.hasRequest <==> HoldsRequest(r.phase) && s.requestLimiter.Some?)
    && (r.hasStream <==> HoldsStream(r.phase) && r.isGet && s.streamLimiter.Some?)
  }

  ghost predicate FlagsOk(s: State) { forall id :: id in s.requests ==> Flagged(s, s.requests[id]) }

  ghost predicate Inv(s: State) {
    FlagsOk(s) && Balanced(s.requestLimiter, RequestHolders(s)) && Balanced(s.streamLimiter, StreamHolders(s))
  }

  /** Moving one request changes the holders by that request only. */
  lemma HoldersMoved(s: State, id: nat, r: Request)
    ensures var t := Moved(s, id, r);
            && RequestHolders(t)
                 == (if HoldsRequest(r.phase) then RequestHolders(s) + {id} else RequestHolders(s) - {id})
            && StreamHolders(t)
                 == (if r.isGet && HoldsStream(r.phase) then StreamHolders(s) + {id} else StreamHolders(s) - {id})
  {
  }

  lemma Taken(sem: Semaphore, holders: set<nat>, id: nat)
    requires Balanced(Some(sem), holders) && id !in holders && sem.available > 0
    ensures Balanced(Some(Acquired(sem)), holders + {id})
  {
  }

  lemma Given(sem: Semaphore, holders: set<nat>, id: nat)
    requires Balanced(Some(sem), holders) && id in holders
    ensures Balanced(Some(Released(sem)), holders - {id})
  {
    assert |holders - {id}| == |holders| - 1;
  }

  lemma FlagsStep(s: State, id: nat, step: Step)
    requires FlagsOk(s)
    ensures FlagsOk(Apply(s, id, step))
  {
    hide Acquired, Released, FlagsOk;
    FlagsOfMoved(s, id, step);
    FlagsOfOthers(s, id, Apply(s, id, step));
  }

  /** One request moved, its flags are true, and no limiter came or went. */
  predicate FlaggedAfter(s: State, id: nat, t: State) {
    && id in t.requests && t.requests == s.requests[id := t.requests[id]] && Flagged(t, t.requests[id])
    && t.requestLimiter.Some? == s.requestLimiter.Some? && t.streamLimiter.Some? == s.streamLimiter.Some?
  }

  lemma FlagsOfMoved(s: State, id: nat, step: Step)
    requires FlagsOk(s)
    ensures Apply(s, id, step) == s || FlaggedAfter(s, id, Apply(s, id, step))
  {
    hide RequestAcquired, StreamAcquired, RequestReleased, StreamReleased;
    if id in s.requests {
      var r := s.requests[id];
      assert Flagged(s, r);
      if r.phase.Admitted? || r.phase.ReleasingRequest? { RequestFlag(s, id, r); }
      if r.phase.WantsStream? || r.phase.ReleasingStream? { StreamFlag(s, id, r); }
    }
  }

  lemma RequestFlag(s: State, id: nat, r: Request)
    requires Flagged(s, r)
    ensures r.phase.Admitted? ==> FlaggedAfter(s, id, RequestAcquired(s, id, r))
    ensures r.phase.ReleasingRequest? ==> FlaggedAfter(s, id, RequestReleased(s, id, r))
  {
    hide Acquired, Released;
  }

  lemma StreamFlag(s: State, id: nat, r: Request)
    requires Flagged(s, r)
    ensures r.phase.WantsStream? ==> FlaggedAfter(s, id, StreamAcquired(s, id, r))
    ensures r.phase.ReleasingStream? ==> FlaggedAfter(s, id, StreamReleased(s, id, r))
  {
    hide Acquired, Released;
  }

  lemma FlagsOfOthers(s: State, id: nat, t: State)
    requires FlagsOk(s)
    requires t == s || FlaggedAfter(s, id, t)
    ensures FlagsOk(t)
  {
    hide HoldsRequest, HoldsStream;
  }

  /** What a step does to the moving request's flags and to the two limiters. */
  lemma StepEffect(s: State, id: nat, step: Step)
    requires Inv(s)
    ensures var t := Apply(s, id, step);
            && (id in t.requests ==> t.requests == s.requests[id := t.requests[id]])
            && (id !in t.requests ==> t == s)
            && var before := id in s.requests && HoldsRequest(s.requests[id].phase);
            var after := id in t.requests && HoldsRequest(t.requests[id].phase);
            && (before == after ==> t.requestLimiter == s.requestLimiter)
            && (!before && after && s.requestLimiter.Some? ==>
                  s.requestLimiter.value.available > 0 && t.requestLimiter == Some(Acquired(s.requestLimiter.value)))
            && (before && !after && s.requestLimiter.Some? ==>
                t.requestLimiter == Some(Released(s.requestLimiter.value)))
            && (s.requestLimiter.None? ==> t.requestLimiter.None?)
  {
    hide Balanced, RequestHolders, StreamHolders, Acquired, Released;
  }

  lemma StreamEffect(s: State, id: nat, step: Step)
    requires Inv(s)
    ensures var t := Apply(s, id, step);
            && (id in s.requests ==> id in t.requests && t.requests[id].isGet == s.requests[id].isGet)
            && var before := id in s.requests && s.requests[id].isGet && HoldsStream(s.requests[id].phase);
            var after := id in t.requests && t.requests[id].isGet && HoldsStream(t.requests[id].phase);
            && (before == after ==> t.streamLimiter == s.streamLimiter)
            && (!before && after && s.streamLimiter.Some? ==>
                  s.streamLimiter.value.available > 0 && t.streamLimiter == Some(Acquired(s.streamLimiter.value)))
            && (before && !after && s.streamLimiter.Some? ==> t.streamLimiter == Some(Released(s.streamLimiter.value)))
            && (s.streamLimiter.None? ==> t.streamLimiter.None?)
  {
    hide Balanced, RequestHolders, StreamHolders, Acquired, Released;
  }

  lemma InvStep(s: State, id: nat, step: Step)
    requires Inv(s)
    ensures Inv(Apply(s, id, step))
  {
    hide Apply, FlagsOk, HoldsRequest, HoldsStream, Acquired, Released;
    var t := Apply(s, id, step);
    FlagsStep(s, id, step);
    StepEffect(s, id, step);
    StreamEffect(s, id, step);
    if id in t.requests {
      HoldersMoved(s, id, t.requests[id]);
      assert RequestHolders(t) == RequestHolders(Moved(s, id, t.requests[id]));
      assert StreamHolders(t) == StreamHolders(Moved(s, id, t.requests[id]));
      Rebalanced(s.requestLimiter, t.requestLimiter, RequestHolders(s), RequestHolders(t), id);
      Rebalanced(s.streamLimiter, t.streamLimiter, StreamHolders(s), StreamHolders(t), id);
    }
  }

  lemma Rebalanced(l: Option<Semaphore>, k: Option<Semaphore>, a: set<nat>, b: set<nat>, id: nat)
    requires Balanced(l, a) && (b == a + {id} || b == a - {id}) && (l.None? ==> k.None?)
    requires (id in a) == (id in b) ==> k == l
    requires id !in a && id in b && l.Some? ==> l.value.available > 0 && k == Some(Acquired(l.value))
    requires id in a && id !in b && l.Some? ==> k == Some(Released(l.value))
    ensures Balanced(k, b)
  {
    hide Acquired, Released;
    if (id in a) == (id in b) {
      assert a == b;
    } else if l.Some? {
      if id in b { Taken(l.value, a, id); } else { Given(l.value, a, id); }
    }
  }

  lemma {:induction false} InvRun(maxRequests: int, maxStreams: int, steps: seq<(nat, Step)>)
    ensures Inv(Run(Initial(maxRequests, maxStreams), steps))
  {
    hide Apply;
    if steps == [] {
      assert RequestHolders(Initial(maxRequests, maxStreams)) == {};
      assert StreamHolders(Initial(maxRequests, maxStreams)) == {};
    } else {
      var last := steps[|steps| - 1];
      InvRun(maxRequests, maxStreams, steps[..|steps| - 1]);
      InvStep(Run(Initial(maxRequests, maxStreams), steps[..|steps| - 1]), last.0, last.1);
    }
  }

  lemma {:induction false} LimitsKept(maxRequests: int, maxStreams: int, steps: seq<(nat, Step)>)
    ensures var s := Run(Initial(maxRequests, maxStreams), steps);
            && (s.requestLimiter.Some? <==> maxRequests > 0) && (s.streamLimiter.Some? <==> maxStreams > 0)
            && (maxRequests > 0 ==> s.requestLimiter.value.limit == maxRequests)
            && (maxStreams > 0 ==> s.streamLimiter.value.limit == maxStreams)
  {
    if steps != [] {
      LimitsKept(maxRequests, maxStreams, steps[..|steps| - 1]);
      var last := steps[|steps| - 1];
      LimitKept(Run(Initial(maxRequests, maxStreams), steps[..|steps| - 1]), last.0, last.1);
    }
  }

  lemma LimitKept(s: State, id: nat, step: Step)
    ensures var t := Apply(s, id, step);
            && (t.requestLimiter.Some? <==> s.requestLimiter.Some?)
            && (t.streamLimiter.Some? <==> s.streamLimiter.Some?)
            && (s.requestLimiter.Some? ==> t.requestLimiter.value.limit == s.requestLimiter.value.limit)
            && (s.streamLimiter.Some? ==> t.streamLimiter.value.limit == s.streamLimiter.value.limit)
  {
  }

  /** Main result: in every interleaving, permits taken are the requests in holding phases, never
    * more than the limit, and no permit is ever released twice. A limit of zero or less is none. */
  lemma PermitsConserved(maxRequests: int, maxStreams: int, steps: seq<(nat, Step)>)
    ensures var s := Run(Initial(maxRequests, maxStreams), steps);
            && Conserved(s.requestLimiter, maxRequests, RequestHolders(s))
            && Conserved(s.streamLimiter, maxStreams, StreamHolders(s))
  {
    InvRun(maxRequests, maxStreams, steps);
    LimitsKept(maxRequests, maxStreams, steps);
    hide RequestHolders, StreamHolders, Run;
  }

  predicate Conserved(limiter: Option<Semaphore>, limit: int, holders: set<nat>) {
    && (limiter.Some? <==> limit > 0)
    && (limit > 0 ==>
          limiter.value.available + |holders| == limit && |holders| <= limit && !limiter.value.overReleased)
  }

  predicate Done(p: Phase) { p.Finished? || p.Leaked? }

  function LeakedRequests(s: State): set<nat> { set id | id in s.requests && s.requests[id].phase.Leaked? }

  function LeakedGets(s: State): set<nat> {
    set id | id in s.requests && s.requests[id].phase.Leaked? && s.requests[id].isGet
  }

  /** When all requests are done, the permits missing are exactly those of the leaked ones. */
  lemma AllBackUnlessLeaked(maxRequests: int, maxStreams: int, steps: seq<(nat, Step)>)
    requires var s := Run(Initial(maxRequests, maxStreams), steps);
             forall id :: id in s.requests ==> Done(s.requests[id].phase)
    ensures var s := Run(Initial(maxRequests, maxStreams), steps);
            && Missing(s.requestLimiter, maxRequests, LeakedRequests(s))
            && Missing(s.streamLimiter, maxStreams, LeakedGets(s))
  {
    PermitsConserved(maxRequests, maxStreams, steps);
    hide Run;
    var s := Run(Initial(maxRequests, maxStreams), steps);
    assert RequestHolders(s) == LeakedRequests(s);
    assert StreamHolders(s) == LeakedGets(s);
  }

  predicate Missing(limiter: Option<Semaphore>, limit: int, leaked: set<nat>) {
    limit > 0 ==>
      && limiter.Some? && limiter.value.available == limit - |leaked|
      && (limiter.value.available == limit <==> leaked == {})
  }

  /** The steps that pass no release. */
  predicate Leaks(step: Step) { step.Drop? || step.AppKilled? || step.CloseKilled? }

  lemma LeakStep(s: State, id: nat, step: Step, leaked: nat)
    requires leaked in Apply(s, id, step).requests && Apply(s, id, step).requests[leaked].phase.Leaked?
    ensures (leaked in s.requests && s.requests[leaked].phase.Leaked?) || (leaked == id && Leaks(step))
  {
  }

  /** A request leaks only by one of those three steps. */
  lemma {:induction false} LeakNeedsStep(s: State, steps: seq<(nat, Step)>, id: nat)
    requires s.requests == map[] && id in Run(s, steps).requests && Run(s, steps).requests[id].phase.Leaked?
    ensures exists step :: (id, step) in steps && Leaks(step)
  {
    hide Apply;
    var init, last := steps[..|steps| - 1], steps[|steps| - 1];
    assert steps == init + [last];
    LeakStep(Run(s, init), last.0, last.1, id);
    if id in Run(s, init).requests && Run(s, init).requests[id].phase.Leaked? {
      LeakNeedsStep(s, init, id);
    }
  }

  /** Hence every permit is back when all requests are done, if each returned generator was started and
    * no exception outside `Exception` ended a call or a closing. */
  lemma AllBack(maxRequests: int, maxStreams: int, steps: seq<(nat, Step)>)
    requires var s := Run(Initial(maxRequests, maxStreams), steps);
             forall id :: id in s.requests ==> Done(s.requests[id].phase)
    requires forall i :: 0 <= i < |steps| ==> !Leaks(steps[i].1)
    ensures var s := Run(Initial(maxRequests, maxStreams), steps);
            && (maxRequests > 0 ==> s.requestLimiter.Some? && s.requestLimiter.value.available == maxRequests)
            && (maxStreams > 0 ==> s.streamLimiter.Some? && s.streamLimiter.value.available == maxStreams)
  {
    hide Run, Leaks;
    AllBackUnlessLeaked(maxRequests, maxStreams, steps);
    var s := Run(Initial(maxRequests, maxStreams), steps);
    forall id | id in s.requests
      ensures !s.requests[id].phase.Leaked?
    {
      if s.requests[id].phase.Leaked? { LeakNeedsStep(Initial(maxRequests, maxStreams), steps, id); }
    }
    assert LeakedRequests(s) == {} && LeakedGets(s) == {};
  }
}
