// The close protocol over all interleavings: the thread of each close request
// (opener, then waiter), navigations of the web page, and the data operations
// that may stop or restart the sidecar meanwhile.
module CloseProtocol {
  import opened Results
  import Runs
  import opened CloseCoordination

  // Where the thread of a request is, and on which decision it acts.
  datatype Phase =
    | Claiming | FallingBack | Dispatching | Abandoning | Waiting
    | Clearing(decision: Decision) | CleaningUp(decision: Decision)
    | AllowingExit(decision: Decision) | Destroying(decision: Decision) | KeptOpen | Finished

  // A request with its channel: what is queued, and everything ever sent.
  datatype Request = Request(phase: Phase, queue: seq<Decision>, sent: seq<Decision>)

  // `resolving` holds requests taken out by a navigation that has not sent its
  // decision yet, `evaluating` the ready signals whose script is still running.
  // `dispatches` and `fallbacks` count since the bridge was last invalidated.
  datatype System = System(
    close: Coordinator, requests: seq<Request>, resolving: map<nat, (nat, Decision)>, evaluating: map<nat, nat>,
    sidecarRunning: bool, dispatches: multiset<nat>, fallbacks: multiset<nat>, closed: set<nat>)

  datatype Action =
    // the thread of request n
    | Open | ClaimDispatch(n: nat) | FallBack(n: nat) | Dispatch(n: nat, ok: bool) | Abandon(n: nat)
    | Receive(n: nat) | GiveUp(n: nat) | ClearOwn(n: nat)
    | CleanUp(n: nat, stopped: bool) | AllowExit(n: nat) | Destroy(n: nat)
    // navigations, named by a number where they take two steps
    | Ready(id: nat, bridge: string) | Evaluated(id: nat, ok: bool)
    | NotReady(bridge: string) | Reset | Take(id: nat, decision: Decision) | Send(id: nat)
    // other commands
    | SetExit(allowed: bool) | StopSidecar | RestartSidecar

  function Start(sidecarRunning: bool): System {
    System(CloseCoordination.INITIAL, [], map[], map[], sidecarRunning, multiset{}, multiset{}, {})
  }

  function GenerationOf(n: nat): nat {
    n % GENERATIONS
  }

  predicate At(s: System, n: nat, phase: Phase) {
    n < |s.requests| && s.requests[n].phase == phase
  }

  function Move(s: System, n: nat, phase: Phase): System
    requires n < |s.requests|
  {
    s.(requests := s.requests[n := s.requests[n].(phase := phase)])
  }

  // What each action needs to be possible.
  predicate Enabled(s: System, a: Action) {
    match a
    case ClaimDispatch(n) => At(s, n, Claiming)
    case FallBack(n) => At(s, n, FallingBack)
    case Dispatch(n, _) => At(s, n, Dispatching)
    case Abandon(n) => At(s, n, Abandoning)
    case Receive(n) => At(s, n, Waiting) && s.requests[n].queue != []
    case GiveUp(n) => At(s, n, Waiting) && s.requests[n].queue == []
    case ClearOwn(n) => n < |s.requests| && s.requests[n].phase.Clearing?
    case CleanUp(n, stopped) => n < |s.requests| && s.requests[n].phase.CleaningUp? && (!s.sidecarRunning ==> stopped)
    case AllowExit(n) => n < |s.requests| && s.requests[n].phase.AllowingExit?
    case Destroy(n) => n < |s.requests| && s.requests[n].phase.Destroying?
    case Ready(id, _) => id !in s.evaluating
    case Evaluated(id, _) => id in s.evaluating
    case Take(id, _) => id !in s.resolving && s.close.pending.Some?
    case Send(id) => id in s.resolving && s.resolving[id].0 < |s.requests|
    case _ => true
  }

  function OpenStep(s: System): System {
    match Begin(s.close, |s.requests|)
    case Err(_) => s
    case Ok(close) => s.(close := close, requests := s.requests + [Request(Claiming, [], [])])
  }

  function ClaimStep(s: System, n: nat): System
    requires n < |s.requests|
  {
    if MayDispatch(s.close, GenerationOf(n)) then
      Move(s, n, Dispatching).(close := Claim(s.close, GenerationOf(n)), dispatches := s.dispatches + multiset{n})
    else Move(s, n, FallingBack)
  }

  function FallBackStep(s: System, n: nat): System
    requires n < |s.requests|
  {
    if MayFallBack(s.close, GenerationOf(n)) then
      Move(s, n, Dispatching).(close := ClaimFallback(s.close, GenerationOf(n)), fallbacks := s.fallbacks + multiset{n})
    else Move(s, n, Waiting)
  }

  function ReadyStep(s: System, id: nat, bridge: string): System {
    if ReadyDispatches(s.close, bridge) then
      var n := s.close.pending.value.channel;
      s.(close := BridgeReady(s.close, bridge), evaluating := s.evaluating[id := n],
         dispatches := s.dispatches + multiset{n})
    else s.(close := BridgeReady(s.close, bridge))
  }

  function EvaluatedStep(s: System, id: nat, ok: bool): System
    requires id in s.evaluating
  {
    var close := if ok then s.close else Clear(s.close, GenerationOf(s.evaluating[id]));
    s.(close := close, evaluating := s.evaluating - {id})
  }

  function InvalidateStep(s: System): System {
    s.(close := ResetBridge(s.close), dispatches := multiset{}, fallbacks := multiset{})
  }

  function TakeStep(s: System, id: nat, decision: Decision): System
    requires s.close.pending.Some?
  {
    s.(close := s.close.(pending := None), resolving := s.resolving[id := (s.close.pending.value.channel, decision)])
  }

  // The receiver lives until its thread ends.
  function SendStep(s: System, id: nat): System
    requires id in s.resolving && s.resolving[id].0 < |s.requests|
  {
    var (n, decision) := s.resolving[id];
    var r := s.requests[n];
    var r' :=
      if r.phase in {KeptOpen, Finished} then r else r.(queue := r.queue + [decision], sent := r.sent + [decision]);
    s.(requests := s.requests[n := r'], resolving := s.resolving - {id})
  }

  function Apply(s: System, a: Action): System
    requires Enabled(s, a)
  {
    match a
    case Open => OpenStep(s)
    case ClaimDispatch(n) => ClaimStep(s, n)
    case FallBack(n) => FallBackStep(s, n)
    case Dispatch(n, ok) => Move(s, n, if ok then Waiting else Abandoning)
    case Abandon(n) => Move(s, n, Finished).(close := Clear(s.close, GenerationOf(n)))
    case Receive(n) =>
      var r := s.requests[n];
      s.(requests := s.requests[n := Request(Clearing(r.queue[0]), r.queue[1..], r.sent)])
    case GiveUp(n) => Move(s, n, Clearing(Cancel))
    case ClearOwn(n) =>
      var d := s.requests[n].phase.decision;
      Move(s, n, if ClosesWindow(d) then CleaningUp(d) else Finished).(close := Clear(s.close, GenerationOf(n)))
    case CleanUp(n, stopped) =>
      var d := s.requests[n].phase.decision;
      Move(s, n, if stopped then AllowingExit(d) else KeptOpen).(sidecarRunning := s.sidecarRunning && !stopped)
    case AllowExit(n) =>
      Move(s, n, Destroying(s.requests[n].phase.decision)).(close := s.close.(exitAllowed := true))
    case Destroy(n) => Move(s, n, Finished).(closed := s.closed + {n})
    case Ready(id, bridge) => ReadyStep(s, id, bridge)
    case Evaluated(id, ok) => EvaluatedStep(s, id, ok)
    case NotReady(bridge) => if s.close.bridge == Some(bridge) then InvalidateStep(s) else s
    case Reset => InvalidateStep(s)
    case Take(id, decision) => TakeStep(s, id, decision)
    case Send(id) => SendStep(s, id)
    case SetExit(allowed) => s.(close := s.close.(exitAllowed := allowed))
    case StopSidecar => s.(sidecarRunning := false)
    case RestartSidecar => s.(sidecarRunning := true)
  }

  // A run: the state after the actions, each possible when it happens.
  function Next(s: System, a: Action): Option<System> {
    if Enabled(s, a) then Some(Apply(s, a)) else None
  }

  function Run(s: System, actions: seq<Action>): Option<System> {
    Runs.Run(Next, s, actions)
  }

  // ---- the steps are the coordinator's critical sections ----

  // Each action leaves the coordinator as the one section it runs leaves it.
  lemma CoordinatorStep(s: System, a: Action)
    requires Enabled(s, a)
    ensures Apply(s, a).close ==
            match a
            case Open => (match Begin(s.close, |s.requests|) case Ok(close) => close case Err(_) => s.close)
            case ClaimDispatch(n) => Claim(s.close, n % 0x1_0000_0000_0000_0000)
            case FallBack(n) => ClaimFallback(s.close, n % 0x1_0000_0000_0000_0000)
            case Abandon(n) => Clear(s.close, n % 0x1_0000_0000_0000_0000)
            case ClearOwn(n) => Clear(s.close, n % 0x1_0000_0000_0000_0000)
            case AllowExit(_) => s.close.(exitAllowed := true)
            case Ready(_, bridge) => BridgeReady(s.close, bridge)
            case Evaluated(id, ok) =>
              if ok then s.close else Clear(s.close, s.evaluating[id] % 0x1_0000_0000_0000_0000)
            case NotReady(bridge) => BridgeNotReady(s.close, bridge)
            case Reset => ResetBridge(s.close)
            case Take(_, _) => s.close.(pending := None)
            case SetExit(allowed) => s.close.(exitAllowed := allowed)
            case _ => s.close
  {
  }

  // A navigation that decides holds the request and its decision until it sends.
  lemma TakeMeaning(s: System, id: nat, decision: Decision)
    requires Enabled(s, Take(id, decision))
    ensures Apply(s, Take(id, decision))
         == s.(close := s.close.(pending := None),
               resolving := s.resolving[id := (s.close.pending.value.channel, decision)])
  {
  }

  // A message reaches the channel of a living thread, and no other.
  lemma SendMeaning(s: System, id: nat)
    requires Enabled(s, Send(id))
    ensures var (n, decision) := s.resolving[id];
            var r := s.requests[n];
            Apply(s, Send(id)) == s.(
              resolving := s.resolving - {id},
              requests := if r.phase == KeptOpen || r.phase == Finished then s.requests
                          else s.requests[n := Request(r.phase, r.queue + [decision], r.sent + [decision])])
  {
    var n := s.resolving[id].0;
    assert s.requests[n := s.requests[n]] == s.requests;
  }

  // The script of a ready signal runs for the request it was dispatched for.
  lemma ReadyMeaning(s: System, id: nat, bridge: string)
    requires Enabled(s, Ready(id, bridge))
    ensures var dispatched := s.close.bridge != Some(bridge) && s.close.pending.Some?
                              && !s.close.pending.value.eventDispatched;
            Apply(s, Ready(id, bridge)).evaluating ==
            if dispatched then s.evaluating[id := s.close.pending.value.channel] else s.evaluating
  {
  }

  lemma EvaluatedMeaning(s: System, id: nat, ok: bool)
    requires Enabled(s, Evaluated(id, ok))
    ensures Apply(s, Evaluated(id, ok)).evaluating == s.evaluating - {id}
  {
  }

  // ---- what every reachable state keeps ----

  predicate BeforeClear(phase: Phase) {
    phase in {Claiming, FallingBack, Dispatching, Abandoning, Waiting} || phase == Clearing(Cancel)
  }

  // The pending request is one of the threads that still wait, undecided.
  ghost predicate PendingOk(s: System) {
    s.close.pending.Some? ==>
      var p := s.close.pending.value;
      && p.channel < |s.requests| && p.generation == GenerationOf(p.channel)
      && s.requests[p.channel].sent == [] && BeforeClear(s.requests[p.channel].phase)
  }

  // A request is decided by at most one navigation.
  ghost predicate ResolvingOk(s: System) {
    && (forall id :: id in s.resolving ==>
          var n := s.resolving[id].0;
          && n < |s.requests| && s.requests[n].sent == []
          && (s.close.pending.Some? ==> n != s.close.pending.value.channel))
    && (forall i, j :: i in s.resolving && j in s.resolving && i != j ==> s.resolving[i].0 != s.resolving[j].0)
  }

  // Channels carry at most one decision, and threads act on what was sent.
  ghost predicate ChannelOk(r: Request) {
    && |r.sent| <= 1 && (r.queue == [] || r.queue == r.sent)
    && (r.phase in {Claiming, FallingBack, Dispatching, Abandoning, Waiting} ==> r.queue == r.sent)
    && (r.phase.Clearing? && r.phase.decision != Cancel ==> r.sent == [r.phase.decision])
    && (r.phase.CleaningUp? || r.phase.AllowingExit? || r.phase.Destroying? ==>
          r.phase.decision != Cancel && r.sent == [r.phase.decision])
  }

  ghost predicate ChannelsOk(s: System) {
    && (forall n :: 0 <= n < |s.requests| ==> ChannelOk(s.requests[n]))
    && (forall n :: n in s.closed ==>
          n < |s.requests| && |s.requests[n].sent| == 1 && ClosesWindow(s.requests[n].sent[0]))
  }

  // Since the last invalidation: one dispatch through the bridge, one fallback.
  ghost predicate DispatchesOk(s: System) {
    && (forall n :: s.dispatches[n] <= 1 && s.fallbacks[n] <= 1)
    && (forall n :: n >= |s.requests| ==> s.dispatches[n] == 0 && s.fallbacks[n] == 0)
    && (s.close.pending.Some? ==>
          var p := s.close.pending.value;
          && (s.dispatches[p.channel] == 1 <==> p.eventDispatched)
          && (s.fallbacks[p.channel] == 1 ==> p.fallbackAttempted || p.eventDispatched))
  }

  // No close request is lost: with a ready bridge it has been dispatched, once
  // the opener is past its claim.
  ghost predicate NoLostRequest(s: System) {
    s.close.pending.Some? && s.close.bridge.Some? && s.close.pending.value.channel < |s.requests| ==>
      s.close.pending.value.eventDispatched || s.requests[s.close.pending.value.channel].phase == Claiming
  }

  ghost predicate Safe(s: System) {
    && s.close.nextGeneration == GenerationOf(|s.requests|)
    && (forall id :: id in s.evaluating ==> s.evaluating[id] < |s.requests|)
    && PendingOk(s) && ResolvingOk(s) && ChannelsOk(s) && DispatchesOk(s) && NoLostRequest(s)
  }

  // Generations name requests as long as no 64-bit number is used twice.
  lemma GenerationsDiffer(a: nat, b: nat, count: nat)
    requires a < count && b < count && count <= GENERATIONS
    ensures GenerationOf(a) == GenerationOf(b) <==> a == b
    ensures GenerationOf(a) < GenerationOf(b) <==> a < b
  {
  }

  lemma GenerationsUnique(count: nat)
    ensures (forall a, b :: 0 <= a < b < count ==> GenerationOf(a) != GenerationOf(b)) <==>
              count <= 18_446_744_073_709_551_616
  {
    if count > GENERATIONS {
      assert GenerationOf(0) == GenerationOf(GENERATIONS);
    }
  }

  lemma NextGeneration(n: nat)
    ensures (GenerationOf(n) + 1) % GENERATIONS == GenerationOf(n + 1)
  {
  }

  // Clearing a request's generation removes that request and no other.
  lemma ClearIsOwn(s: System, n: nat)
    requires Safe(s) && n < |s.requests| <= GENERATIONS
    ensures Clear(s.close, GenerationOf(n)) ==
            if s.close.pending.Some? && s.close.pending.value.channel == n then s.close.(pending := None) else s.close
  {
    if s.close.pending.Some? {
      GenerationsDiffer(n, s.close.pending.value.channel, |s.requests|);
    }
  }

  // ---- every step keeps it ----

  lemma OpenIsSafe(s: System)
    requires Safe(s) && |s.requests| < GENERATIONS
    ensures Safe(OpenStep(s))
  {
    NextGeneration(|s.requests|);
  }

  // One thread goes on, and at most the pending request disappears.
  lemma MovedIsSafe(s: System, s': System, n: nat, r: Request)
    requires Safe(s) && n < |s.requests| && ChannelOk(r) && r.sent == s.requests[n].sent
    requires s' == s.(
               requests := s.requests[n := r], close := s'.close, closed := s'.closed,
               sidecarRunning := s'.sidecarRunning)
    requires s'.close.bridge == s.close.bridge && s'.close.nextGeneration == s.close.nextGeneration
    requires s'.close.pending == s.close.pending || s'.close.pending == None
    requires s'.close.pending.Some? && s'.close.pending.value.channel == n ==>
      && BeforeClear(r.phase)
      && (s.close.bridge.Some? ==> s.close.pending.value.eventDispatched || r.phase == Claiming)
    requires s'.closed == s.closed || (s'.closed == s.closed + {n} && |r.sent| == 1 && ClosesWindow(r.sent[0]))
    ensures Safe(s')
  {
    assert PendingOk(s');
    assert ResolvingOk(s');
    assert ChannelsOk(s');
    assert DispatchesOk(s');
  }

  // The thread of the pending request marks it, on its way to the dispatch.
  lemma MarkedIsSafe(s: System, s': System, n: nat, p: Pending)
    requires Safe(s) && n < |s.requests| && s.close.pending.Some? && s.close.pending.value.channel == n
    requires s.requests[n].phase in {Claiming, FallingBack}
    requires p.channel == n && p.generation == s.close.pending.value.generation
    requires s' == Move(s, n, Dispatching).(
                     close := s.close.(pending := Some(p)), dispatches := s'.dispatches, fallbacks := s'.fallbacks)
    requires s.close.bridge.Some? ==> p.eventDispatched
    requires !s.close.pending.value.eventDispatched
    requires if p.eventDispatched then s'.dispatches == s.dispatches + multiset{n} && s'.fallbacks == s.fallbacks
             else p.fallbackAttempted && !s.close.pending.value.fallbackAttempted
                  && s'.fallbacks == s.fallbacks + multiset{n} && s'.dispatches == s.dispatches
    requires p.eventDispatched ==> p.fallbackAttempted == s.close.pending.value.fallbackAttempted
    ensures Safe(s')
  {
    assert ChannelOk(s.requests[n]);
    assert PendingOk(s');
    assert ResolvingOk(s');
    assert ChannelsOk(s');
    assert DispatchesOk(s');
  }

  lemma ClaimIsSafe(s: System, n: nat)
    requires Safe(s) && At(s, n, Claiming) && |s.requests| <= GENERATIONS
    ensures Safe(ClaimStep(s, n))
  {
    OwnGeneration(s, n);
    assert ChannelOk(s.requests[n]);
    if MayDispatch(s.close, GenerationOf(n)) {
      MarkedIsSafe(s, ClaimStep(s, n), n, s.close.pending.value.(eventDispatched := true));
    } else {
      MovedIsSafe(s, ClaimStep(s, n), n, s.requests[n].(phase := FallingBack));
    }
  }

  lemma FallBackIsSafe(s: System, n: nat)
    requires Safe(s) && At(s, n, FallingBack) && |s.requests| <= GENERATIONS
    ensures Safe(FallBackStep(s, n))
  {
    OwnGeneration(s, n);
    assert ChannelOk(s.requests[n]);
    if MayFallBack(s.close, GenerationOf(n)) {
      MarkedIsSafe(s, FallBackStep(s, n), n, s.close.pending.value.(fallbackAttempted := true));
    } else {
      MovedIsSafe(s, FallBackStep(s, n), n, s.requests[n].(phase := Waiting));
    }
  }

  lemma OwnGeneration(s: System, n: nat)
    requires Safe(s) && n < |s.requests| <= GENERATIONS
    ensures s.close.pending.Some? ==>
              (s.close.pending.value.generation == GenerationOf(n) <==> s.close.pending.value.channel == n)
  {
    if s.close.pending.Some? {
      GenerationsDiffer(n, s.close.pending.value.channel, |s.requests|);
    }
  }

  lemma ReadyQuietly(s: System, id: nat, bridge: string)
    requires Safe(s) && id !in s.evaluating && !ReadyDispatches(s.close, bridge)
    ensures Safe(ReadyStep(s, id, bridge))
  {
  }

  lemma ReadyWithDispatch(s: System, id: nat, bridge: string)
    requires Safe(s) && id !in s.evaluating && ReadyDispatches(s.close, bridge)
    ensures Safe(ReadyStep(s, id, bridge))
  {
  }

  lemma ReadyIsSafe(s: System, id: nat, bridge: string)
    requires Safe(s) && id !in s.evaluating
    ensures Safe(ReadyStep(s, id, bridge))
  {
    if ReadyDispatches(s.close, bridge) {
      ReadyWithDispatch(s, id, bridge);
    } else {
      ReadyQuietly(s, id, bridge);
    }
  }

  lemma EvaluatedIsSafe(s: System, id: nat, ok: bool)
    requires Safe(s) && id in s.evaluating && |s.requests| <= GENERATIONS
    ensures Safe(EvaluatedStep(s, id, ok))
  {
    ClearIsOwn(s, s.evaluating[id]);
  }

  lemma InvalidateIsSafe(s: System)
    requires Safe(s)
    ensures Safe(InvalidateStep(s))
  {
  }

  lemma TakeIsSafe(s: System, id: nat, decision: Decision)
    requires Safe(s) && id !in s.resolving && s.close.pending.Some?
    ensures Safe(TakeStep(s, id, decision))
  {
  }

  lemma SendIsSafe(s: System, id: nat)
    requires Safe(s) && id in s.resolving
    ensures Safe(SendStep(s, id))
  {
    var (n, decision) := s.resolving[id];
    assert ChannelOk(s.requests[n]);
  }

  // The steps of a request's thread that leave the pending request alone.
  lemma ThreadStepIsSafe(s: System, a: Action)
    requires Safe(s) && Enabled(s, a)
    requires a.Dispatch? || a.Receive? || a.GiveUp? || a.CleanUp? || a.AllowExit? || a.Destroy?
    ensures Safe(Apply(s, a))
  {
    assert ChannelOk(s.requests[a.n]);
    MovedIsSafe(s, Apply(s, a), a.n, Apply(s, a).requests[a.n]);
  }

  lemma ClearIsSafe(s: System, a: Action)
    requires Safe(s) && Enabled(s, a) && |s.requests| <= GENERATIONS
    requires a.Abandon? || a.ClearOwn?
    ensures Safe(Apply(s, a))
  {
    assert ChannelOk(s.requests[a.n]);
    ClearIsOwn(s, a.n);
    MovedIsSafe(s, Apply(s, a), a.n, Apply(s, a).requests[a.n]);
  }

  lemma OtherCommandIsSafe(s: System, a: Action)
    requires Safe(s) && (a.SetExit? || a.StopSidecar? || a.RestartSidecar?)
    ensures Safe(Apply(s, a))
  {
    var s' := Apply(s, a);
    assert PendingOk(s') && ResolvingOk(s') && ChannelsOk(s') && DispatchesOk(s') && NoLostRequest(s');
  }

  lemma NavigationIsSafe(s: System, a: Action)
    requires Safe(s) && Enabled(s, a) && |s.requests| <= GENERATIONS
    requires a.Ready? || a.Evaluated? || a.NotReady? || a.Reset? || a.Take? || a.Send?
    ensures Safe(Apply(s, a))
  {
    match a
    case Ready(id, bridge) => ReadyIsSafe(s, id, bridge);
    case Evaluated(id, ok) => EvaluatedIsSafe(s, id, ok);
    case Take(id, decision) => TakeIsSafe(s, id, decision);
    case Send(id) => SendIsSafe(s, id);
    case _ => InvalidateIsSafe(s);
  }

  lemma OpenerStepIsSafe(s: System, a: Action)
    requires Safe(s) && Enabled(s, a) && |Apply(s, a).requests| <= GENERATIONS
    requires a.Open? || a.ClaimDispatch? || a.FallBack?
    ensures Safe(Apply(s, a))
  {
    match a
    case ClaimDispatch(n) => ClaimIsSafe(s, n);
    case FallBack(n) => FallBackIsSafe(s, n);
    case Open =>
      if Begin(s.close, |s.requests|).Ok? {
        OpenIsSafe(s);
      }
  }

  lemma StepIsSafe(s: System, a: Action)
    requires Safe(s) && Enabled(s, a) && |Apply(s, a).requests| <= GENERATIONS
    ensures Safe(Apply(s, a))
  {
    if a.Open? || a.ClaimDispatch? || a.FallBack? {
      OpenerStepIsSafe(s, a);
    } else if a.Ready? || a.Evaluated? || a.NotReady? || a.Reset? || a.Take? || a.Send? {
      NavigationIsSafe(s, a);
    } else if a.SetExit? || a.StopSidecar? || a.RestartSidecar? {
      OtherCommandIsSafe(s, a);
    } else if a.Abandon? || a.ClearOwn? {
      ClearIsSafe(s, a);
    } else {
      ThreadStepIsSafe(s, a);
    }
  }

  // ---- whole runs ----

  lemma RequestsStay(s: System, a: Action)
    requires Enabled(s, a)
    ensures |Apply(s, a).requests| >= |s.requests|
  {
  }

  lemma {:induction false} RunIsSafe(sidecarRunning: bool, actions: seq<Action>)
    requires Run(Start(sidecarRunning), actions).Some?
    requires |Run(Start(sidecarRunning), actions).value.requests| <= GENERATIONS
    ensures Safe(Run(Start(sidecarRunning), actions).value)
  {
    if actions != [] {
      var before := Run(Start(sidecarRunning), actions[..|actions| - 1]).value;
      RequestsStay(before, actions[|actions| - 1]);
      RunIsSafe(sidecarRunning, actions[..|actions| - 1]);
      StepIsSafe(before, actions[|actions| - 1]);
    }
  }

  // ---- when a pending request disappears ----

  // The pending request is that of thread n.
  predicate IsPending(s: System, n: nat) {
    s.close.pending.Some? && s.close.pending.value.channel == n
  }

  // The steps that take the pending request of thread n away: a navigation
  // decides it, its thread clears it, or the script of a ready signal fails.
  predicate TakesAway(s: System, a: Action, n: nat)
    requires Enabled(s, a)
  {
    a.Take? || a == Abandon(n) || a == ClearOwn(n) || (a.Evaluated? && !a.ok && s.evaluating[a.id] == n)
  }

  lemma PendingDisappears(s: System, a: Action)
    requires Safe(s) && Enabled(s, a) && |s.requests| <= GENERATIONS && s.close.pending.Some?
    ensures var n := s.close.pending.value.channel;
            && (Apply(s, a).close.pending.None? <==>
                a.Take? || a == Abandon(n) || a == ClearOwn(n) || (a.Evaluated? && !a.ok && s.evaluating[a.id] == n))
            && (Apply(s, a).close.pending.Some? ==> IsPending(Apply(s, a), n))
  {
    if a.Evaluated? {
      ClearIsOwn(s, s.evaluating[a.id]);
    } else if a.Abandon? || a.ClearOwn? {
      ClearIsOwn(s, a.n);
    }
  }

  // A request becomes pending when it is opened, and only then.
  lemma PendingAppears(s: System, a: Action, n: nat)
    requires Enabled(s, a) && !IsPending(s, n)
    ensures IsPending(Apply(s, a), n) <==>
              a.Open? && n == |s.requests| && s.close.pending.None? && !s.close.exitAllowed
  {
  }

  // A thread that clears its own request while it is pending has given up.
  lemma ClearsAfterGivingUp(s: System, n: nat)
    requires Safe(s) && IsPending(s, n) && (Enabled(s, Abandon(n)) || Enabled(s, ClearOwn(n)))
    ensures GaveUp(s.requests[n].phase)
  {
    assert ChannelOk(s.requests[n]);
  }

  // One of the steps takes the request of thread n away.
  ghost predicate TakenAway(s: System, actions: seq<Action>, n: nat)
    requires Run(s, actions).Some?
  {
    exists k :: 0 <= k < |actions| && TakenAwayAt(s, actions, k, n)
  }

  ghost predicate TakenAwayAt(s: System, actions: seq<Action>, k: nat, n: nat)
    requires k < |actions|
  {
    var before := Run(s, actions[..k]);
    before.Some? && Enabled(before.value, actions[k]) && TakesAway(before.value, actions[k], n)
  }

  lemma TakenAwayOneMore(s: System, actions: seq<Action>, n: nat)
    requires Run(s, actions).Some? && actions != []
    ensures var m := |actions| - 1;
            TakenAway(s, actions, n) <==>
            TakenAway(s, actions[..m], n) || TakesAway(Run(s, actions[..m]).value, actions[m], n)
  {
    var m := |actions| - 1;
    var init := actions[..m];
    forall k | 0 <= k < m ensures TakenAwayAt(s, actions, k, n) <==> TakenAwayAt(s, init, k, n) {
      assert init[..k] == actions[..k];
    }
    if TakesAway(Run(s, init).value, actions[m], n) {
      assert TakenAwayAt(s, actions, m, n);
    }
  }

  // A pending request stays the pending one exactly until such a step, in every
  // run; so until then its decision can be taken.
  lemma {:induction false} StaysPending(s: System, actions: seq<Action>, n: nat)
    requires Safe(s) && IsPending(s, n) && Run(s, actions).Some?
    requires |Run(s, actions).value.requests| <= GENERATIONS
    ensures var s' := Run(s, actions).value;
            && Safe(s') && |s'.requests| > n
            && (IsPending(s', n) <==> !TakenAway(s, actions, n))
  {
    if actions != [] {
      var init, a := actions[..|actions| - 1], actions[|actions| - 1];
      var before := Run(s, init).value;
      RequestsStay(before, a);
      StaysPending(s, init, n);
      StepIsSafe(before, a);
      TakenAwayOneMore(s, actions, n);
      if IsPending(before, n) {
        PendingDisappears(before, a);
      } else {
        PendingAppears(before, a, n);
      }
    }
  }

  // From the start: whether a decision can be taken for an opened request.
  lemma TakeableUntil(sidecarRunning: bool, actions: seq<Action>, more: seq<Action>, n: nat)
    requires Run(Start(sidecarRunning), actions).Some?
    requires var s := Run(Start(sidecarRunning), actions).value;
             IsPending(s, n) && Run(s, more).Some? && |Run(s, more).value.requests| <= GENERATIONS
    ensures var s := Run(Start(sidecarRunning), actions).value;
            var s' := Run(s, more).value;
            forall id, decision :: id !in s'.resolving ==>
              (Enabled(s', Take(id, decision)) && IsPending(s', n) <==> !TakenAway(s, more, n))
  {
    var s := Run(Start(sidecarRunning), actions).value;
    RequestsOnlyGrow(s, more);
    RunIsSafe(sidecarRunning, actions);
    StaysPending(s, more, n);
  }

  // The guarantees, for every run that opens at most 2^64 requests.
  lemma CloseGuarantees(sidecarRunning: bool, actions: seq<Action>, n: nat)
    requires Run(Start(sidecarRunning), actions).Some?
    requires n < |Run(Start(sidecarRunning), actions).value.requests| <= GENERATIONS
    ensures var s := Run(Start(sidecarRunning), actions).value;
            // generations grow with every request
            && (forall m :: 0 <= m < n ==> GenerationOf(m) < GenerationOf(n))
            // one decision per channel, and a window closed by that decision
            && |s.requests[n].sent| <= 1
            && (n in s.closed ==> s.requests[n].sent != [] && ClosesWindow(s.requests[n].sent[0]))
            // clearing removes the own request only
            && Clear(s.close, GenerationOf(n)) ==
               (if s.close.pending.Some? && s.close.pending.value.channel == n then s.close.(pending := None)
                else s.close)
            // at most one dispatch and one fallback since the last invalidation
            && s.dispatches[n] <= 1 && s.fallbacks[n] <= 1
            // a pending request with a ready bridge is dispatched once its opener is past the claim
            && ((s.close.pending.Some? && s.close.pending.value.channel == n && s.close.bridge.Some?
                 && s.requests[n].phase != Claiming) ==> s.close.pending.value.eventDispatched)
  {
    RunIsSafe(sidecarRunning, actions);
    var s := Run(Start(sidecarRunning), actions).value;
    assert ChannelOk(s.requests[n]);
    ClearIsOwn(s, n);
    forall m | 0 <= m < n ensures GenerationOf(m) < GenerationOf(n) {
      GenerationsDiffer(m, n, |s.requests|);
    }
  }

  // ---- decisions that arrive late ----

  predicate Moves(a: Action, n: nat) {
    && (a.ClaimDispatch? || a.FallBack? || a.Dispatch? || a.Abandon? || a.Receive? || a.GiveUp? || a.ClearOwn?
        || a.CleanUp? || a.AllowExit? || a.Destroy?)
    && a.n == n
  }

  // The steps of a thread change its own request only.
  lemma ThreadsAreApart(s: System, a: Action, m: nat, n: nat)
    requires Enabled(s, a) && n < |s.requests| && Moves(a, m) && m != n
    ensures |Apply(s, a).requests| == |s.requests| && Apply(s, a).requests[n] == s.requests[n]
    ensures n in Apply(s, a).closed <==> n in s.closed
  {
  }

  // Only its own thread moves a request on, and only Send reaches its channel.
  lemma OthersLeaveIt(s: System, a: Action, n: nat)
    requires Enabled(s, a) && n < |s.requests| && !Moves(a, n)
    ensures n < |Apply(s, a).requests| && Apply(s, a).requests[n].phase == s.requests[n].phase
    ensures n in Apply(s, a).closed <==> n in s.closed
    ensures (a.Send? && s.resolving[a.id].0 == n) || Apply(s, a).requests[n] == s.requests[n]
  {
    if a.Open? || a.Ready? || a.Evaluated? || a.NotReady? || a.Reset? || a.Take? || a.Send? || a.SetExit?
       || a.StopSidecar? || a.RestartSidecar? {
    } else {
      ThreadsAreApart(s, a, a.n, n);
    }
  }

  predicate GaveUp(phase: Phase) {
    phase in {Abandoning, Finished} || phase == Clearing(Cancel)
  }

  lemma StaysGivenUp(s: System, a: Action, n: nat)
    requires Enabled(s, a) && n < |s.requests| && GaveUp(s.requests[n].phase)
    ensures n < |Apply(s, a).requests| && GaveUp(Apply(s, a).requests[n].phase)
    ensures n in Apply(s, a).closed ==> n in s.closed
  {
    if !Moves(a, n) {
      OthersLeaveIt(s, a, n);
    }
  }

  // Once a thread has given up, no decision sent to it closes the window.
  lemma {:induction false} LateDecisionIsLost(s: System, actions: seq<Action>, n: nat)
    requires n < |s.requests| && GaveUp(s.requests[n].phase) && n !in s.closed
    requires Run(s, actions).Some?
    ensures var s' := Run(s, actions).value;
            n < |s'.requests| && GaveUp(s'.requests[n].phase) && n !in s'.closed
  {
    if actions != [] {
      LateDecisionIsLost(s, actions[..|actions| - 1], n);
      StaysGivenUp(Run(s, actions[..|actions| - 1]).value, actions[|actions| - 1], n);
    }
  }

  // The thread acts on this decision: a closing one closes the window unless
  // the sidecar cannot be stopped, and Cancel just ends the thread.
  predicate Follows(s: System, n: nat, decision: Decision)
    requires n < |s.requests|
  {
    match s.requests[n].phase
    case Waiting => s.requests[n].queue == [decision] && s.requests[n].sent == [decision]
    case Clearing(d) => d == decision
    case CleaningUp(d) => d == decision
    case AllowingExit(d) => d == decision
    case Destroying(d) => d == decision
    case KeptOpen => ClosesWindow(decision)
    case Finished => ClosesWindow(decision) ==> n in s.closed
    case _ => false
  }

  lemma StepFollows(s: System, a: Action, n: nat, decision: Decision)
    requires Safe(s) && Enabled(s, a) && n < |s.requests| && Follows(s, n, decision)
    ensures n < |Apply(s, a).requests| && Follows(Apply(s, a), n, decision)
  {
    if !Moves(a, n) {
      OthersLeaveIt(s, a, n);
    }
  }

  // A decision sent while the thread waits is the one it acts on.
  lemma {:induction false} DecisionIsHonoured(sidecarRunning: bool, actions: seq<Action>, more: seq<Action>, n: nat)
    requires Run(Start(sidecarRunning), actions + more).Some?
    requires |Run(Start(sidecarRunning), actions + more).value.requests| <= GENERATIONS
    requires Run(Start(sidecarRunning), actions).Some?
    requires At(Run(Start(sidecarRunning), actions).value, n, Waiting)
    requires Run(Start(sidecarRunning), actions).value.requests[n].sent != []
    ensures var s := Run(Start(sidecarRunning), actions).value;
            var s' := Run(Start(sidecarRunning), actions + more).value;
            n < |s'.requests| && Follows(s', n, s.requests[n].sent[0])
    decreases |more|
  {
    var s := Run(Start(sidecarRunning), actions).value;
    if more == [] {
      assert actions + more == actions;
      RunIsSafe(sidecarRunning, actions);
      assert ChannelOk(s.requests[n]);
    } else {
      var init := more[..|more| - 1];
      assert (actions + more)[..|actions + more| - 1] == actions + init;
      var before := Run(Start(sidecarRunning), actions + init).value;
      RequestsStay(before, more[|more| - 1]);
      DecisionIsHonoured(sidecarRunning, actions, init, n);
      RunIsSafe(sidecarRunning, actions + init);
      StepFollows(before, more[|more| - 1], n, s.requests[n].sent[0]);
    }
  }

  // ---- which delivered decisions are lost ----

  predicate Ended(phase: Phase) {
    phase in {KeptOpen, Finished}
  }

  predicate HasEnded(s: System, n: nat) {
    n < |s.requests| && Ended(s.requests[n].phase)
  }

  // The navigation is about to send this decision, and the receiver lives.
  predicate Delivers(s: System, id: nat, n: nat, decision: Decision) {
    id in s.resolving && s.resolving[id] == (n, decision) && n < |s.requests| && !HasEnded(s, n)
  }

  // The decision is in the channel of a thread that has not given up.
  predicate Carries(s: System, n: nat, decision: Decision)
    requires n < |s.requests|
  {
    if s.requests[n].phase in {Claiming, FallingBack, Dispatching}
    then s.requests[n].queue == [decision] && s.requests[n].sent == [decision]
    else Follows(s, n, decision)
  }

  lemma StepCarries(s: System, a: Action, n: nat, decision: Decision)
    requires Safe(s) && Enabled(s, a) && n < |s.requests| && Carries(s, n, decision) && a != Dispatch(n, false)
    ensures n < |Apply(s, a).requests| && Carries(Apply(s, a), n, decision)
  {
    if Follows(s, n, decision) {
      StepFollows(s, a, n, decision);
    } else if !Moves(a, n) {
      OthersLeaveIt(s, a, n);
    }
  }

  // Where a decision finds a thread that still listens to its channel.
  lemma SentTo(s: System, id: nat, n: nat, decision: Decision)
    requires Safe(s) && Delivers(s, id, n, decision)
    ensures if GaveUp(s.requests[n].phase) then GaveUp(Apply(s, Send(id)).requests[n].phase)
            else Carries(Apply(s, Send(id)), n, decision)
    ensures n !in s.closed && |Apply(s, Send(id)).requests| == |s.requests|
    ensures Apply(s, Send(id)).requests[n].phase == s.requests[n].phase && n !in Apply(s, Send(id)).closed
  {
    assert ChannelOk(s.requests[n]);
  }

  lemma SendInRun(s: System, before: seq<Action>, id: nat, after: seq<Action>)
    requires Run(s, before).Some? && Enabled(Run(s, before).value, Send(id))
    ensures Run(s, before + ([Send(id)] + after)) == Run(Apply(Run(s, before).value, Send(id)), after)
  {
    var s1 := Run(s, before).value;
    Runs.Concat(Next, s, before, [Send(id)] + after);
    Runs.OneMore(Next, s1, [], Send(id));
    assert [] + [Send(id)] == [Send(id)];
    Runs.Concat(Next, s1, [Send(id)], after);
  }

  lemma {:induction false} RequestsOnlyGrow(s: System, actions: seq<Action>)
    requires Run(s, actions).Some?
    ensures |Run(s, actions).value.requests| >= |s.requests|
  {
    if actions != [] {
      RequestsOnlyGrow(s, actions[..|actions| - 1]);
      RequestsStay(Run(s, actions[..|actions| - 1]).value, actions[|actions| - 1]);
    }
  }

  lemma {:induction false} StaysCarried(s: System, actions: seq<Action>, n: nat, decision: Decision)
    requires Safe(s) && n < |s.requests| && Carries(s, n, decision) && Dispatch(n, false) !in actions
    requires Run(s, actions).Some? && |Run(s, actions).value.requests| <= GENERATIONS
    ensures var s' := Run(s, actions).value;
            Safe(s') && n < |s'.requests| && Carries(s', n, decision)
  {
    if actions != [] {
      var init, a := actions[..|actions| - 1], actions[|actions| - 1];
      var before := Run(s, init).value;
      assert forall i :: 0 <= i < |init| ==> init[i] == actions[i];
      RequestsStay(before, a);
      StaysCarried(s, init, n, decision);
      StepCarries(before, a, n, decision);
      StepIsSafe(before, a);
    }
  }

  // The window of a request closes at the end of its thread.
  lemma {:induction false} ClosedAtTheEnd(s: System, actions: seq<Action>, n: nat)
    requires Run(s, actions).Some? && n !in s.closed && n in Run(s, actions).value.closed
    ensures At(Run(s, actions).value, n, Finished)
  {
    var init, a := actions[..|actions| - 1], actions[|actions| - 1];
    var before := Run(s, init).value;
    if n in before.closed {
      ClosedAtTheEnd(s, init, n);
    }
    if n < |before.requests| && !Moves(a, n) {
      OthersLeaveIt(before, a, n);
    }
  }

  // A window is kept open by its own failed cleanup.
  lemma {:induction false} KeptOpenBy(s: System, actions: seq<Action>, n: nat)
    requires Run(s, actions).Some? && n < |s.requests| && s.requests[n].phase != KeptOpen
    ensures At(Run(s, actions).value, n, KeptOpen) <==> CleanUp(n, false) in actions
  {
    if actions != [] {
      var init, a := actions[..|actions| - 1], actions[|actions| - 1];
      assert actions == init + [a];
      KeptOpenBy(s, init, n);
      KeptOpenStep(Run(s, init).value, a, n);
    }
  }

  lemma KeptOpenStep(s: System, a: Action, n: nat)
    requires Enabled(s, a)
    ensures At(Apply(s, a), n, KeptOpen) <==> At(s, n, KeptOpen) || a == CleanUp(n, false)
  {
    if n >= |s.requests| {
      RequestsStartClaiming(s, a, n);
    } else if Moves(a, n) {
      OwnStepKeepsOpen(s, a, n);
    } else {
      OthersLeaveIt(s, a, n);
    }
  }

  lemma OwnStepKeepsOpen(s: System, a: Action, n: nat)
    requires Enabled(s, a) && Moves(a, n)
    ensures At(Apply(s, a), n, KeptOpen) <==> a == CleanUp(n, false)
  {
  }

  lemma RequestsStartClaiming(s: System, a: Action, n: nat)
    requires Enabled(s, a) && n >= |s.requests|
    ensures At(Apply(s, a), n, Claiming) || n >= |Apply(s, a).requests|
  {
  }

  // A failed dispatch makes its thread give up, whatever was decided.
  lemma {:induction false} FailedDispatchGivesUp(s: System, actions: seq<Action>, n: nat)
    requires Run(s, actions).Some? && Dispatch(n, false) in actions && n < |s.requests| && n !in s.closed
    ensures var s' := Run(s, actions).value;
            n < |s'.requests| && GaveUp(s'.requests[n].phase) && n !in s'.closed
  {
    var init, a := actions[..|actions| - 1], actions[|actions| - 1];
    assert actions == init + [a];
    var before := Run(s, init).value;
    if Dispatch(n, false) in init {
      FailedDispatchGivesUp(s, init, n);
      StaysGivenUp(before, a, n);
    } else if n in before.closed {
      ClosedAtTheEnd(s, init, n);
    }
  }

  // From any safe state: followed means closed or kept open at the end.
  lemma AfterSending(s: System, id: nat, after: seq<Action>, n: nat, decision: Decision)
    requires Safe(s) && Delivers(s, id, n, decision) && ClosesWindow(decision)
    requires Run(Apply(s, Send(id)), after).Some?
    requires |Run(Apply(s, Send(id)), after).value.requests| <= GENERATIONS
    requires HasEnded(Run(Apply(s, Send(id)), after).value, n)
    ensures var s' := Run(Apply(s, Send(id)), after).value;
            && (n in s'.closed || At(s', n, KeptOpen) <==>
                !GaveUp(s.requests[n].phase) && Dispatch(n, false) !in after)
            && (At(s', n, KeptOpen) <==> CleanUp(n, false) in after)
  {
    var sent := Apply(s, Send(id));
    SentTo(s, id, n, decision);
    KeptOpenBy(sent, after, n);
    if GaveUp(s.requests[n].phase) {
      LateDecisionIsLost(sent, after, n);
    } else if Dispatch(n, false) in after {
      FailedDispatchGivesUp(sent, after, n);
    } else {
      RequestsOnlyGrow(sent, after);
      StepIsSafe(s, Send(id));
      StaysCarried(sent, after, n, decision);
    }
  }

  // A closing decision, delivered to a thread that has ended since, was followed
  // if and only if the thread had not given up before and its dispatch did not
  // fail after; then the window is closed unless its sidecar did not stop.
  lemma DeliveredDecision(
      sidecarRunning: bool, before: seq<Action>, id: nat, after: seq<Action>, n: nat, decision: Decision)
    requires Run(Start(sidecarRunning), before).Some? && ClosesWindow(decision)
    requires Delivers(Run(Start(sidecarRunning), before).value, id, n, decision)
    requires Run(Start(sidecarRunning), before + ([Send(id)] + after)).Some?
    requires |Run(Start(sidecarRunning), before + ([Send(id)] + after)).value.requests| <= GENERATIONS
    requires HasEnded(Run(Start(sidecarRunning), before + ([Send(id)] + after)).value, n)
    ensures var s := Run(Start(sidecarRunning), before).value;
            var s' := Run(Start(sidecarRunning), before + ([Send(id)] + after)).value;
            var followed := !GaveUp(s.requests[n].phase) && Dispatch(n, false) !in after;
            && (n in s'.closed <==> followed && CleanUp(n, false) !in after)
            && (At(s', n, KeptOpen) <==> followed && CleanUp(n, false) in after)
  {
    var s := Run(Start(sidecarRunning), before).value;
    SendInRun(Start(sidecarRunning), before, id, after);
    RequestsOnlyGrow(Apply(s, Send(id)), after);
    RunIsSafe(sidecarRunning, before);
    AfterSending(s, id, after, n, decision);
    if n in Run(Start(sidecarRunning), before + ([Send(id)] + after)).value.closed {
      ClosedAtTheEnd(Start(sidecarRunning), before + ([Send(id)] + after), n);
    }
  }

  // ---- the sidecar when the window is destroyed ----

  predicate Empties(a: Action) {
    a == StopSidecar || (a.CleanUp? && a.stopped)
  }

  // A restart at position k that nothing after it undoes.
  predicate LastRestart(actions: seq<Action>, k: int) {
    0 <= k < |actions| && actions[k] == RestartSidecar && forall j :: k < j < |actions| ==> !Empties(actions[j])
  }

  lemma {:induction false} SidecarAfter(s: System, actions: seq<Action>, i: nat)
    requires Run(s, actions).Some? && i < |actions| && Empties(actions[i])
    ensures Run(s, actions).value.sidecarRunning <==> exists k :: i < k && LastRestart(actions, k)
  {
    var n := |actions| - 1;
    var init := actions[..n];
    SidecarStep(Run(s, init).value, actions[n]);
    if i < n {
      assert init[i] == actions[i];
      SidecarAfter(s, init, i);
      LastRestartOneMore(actions, i);
    }
  }

  lemma SidecarStep(s: System, a: Action)
    requires Enabled(s, a)
    ensures Apply(s, a).sidecarRunning <==> a == RestartSidecar || (s.sidecarRunning && !Empties(a))
  {
  }

  lemma LastRestartOneMore(actions: seq<Action>, i: nat)
    requires i < |actions| - 1
    ensures var n := |actions| - 1;
            var init := actions[..n];
            (exists k :: i < k && LastRestart(actions, k)) <==>
            (actions[n] == RestartSidecar || (!Empties(actions[n]) && exists k :: i < k && LastRestart(init, k)))
  {
    var n := |actions| - 1;
    var init := actions[..n];
    if actions[n] == RestartSidecar {
      assert LastRestart(actions, n);
    } else if !Empties(actions[n]) {
      forall k | 0 <= k < n ensures LastRestart(actions, k) <==> LastRestart(init, k) {
        assert forall j :: 0 <= j < n ==> actions[j] == init[j];
      }
    }
  }

  predicate CleanedUp(s: System, n: nat) {
    n in s.closed || (n < |s.requests| && (s.requests[n].phase.AllowingExit? || s.requests[n].phase.Destroying?))
  }

  lemma CleanUpStep(s: System, a: Action, n: nat)
    requires Enabled(s, a) && CleanedUp(Apply(s, a), n)
    ensures CleanedUp(s, n) || a == CleanUp(n, true)
  {
    if n >= |s.requests| {
      RequestsStartClaiming(s, a, n);
      NobodyClosesIt(s, a, n);
    } else if Moves(a, n) {
      OwnStepCleansUp(s, a, n);
    } else {
      OthersLeaveIt(s, a, n);
    }
  }

  lemma OwnStepCleansUp(s: System, a: Action, n: nat)
    requires Enabled(s, a) && Moves(a, n) && CleanedUp(Apply(s, a), n)
    ensures CleanedUp(s, n) || a == CleanUp(n, true)
  {
  }

  lemma NobodyClosesIt(s: System, a: Action, n: nat)
    requires Enabled(s, a) && n >= |s.requests|
    ensures n in Apply(s, a).closed ==> n in s.closed
  {
  }

  lemma {:induction false} CleanedUpBefore(sidecarRunning: bool, actions: seq<Action>, n: nat) returns (i: nat)
    requires Run(Start(sidecarRunning), actions).Some? && CleanedUp(Run(Start(sidecarRunning), actions).value, n)
    ensures i < |actions| && actions[i] == CleanUp(n, true)
  {
    i := |actions| - 1;
    var before := Run(Start(sidecarRunning), actions[..i]).value;
    CleanUpStep(before, actions[i], n);
    if actions[i] != CleanUp(n, true) {
      i := CleanedUpBefore(sidecarRunning, actions[..i], n);
    }
  }

  // When a thread destroys the window it has emptied the sidecar slot, and the
  // slot holds a sidecar again exactly when another command restarted it since.
  lemma DestroyedAfterCleanUp(sidecarRunning: bool, actions: seq<Action>, n: nat)
    requires Run(Start(sidecarRunning), actions).Some?
    requires Enabled(Run(Start(sidecarRunning), actions).value, Destroy(n))
    ensures exists i :: 0 <= i < |actions| && actions[i] == CleanUp(n, true)
              && (Run(Start(sidecarRunning), actions).value.sidecarRunning <==>
                  exists k :: i < k && LastRestart(actions, k))
  {
    var i := CleanedUpBefore(sidecarRunning, actions, n);
    SidecarAfter(Start(sidecarRunning), actions, i);
  }

  predicate Ending(s: System, n: nat) {
    n in s.closed || (n < |s.requests| && s.requests[n].phase.Destroying?)
  }

  lemma EndingStep(s: System, a: Action, n: nat)
    requires Enabled(s, a) && Ending(Apply(s, a), n)
    ensures Ending(s, n) || a == AllowExit(n)
  {
    if n >= |s.requests| {
      RequestsStartClaiming(s, a, n);
    } else if !Moves(a, n) {
      OthersLeaveIt(s, a, n);
    }
  }

  // No request is opened behind a window that is being destroyed: unless some
  // command takes the permission back, exit is allowed by then.
  lemma {:induction false} ExitIsAllowedFirst(sidecarRunning: bool, actions: seq<Action>, n: nat)
    requires Run(Start(sidecarRunning), actions).Some? && SetExit(false) !in actions
    requires Ending(Run(Start(sidecarRunning), actions).value, n)
    ensures Run(Start(sidecarRunning), actions).value.close.exitAllowed
    ensures Begin(Run(Start(sidecarRunning), actions).value.close, n) == Err(ExitAuthorized)
  {
    var init, a := actions[..|actions| - 1], actions[|actions| - 1];
    var before := Run(Start(sidecarRunning), init).value;
    assert actions == init + [a];
    EndingStep(before, a, n);
    if a != AllowExit(n) {
      ExitIsAllowedFirst(sidecarRunning, init, n);
      ExitStays(before, a);
    }
  }

  lemma ExitStays(s: System, a: Action)
    requires Enabled(s, a) && s.close.exitAllowed && a != SetExit(false)
    ensures Apply(s, a).close.exitAllowed
  {
  }

  // ---- runs that show the limits ----

  lemma RunFour(s: System, a: Action, b: Action, c: Action, d: Action, s2: System)
    requires Run(s, [a, b]) == Some(s2) && Enabled(s2, c) && Enabled(Apply(s2, c), d)
    ensures Run(s, [a, b, c, d]) == Some(Apply(Apply(s2, c), d))
  {
    Runs.Concat(Next, s, [a, b], [c, d]);
    Runs.Two(Next, s2, c, d);
    assert [a, b] + [c, d] == [a, b, c, d];
  }

  // A thread waits for the pending request, and nothing was decided.
  predicate Undecided(s: System, n: nat) {
    && n < |s.requests| && s.requests[n] == Request(Waiting, [], [])
    && s.close.pending.Some? && s.close.pending.value.channel == n
  }

  // The opener of the pending request is about to run its dispatch script.
  predicate DispatchingUndecided(s: System, n: nat) {
    && n < |s.requests| && s.requests[n] == Request(Dispatching, [], [])
    && s.close.pending.Some? && s.close.pending.value.channel == n
  }

  // Such states are reached by every first request.
  lemma UndecidedRun()
    ensures exists s :: Run(Start(true), [Open, ClaimDispatch(0), FallBack(0)]) == Some(s)
              && DispatchingUndecided(s, 0) && s.resolving == map[] && s.sidecarRunning
    ensures exists s :: Run(Start(true), [Open, ClaimDispatch(0), FallBack(0), Dispatch(0, true)]) == Some(s)
              && Undecided(s, 0) && s.resolving == map[] && s.sidecarRunning
  {
    var s := Start(true);
    Runs.Two(Next, s, Open, ClaimDispatch(0));
    var s2 := Apply(Apply(s, Open), ClaimDispatch(0));
    assert s2.requests == [Request(FallingBack, [], [])];
    Runs.OneMore(Next, s, [Open, ClaimDispatch(0)], FallBack(0));
    assert [Open, ClaimDispatch(0)] + [FallBack(0)] == [Open, ClaimDispatch(0), FallBack(0)];
    assert DispatchingUndecided(Apply(s2, FallBack(0)), 0);
    RunFour(s, Open, ClaimDispatch(0), FallBack(0), Dispatch(0, true), s2);
  }

  // The decision arrives after the timeout and before the request is cleared:
  // it is delivered, and the window stays open.
  lemma DecisionAfterTimeout(s: System, n: nat, id: nat, decision: Decision)
    requires Undecided(s, n) && id !in s.resolving
    ensures exists s' :: Run(s, [GiveUp(n), Take(id, decision), Send(id), ClearOwn(n)]) == Some(s')
              && |s'.requests| == |s.requests|
              && s'.requests[n] == Request(Finished, [decision], [decision]) && s'.closed == s.closed
  {
    Runs.Two(Next, s, GiveUp(n), Take(id, decision));
    var s2 := Apply(Apply(s, GiveUp(n)), Take(id, decision));
    assert s2.requests[n] == Request(Clearing(Cancel), [], []);
    SentAndCleared(s2, n, id, decision);
    RunFour(s, GiveUp(n), Take(id, decision), Send(id), ClearOwn(n), s2);
  }

  lemma SentAndCleared(s: System, n: nat, id: nat, decision: Decision)
    requires n < |s.requests| && s.requests[n] == Request(Clearing(Cancel), [], [])
    requires id in s.resolving && s.resolving[id] == (n, decision)
    ensures Enabled(s, Send(id)) && Enabled(Apply(s, Send(id)), ClearOwn(n))
    ensures var s' := Apply(Apply(s, Send(id)), ClearOwn(n));
            && |s'.requests| == |s.requests| && s'.closed == s.closed
            && s'.requests[n] == Request(Finished, [decision], [decision])
  {
  }

  // The decision arrives before a dispatch that fails: it is delivered, and the
  // window stays open, without any timeout.
  lemma DecisionBeforeFailedDispatch(s: System, n: nat, id: nat, decision: Decision)
    requires DispatchingUndecided(s, n) && id !in s.resolving
    ensures exists s' :: Run(s, [Take(id, decision), Send(id), Dispatch(n, false), Abandon(n)]) == Some(s')
              && |s'.requests| == |s.requests|
              && s'.requests[n] == Request(Finished, [decision], [decision]) && s'.closed == s.closed
  {
    TakenAndSent(s, n, id, decision);
    var s2 := Apply(Apply(s, Take(id, decision)), Send(id));
    FailedAndAbandoned(s2, n);
    RunFour(s, Take(id, decision), Send(id), Dispatch(n, false), Abandon(n), s2);
  }

  lemma TakenAndSent(s: System, n: nat, id: nat, decision: Decision)
    requires n < |s.requests| && !Ended(s.requests[n].phase) && s.requests[n].queue == s.requests[n].sent == []
    requires s.close.pending.Some? && s.close.pending.value.channel == n && id !in s.resolving
    ensures Enabled(s, Take(id, decision)) && Enabled(Apply(s, Take(id, decision)), Send(id))
    ensures var s2 := Apply(Apply(s, Take(id, decision)), Send(id));
            && Run(s, [Take(id, decision), Send(id)]) == Some(s2)
            && |s2.requests| == |s.requests| && s2.closed == s.closed
            && s2.requests[n] == Request(s.requests[n].phase, [decision], [decision])
  {
    Runs.Two(Next, s, Take(id, decision), Send(id));
    assert [] + [decision] == [decision];
  }

  lemma FailedAndAbandoned(s: System, n: nat)
    requires At(s, n, Dispatching)
    ensures Enabled(s, Dispatch(n, false)) && Enabled(Apply(s, Dispatch(n, false)), Abandon(n))
    ensures var s' := Apply(Apply(s, Dispatch(n, false)), Abandon(n));
            && |s'.requests| == |s.requests| && s'.closed == s.closed
            && s'.requests[n] == s.requests[n].(phase := Finished)
  {
  }

  // A data operation restarts the sidecar between the cleanup and the end: the
  // window is destroyed and the sidecar runs on.
  lemma RestartDuringClose(s: System, n: nat, decision: Decision)
    requires n < |s.requests| && s.requests[n].phase == CleaningUp(decision)
    ensures exists s' :: Run(s, [CleanUp(n, true), RestartSidecar, AllowExit(n), Destroy(n)]) == Some(s')
              && n in s'.closed && s'.sidecarRunning
  {
    Runs.Two(Next, s, CleanUp(n, true), RestartSidecar);
    var s2 := Apply(Apply(s, CleanUp(n, true)), RestartSidecar);
    assert s2.requests[n].phase == AllowingExit(decision) && s2.sidecarRunning;
    RunFour(s, CleanUp(n, true), RestartSidecar, AllowExit(n), Destroy(n), s2);
  }

  // And every undecided request gets there when its web page decides to close.
  lemma DecidedInTime(s: System, n: nat, id: nat, decision: Decision)
    requires Undecided(s, n) && id !in s.resolving && ClosesWindow(decision)
    ensures exists s' :: Run(s, [Take(id, decision), Send(id), Receive(n), ClearOwn(n)]) == Some(s')
              && |s'.requests| == |s.requests| && s'.requests[n].phase == CleaningUp(decision)
  {
    TakenAndSent(s, n, id, decision);
    var s2 := Apply(Apply(s, Take(id, decision)), Send(id));
    RunFour(s, Take(id, decision), Send(id), Receive(n), ClearOwn(n), s2);
  }
}
