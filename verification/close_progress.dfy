// Every close request comes to an end: what its thread can do next, how long it
// can take, and that it waits for nobody.
module CloseProgress {
  import opened Results
  import Runs
  import opened CloseCoordination
  import opened CloseProtocol

  // ---- what can happen next ----

  // The thread of a request has one kind of step at a time, with any outcome; a
  // waiter without a decision may give up at any time.
  lemma OwnSteps(s: System, a: Action, n: nat)
    requires n < |s.requests| && Moves(a, n)
    ensures Enabled(s, a) <==>
            match s.requests[n].phase
            case Claiming => a.ClaimDispatch?
            case FallingBack => a.FallBack?
            case Dispatching => a.Dispatch?
            case Abandoning => a.Abandon?
            case Waiting => if s.requests[n].queue == [] then a.GiveUp? else a.Receive?
            case Clearing(_) => a.ClearOwn?
            case CleaningUp(_) => a.CleanUp? && (s.sidecarRunning || a.stopped)
            case AllowingExit(_) => a.AllowExit?
            case Destroying(_) => a.Destroy?
            case KeptOpen => false
            case Finished => false
  {
  }

  // The page and the other commands may act at any time: only the two halves of
  // one navigation follow each other, and a decision needs a pending request.
  lemma OtherSteps(s: System, a: Action)
    requires Safe(s) && forall n :: !Moves(a, n)
    ensures Enabled(s, a) <==>
            match a
            case Ready(id, _) => id !in s.evaluating
            case Evaluated(id, _) => id in s.evaluating
            case Take(id, _) => id !in s.resolving && s.close.pending.Some?
            case Send(id) => id in s.resolving
            case _ => true
  {
    match a
    case ClaimDispatch(n) => assert Moves(a, n);
    case FallBack(n) => assert Moves(a, n);
    case Dispatch(n, _) => assert Moves(a, n);
    case Abandon(n) => assert Moves(a, n);
    case Receive(n) => assert Moves(a, n);
    case GiveUp(n) => assert Moves(a, n);
    case ClearOwn(n) => assert Moves(a, n);
    case CleanUp(n, _) => assert Moves(a, n);
    case AllowExit(n) => assert Moves(a, n);
    case Destroy(n) => assert Moves(a, n);
    case _ =>
  }

  // ---- how long it can take ----

  function StepsLeft(phase: Phase): (n: nat)
    ensures n == 0 <==> phase == KeptOpen || phase == Finished
    ensures n <= 8
  {
    match phase
    case Claiming => 8
    case FallingBack => 7
    case Dispatching => 6
    case Waiting => 5
    case Abandoning => 5
    case Clearing(_) => 4
    case CleaningUp(_) => 3
    case AllowingExit(_) => 2
    case Destroying(_) => 1
    case KeptOpen => 0
    case Finished => 0
  }

  // Each step of a thread brings its request nearer to its end.
  lemma OwnStepShrinks(s: System, a: Action, n: nat)
    requires Enabled(s, a) && Moves(a, n) && n < |s.requests|
    ensures n < |Apply(s, a).requests|
    ensures StepsLeft(Apply(s, a).requests[n].phase) < StepsLeft(s.requests[n].phase)
  {
  }

  // How many steps of a run were steps of this request's thread.
  function StepsOf(actions: seq<Action>, n: nat): nat {
    if actions == [] then 0
    else StepsOf(actions[..|actions| - 1], n) + if Moves(actions[|actions| - 1], n) then 1 else 0
  }

  lemma OneMoreStep(actions: seq<Action>, a: Action, n: nat)
    ensures StepsOf([], n) == 0
    ensures StepsOf(actions + [a], n) == StepsOf(actions, n) + if Moves(a, n) then 1 else 0
  {
    assert (actions + [a])[..|actions|] == actions;
  }

  // In every run the thread of a request takes at most eight steps.
  lemma {:induction false} StepsAreBounded(sidecarRunning: bool, actions: seq<Action>, n: nat)
    requires Run(Start(sidecarRunning), actions).Some?
    ensures var s := Run(Start(sidecarRunning), actions).value;
            if n < |s.requests| then StepsOf(actions, n) + StepsLeft(s.requests[n].phase) <= 8
            else StepsOf(actions, n) == 0
  {
    if actions != [] {
      var init, a := actions[..|actions| - 1], actions[|actions| - 1];
      StepsAreBounded(sidecarRunning, init, n);
      var s := Run(Start(sidecarRunning), init).value;
      RequestsStay(s, a);
      if Moves(a, n) {
        assert n < |s.requests|;
        OwnStepShrinks(s, a, n);
      } else if n < |s.requests| {
        OthersLeaveIt(s, a, n);
      }
    }
  }

  // ---- a request waits for nobody ----

  function NextStep(s: System, n: nat): Action
    requires n < |s.requests|
  {
    match s.requests[n].phase
    case Claiming => ClaimDispatch(n)
    case FallingBack => FallBack(n)
    case Dispatching => Dispatch(n, true)
    case Abandoning => Abandon(n)
    case Waiting => if s.requests[n].queue == [] then GiveUp(n) else Receive(n)
    case Clearing(_) => ClearOwn(n)
    case CleaningUp(_) => CleanUp(n, true)
    case AllowingExit(_) => AllowExit(n)
    case _ => Destroy(n)
  }

  // From every state the thread of a request comes to its end by its own steps
  // alone.
  lemma {:induction false} EndsByItself(s: System, n: nat) returns (more: seq<Action>)
    requires n < |s.requests|
    ensures Run(s, more).Some? && n < |Run(s, more).value.requests| && Ended(Run(s, more).value.requests[n].phase)
    ensures forall a :: a in more ==> Moves(a, n)
    decreases StepsLeft(s.requests[n].phase)
  {
    if Ended(s.requests[n].phase) {
      more := [];
    } else {
      var a := NextStep(s, n);
      NextIsOwn(s, n);
      OwnStepShrinks(s, a, n);
      var rest := EndsByItself(Apply(s, a), n);
      more := [a] + rest;
      FirstStep(s, a, rest);
    }
  }

  lemma NextIsOwn(s: System, n: nat)
    requires n < |s.requests| && !Ended(s.requests[n].phase)
    ensures Moves(NextStep(s, n), n) && Enabled(s, NextStep(s, n))
  {
    OwnSteps(s, NextStep(s, n), n);
  }

  lemma FirstStep(s: System, a: Action, more: seq<Action>)
    requires Enabled(s, a) && Run(Apply(s, a), more).Some?
    ensures Run(s, [a] + more) == Run(Apply(s, a), more)
  {
    Runs.OneMore(Next, s, [], a);
    assert [] + [a] == [a];
    Runs.Concat(Next, s, [a], more);
  }
}
