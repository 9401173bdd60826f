// Every data operation comes to an end: what can happen next, how long it can
// take, and that nothing but the lock is ever waited for.
module DataOperationProgress {
  import opened Results
  import opened DataOperation
  import Runs

  // ---- what can happen next ----

  predicate WorkerFailed(result: WorkerResult) {
    result.FailedValidation? || result.FailedLater?
  }

  // How the worker of a command can end.
  predicate EndsAs(command: Command, result: WorkerResult) {
    match command
    case Restore(_) => result == Succeeded(true) || WorkerFailed(result)
    case Resume(_) => result.Succeeded? || WorkerFailed(result)
    case Delete => result.Succeeded? || WorkerFailed(result)
    case Probe => result.RecoveryRequired? || result.DatabaseReady? || result.NotRecovered?
  }

  // In every safe state: a command that is not done takes its next step with any
  // outcome whatever, and only the first step waits, for the lock.
  lemma OpenSteps(s: System, t: nat, e: Event)
    requires Safe(s) && t < |s.threads|
    ensures Enabled(s, Step(t, e)) <==>
            match s.threads[t].place
            case Entering => e == Lock && s.shared.lock.None?
            case Preparing => e.Prepare?
            case Quiescing => e.Quiesce?
            case Working => e.Work? && EndsAs(s.threads[t].command, e.result)
            case Restarting(_, _) => e.Restart?
            case RollingBack => e.Work? && (e.result == Succeeded(true) || WorkerFailed(e.result))
            case RestartingAgain => e.Restart?
            case MarkingReady => e.Mark?
            case MarkingRecovery => e.Mark?
            case Done(_, _) => false
  {
    assert ThreadOk(s.shared, t, s.threads[t]);
  }

  // ---- how long it can take ----

  function StepsLeft(place: Place): (n: nat)
    ensures n == 0 <==> place.Done?
    ensures n <= 7
  {
    match place
    case Entering => 7
    case Preparing => 6
    case Quiescing => 5
    case Working => 4
    case Restarting(_, _) => 3
    case RollingBack => 2
    case RestartingAgain => 1
    case MarkingReady => 1
    case MarkingRecovery => 1
    case Done(_, _) => 0
  }

  function AllStepsLeft(threads: seq<Thread>): nat {
    if threads == [] then 0 else AllStepsLeft(threads[..|threads| - 1]) + StepsLeft(threads[|threads| - 1].place)
  }

  function StepsTaken(actions: seq<Action>): nat {
    if actions == [] then 0
    else StepsTaken(actions[..|actions| - 1]) + if actions[|actions| - 1].Step? then 1 else 0
  }

  lemma OneMoreStep(actions: seq<Action>, a: Action)
    ensures StepsTaken([]) == 0
    ensures StepsTaken(actions + [a]) == StepsTaken(actions) + if a.Step? then 1 else 0
  {
    assert (actions + [a])[..|actions|] == actions;
  }

  // A step brings its command nearer to its end, and moves no other.
  lemma StepShrinks(s: System, t: nat, e: Event)
    requires Enabled(s, Step(t, e))
    ensures var s' := Apply(s, Step(t, e));
            && |s'.threads| == |s.threads| && s'.threads == s.threads[t := s'.threads[t]]
            && StepsLeft(s'.threads[t].place) < StepsLeft(s.threads[t].place)
  {
  }

  lemma {:induction false} OneThreadLess(threads: seq<Thread>, t: nat, th: Thread)
    requires t < |threads| && StepsLeft(th.place) < StepsLeft(threads[t].place)
    ensures AllStepsLeft(threads[t := th]) < AllStepsLeft(threads)
  {
    var n := |threads| - 1;
    if t < n {
      OneThreadLess(threads[..n], t, th);
      assert threads[t := th][..n] == threads[..n][t := th];
    } else {
      assert threads[t := th][..n] == threads[..n];
    }
  }

  // In every run the commands take at most seven steps each, all told: none of
  // them runs for ever, whatever the surroundings do.
  lemma {:induction false} StepsAreBounded(recoveryOnly: bool, database: Data, actions: seq<Action>)
    requires Run(Start(recoveryOnly, database), actions).Some?
    ensures var s := Run(Start(recoveryOnly, database), actions).value;
            StepsTaken(actions) + AllStepsLeft(s.threads) <= 7 * |s.threads|
  {
    if actions != [] {
      var init, a := actions[..|actions| - 1], actions[|actions| - 1];
      StepsAreBounded(recoveryOnly, database, init);
      var s := Run(Start(recoveryOnly, database), init).value;
      match a
      case Enter(command) =>
        assert Apply(s, a).threads[..|s.threads|] == s.threads;
      case Step(t, e) =>
        StepShrinks(s, t, e);
        OneThreadLess(s.threads, t, Apply(s, a).threads[t]);
      case _ =>
    }
  }

  // ---- nothing waits but for the lock ----

  // A next event of a command that holds the lock.
  function NextEvent(th: Thread): Event {
    match th.place
    case Entering => Lock
    case Preparing => Prepare(false)
    case Quiescing => Quiesce(true)
    case Working => Work(if th.command.Probe? then DatabaseReady else Succeeded(true))
    case RollingBack => Work(Succeeded(true))
    case MarkingReady => Mark(true, true)
    case MarkingRecovery => Mark(true, true)
    case _ => Restart(true)
  }

  // The holder of the lock can go on by itself until it is done.
  lemma {:induction false} HolderEnds(s: System, t: nat) returns (more: seq<Action>)
    requires Safe(s) && t < |s.threads| && Holding(s.threads[t].place)
    ensures Run(s, more).Some?
    ensures var s' := Run(s, more).value;
            && Safe(s') && s'.shared.lock.None? && |s'.threads| == |s.threads|
            && s'.threads == s.threads[t := s'.threads[t]] && s'.threads[t].place.Done?
    decreases StepsLeft(s.threads[t].place)
  {
    var a := Step(t, NextEvent(s.threads[t]));
    OpenSteps(s, t, a.event);
    StepShrinks(s, t, a.event);
    StepIsSafe(s, a);
    var s' := Apply(s, a);
    assert ThreadOk(s'.shared, t, s'.threads[t]);
    if s'.threads[t].place.Done? {
      more := [a];
      Runs.OneMore(Next, s, [], a);
      assert [] + [a] == [a];
      LockFree(s, s', t);
    } else {
      var rest := HolderEnds(s', t);
      more := [a] + rest;
      FirstStep(s, a, rest);
    }
  }

  // A command that is done has given the lock back.
  lemma LockFree(s: System, s': System, t: nat)
    requires Safe(s) && Safe(s') && t < |s.threads| == |s'.threads| && Holding(s.threads[t].place)
    requires s'.threads == s.threads[t := s'.threads[t]] && s'.threads[t].place.Done?
    ensures s'.shared.lock.None?
  {
    assert ThreadOk(s.shared, t, s.threads[t]);
    forall u | 0 <= u < |s'.threads| ensures s'.shared.lock != Some(u) {
      assert ThreadOk(s.shared, u, s.threads[u]) && ThreadOk(s'.shared, u, s'.threads[u]);
    }
  }

  // Every command of every reachable state can come to its end.
  lemma EveryCommandEnds(recoveryOnly: bool, database: Data, actions: seq<Action>, t: nat)
      returns (more: seq<Action>)
    requires Run(Start(recoveryOnly, database), actions).Some?
    requires t < |Run(Start(recoveryOnly, database), actions).value.threads|
    ensures var s := Run(Start(recoveryOnly, database), actions).value;
            Run(s, more).Some? && t < |Run(s, more).value.threads| && Run(s, more).value.threads[t].place.Done?
  {
    RunIsSafe(recoveryOnly, database, actions);
    var s := Run(Start(recoveryOnly, database), actions).value;
    assert ThreadOk(s.shared, t, s.threads[t]);
    if s.threads[t].place.Done? {
      more := [];
    } else if s.shared.lock.None? {
      more := FreeLockEnds(s, t);
    } else {
      var holder := s.shared.lock.value;
      assert ThreadOk(s.shared, holder, s.threads[holder]);
      var first := HolderEnds(s, holder);
      more := first;
      if holder != t {
        var rest := FreeLockEnds(Run(s, first).value, t);
        more := first + rest;
        Runs.Concat(Next, s, first, rest);
      }
    }
  }

  lemma FreeLockEnds(s: System, t: nat) returns (more: seq<Action>)
    requires Safe(s) && t < |s.threads| && s.shared.lock.None? && !s.threads[t].place.Done?
    ensures Run(s, more).Some? && t < |Run(s, more).value.threads| && Run(s, more).value.threads[t].place.Done?
  {
    assert ThreadOk(s.shared, t, s.threads[t]);
    var a := Step(t, Lock);
    OpenSteps(s, t, Lock);
    StepIsSafe(s, a);
    StepShrinks(s, t, Lock);
    var rest := HolderEnds(Apply(s, a), t);
    more := [a] + rest;
    FirstStep(s, a, rest);
  }
}
