// Every launch comes to an end, and the place of the primary never stays taken:
// what each process can do next, how long it can take, and how the next one
// comes to serve.
module InstanceProgress {
  import opened Results
  import opened InstanceLock
  import Runs

  // ---- what can happen next ----

  predicate Listening(w: World) {
    w.socket.Some? && w.socket.value.listening
  }

  // A process has one kind of step at a time, besides leaving and dying, and
  // never waits for another one.
  lemma OwnSteps(w: World, a: Action)
    requires a.p in w.processes
    ensures Enabled(w, a) <==>
            match w.processes[a.p]
            case Starting(_) => a.Crash? || (a.TryLock? && (a.focused ==> w.lock.Some? && Listening(w)))
            case CheckingLock => a.Crash? || a.CheckLock?
            case WritingMarker => a.Crash? || a.WriteMarker?
            case Ready =>
              || a.Crash? || a.Leave?
              || (a.CheckSocket? && (a.status == Missing ==> w.socket.None?)
                  && (a.status == Stale ==> w.socket.Some? && !Listening(w)) && (a.status == Active ==> Listening(w)))
            case RemovingStale => a.Crash? || a.RemoveStale?
            case Binding => a.Crash? || (a.Bind? && (a.ok ==> w.socket.None?))
            case Bound => a.Crash? || a.MarkOwned?
            case Serving => a.Crash? || a.Leave?
            case Leaving(_) => a.Crash? || a.RemoveSocket?
            case CheckingMarker => a.Crash? || a.CheckMarker?
            case RemovingMarker => a.Crash? || a.RemoveMarker?
            case Releasing => a.Crash? || a.Release?
            case Dying(locked, open) => (a.FreeLock? && locked) || (a.CloseListener? && open)
            case Gone(_) => a.Start?
  {
  }

  // ---- how long it can take ----

  function StepsLeft(place: Place): (n: nat)
    ensures n == 0 ==> place.Gone? || place == Dying(false, false)
  {
    match place
    case Starting(retries) => 14 + retries
    case CheckingLock => 13
    case WritingMarker => 12
    case Ready => 11
    case RemovingStale => 10
    case Binding => 9
    case Bound => 8
    case Serving => 7
    case Leaving(_) => 6
    case CheckingMarker => 5
    case RemovingMarker => 4
    case Releasing => 3
    case Dying(locked, open) => (if locked then 1 else 0) + (if open then 1 else 0)
    case Gone(_) => 0
  }

  lemma StepShrinks(w: World, a: Action)
    requires Enabled(w, a) && !a.Start?
    ensures a.p in w.processes && a.p in Apply(w, a).processes
    ensures StepsLeft(Apply(w, a).processes[a.p]) < StepsLeft(w.processes[a.p])
    ensures Apply(w, a).processes == w.processes[a.p := Apply(w, a).processes[a.p]]
  {
  }

  function StepsOf(actions: seq<Action>, p: nat): nat {
    if actions == [] then 0
    else
      var a := actions[|actions| - 1];
      StepsOf(actions[..|actions| - 1], p) + if a.p == p && !a.Start? then 1 else 0
  }

  // What the launches of a process allow it: fourteen steps and its retries.
  function Allowed(actions: seq<Action>, p: nat): nat {
    if actions == [] then 0
    else
      var a := actions[|actions| - 1];
      Allowed(actions[..|actions| - 1], p) + if a.p == p && a.Start? then 14 + a.retries else 0
  }

  lemma OneMoreStep(actions: seq<Action>, a: Action, p: nat)
    ensures StepsOf([], p) == 0 && Allowed([], p) == 0
    ensures a.p == p && !a.Start? ==> StepsOf(actions + [a], p) == StepsOf(actions, p) + 1
    ensures a.p == p && a.Start? ==> Allowed(actions + [a], p) == Allowed(actions, p) + 14 + a.retries
    ensures !(a.p == p && !a.Start?) ==> StepsOf(actions + [a], p) == StepsOf(actions, p)
    ensures !(a.p == p && a.Start?) ==> Allowed(actions + [a], p) == Allowed(actions, p)
  {
    assert (actions + [a])[..|actions|] == actions;
  }

  // In every run no launch takes more steps than that, beside whatever others do.
  lemma {:induction false} StepsAreBounded(w: World, actions: seq<Action>, p: nat)
    requires w.processes == map[] && Run(w, actions).Some?
    ensures var w' := Run(w, actions).value;
            StepsOf(actions, p) + (if p in w'.processes then StepsLeft(w'.processes[p]) else 0) <= Allowed(actions, p)
  {
    if actions != [] {
      var init, a := actions[..|actions| - 1], actions[|actions| - 1];
      StepsAreBounded(w, init, p);
      var before := Run(w, init).value;
      if a.Start? {
        assert Apply(before, a).processes == before.processes[a.p := Starting(a.retries)];
      } else {
        StepShrinks(before, a);
      }
    }
  }

  // ---- the next one comes to serve ----

  // A next step of a process that goes away in an orderly way.
  function NextStep(p: nat, place: Place): Action {
    match place
    case Starting(_) => TryLock(p, false)
    case CheckingLock => CheckLock(p)
    case WritingMarker => WriteMarker(p, true)
    case RemovingStale => RemoveStale(p, false)
    case Binding => Bind(p, false)
    case Bound => MarkOwned(p)
    case Leaving(_) => RemoveSocket(p, true)
    case CheckingMarker => CheckMarker(p)
    case RemovingMarker => RemoveMarker(p, true)
    case Releasing => Release(p)
    case Dying(locked, _) => if locked then FreeLock(p) else CloseListener(p)
    case _ => Leave(p)
  }

  // The steps of one process alone bring it to its end, and no other along.
  lemma {:induction false} EndsByItself(w: World, p: nat) returns (more: seq<Action>)
    requires Safe(w) && p in w.processes && w.processes[p] != Dying(false, false)
    ensures Run(w, more).Some? && forall a :: a in more ==> a.p == p && !a.Start? && !a.Crash?
    ensures var w' := Run(w, more).value;
            && Safe(w') && p in w'.processes && w'.processes[p].Gone?
            && w'.processes == w.processes[p := w'.processes[p]] && w'.lockEmpty == w.lockEmpty
    decreases StepsLeft(w.processes[p])
  {
    if w.processes[p].Gone? {
      more := [];
      assert w.processes[p := w.processes[p]] == w.processes;
    } else {
      var a := NextStep(p, w.processes[p]);
      NextIsOwn(w, p);
      StepShrinks(w, a);
      NextIsSafe(w, a);
      var rest := EndsByItself(Apply(w, a), p);
      more := [a] + rest;
      FirstStep(w, a, rest);
    }
  }

  // A process that has died altogether is gone.
  lemma {:induction false} DyingIsNotDead(w: World, actions: seq<Action>, p: nat)
    requires w.processes == map[] && Run(w, actions).Some? && p in Run(w, actions).value.processes
    ensures Run(w, actions).value.processes[p] != Dying(false, false)
  {
    if actions != [] {
      var init, a := actions[..|actions| - 1], actions[|actions| - 1];
      var before := Run(w, init).value;
      if p in before.processes {
        DyingIsNotDead(w, init, p);
      }
      assert p == a.p || (p in before.processes && Apply(before, a).processes[p] == before.processes[p]);
    }
  }

  // Every process of every reachable state can come to its end by itself.
  lemma EveryProcessEnds(lockEmpty: bool, marker: Option<nat>, actions: seq<Action>, p: nat)
      returns (more: seq<Action>)
    requires Run(Init(lockEmpty, marker), actions).Some?
    requires p in Run(Init(lockEmpty, marker), actions).value.processes
    ensures forall a :: a in more ==> a.p == p && !a.Start? && !a.Crash?
    ensures var w := Run(Init(lockEmpty, marker), actions).value;
            Run(w, more).Some? && p in Run(w, more).value.processes && Run(w, more).value.processes[p].Gone?
  {
    RunIsSafe(lockEmpty, marker, actions);
    DyingIsNotDead(Init(lockEmpty, marker), actions, p);
    more := EndsByItself(Run(Init(lockEmpty, marker), actions).value, p);
  }

  lemma NextIsOwn(w: World, p: nat)
    requires p in w.processes && !w.processes[p].Gone? && w.processes[p] != Dying(false, false)
    ensures var a := NextStep(p, w.processes[p]); Enabled(w, a) && a.p == p && !a.Start? && !a.Crash?
  {
    OwnSteps(w, NextStep(p, w.processes[p]));
  }

  lemma NextIsSafe(w: World, a: Action)
    requires Safe(w) && Enabled(w, a)
    ensures Safe(Apply(w, a)) && Apply(w, a).lockEmpty == w.lockEmpty
  {
    if a.Start? || a.TryLock? || a.CloseListener? || a.Crash? {
      OtherStepIsSafe(w, a);
    } else {
      HolderStepIsSafe(w, a);
    }
  }

  lemma FirstStep(w: World, a: Action, more: seq<Action>)
    requires Enabled(w, a) && Run(Apply(w, a), more).Some?
    ensures Run(w, [a] + more) == Run(Apply(w, a), more)
  {
    Runs.OneMore(Next, w, [], a);
    assert [] + [a] == [a];
    Runs.Concat(Next, w, [a], more);
  }

  // Whoever has the lock can give it up.
  lemma LockComesFree(w: World) returns (more: seq<Action>)
    requires Safe(w)
    ensures Run(w, more).Some? && forall a :: a in more ==> Some(a.p) == w.lock && !a.Start? && !a.Crash?
    ensures var w' := Run(w, more).value;
            && Safe(w') && w'.lock.None? && w'.lockEmpty == w.lockEmpty
            && forall p :: Some(p) != w.lock ==> (p in w'.processes <==> p in w.processes)
                                                 && (p in w.processes ==> w'.processes[p] == w.processes[p])
  {
    if w.lock.None? {
      more := [];
    } else {
      var q := w.lock.value;
      assert ProcessOk(w, q, w.processes[q]);
      more := EndsByItself(w, q);
      var w' := Run(w, more).value;
      forall p | p in w'.processes ensures w'.lock != Some(p) {
        assert ProcessOk(w', p, w'.processes[p]);
        if p != q {
          assert ProcessOk(w, p, w.processes[p]);
        }
      }
    }
  }

  // With the lock free, a listener belongs to a dying process, and goes with it.
  lemma ListenerGoes(w: World) returns (more: seq<Action>)
    requires Safe(w) && w.lock.None?
    ensures Run(w, more).Some? && forall a :: a in more ==> a.CloseListener?
    ensures var w' := Run(w, more).value;
            && w'.lock.None? && w'.lockEmpty == w.lockEmpty && !Listening(w')
            && forall p :: p in w'.processes ==>
                             p in w.processes && (w.processes[p].Gone? ==> w'.processes[p] == w.processes[p])
  {
    if !Listening(w) {
      more := [];
    } else {
      var p := w.socket.value.owner;
      assert ProcessOk(w, p, w.processes[p]);
      OwnSteps(w, CloseListener(p));
      more := [CloseListener(p)];
      Runs.OneMore(Next, w, [], CloseListener(p));
      assert [] + more == more;
    }
  }

  // Whatever has happened, a process that is not running can come to serve,
  // without any other one crashing, as long as the lock file is empty.
  lemma AlwaysServable(marker: Option<nat>, actions: seq<Action>, p: nat, retries: nat) returns (more: seq<Action>)
    requires Run(Init(true, marker), actions).Some?
    requires var w := Run(Init(true, marker), actions).value; p in w.processes ==> w.processes[p].Gone?
    ensures var w := Run(Init(true, marker), actions).value;
            && (forall a :: a in more ==> !a.Crash?)
            && Run(w, more).Some? && At(Run(w, more).value, p, Serving)
            && Run(w, more).value.lock == Some(p) && Run(w, more).value.marker == Some(p)
            && Run(w, more).value.socket == Some(Socket(p, true))
  {
    RunIsSafe(true, marker, actions);
    LockStaysAsItIs(Init(true, marker), actions);
    var w := Run(Init(true, marker), actions).value;
    if p in w.processes {
      assert ProcessOk(w, p, w.processes[p]);
    }
    var first := LockComesFree(w);
    var w1 := Run(w, first).value;
    var second := ListenerGoes(w1);
    var w2 := Run(w1, second).value;
    Runs.Concat(Next, w, first, second);
    var third := Launches(w2, p, retries);
    more := first + second + third;
    Runs.Concat(Next, w, first + second, third);
  }

  lemma Launches(w: World, p: nat, retries: nat) returns (more: seq<Action>)
    requires w.lock.None? && w.lockEmpty && !Listening(w) && (p in w.processes ==> w.processes[p].Gone?)
    ensures Run(w, more).Some? && At(Run(w, more).value, p, Serving) && forall a :: a in more ==> !a.Crash?
    ensures Run(w, more).value.lock == Some(p) && Run(w, more).value.marker == Some(p)
    ensures Run(w, more).value.socket == Some(Socket(p, true))
  {
    var first := [Start(p, retries), TryLock(p, false), CheckLock(p), WriteMarker(p, true)];
    Launch(w, p, retries);
    var ready := Move(w, p, Ready).(lock := Some(p), marker := Some(p));
    ServesWhenFree(ready, p);
    var rest :=
      if w.socket.None? then [CheckSocket(p, Missing), Bind(p, true), MarkOwned(p)]
      else [CheckSocket(p, Stale), RemoveStale(p, true), Bind(p, true), MarkOwned(p)];
    more := first + rest;
    Runs.Concat(Next, w, first, rest);
  }
}
