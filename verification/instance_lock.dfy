// One primary instance: a lock file, an owner marker and a focus socket, with
// processes that start, leave and crash in any interleaving.
module InstanceLock {
  import opened Results
  import Runs

  // ---- the marker file ----

  datatype Owner = Owner(pid: nat)

  // A file in the settings directory: complete contents, or an unfinished write.
  datatype Content = Complete(owner: Owner) | Partial

  datatype Name = Marker | Temporary(pid: nat, counter: nat)

  const MAX_ATTEMPTS: nat := 16

  class SettingsDirectory {
    var files: map<Name, Content>
    var counter: nat

    constructor (files: map<Name, Content>)
      ensures this.files == files && counter == 0
    {
      this.files := files;
      counter := 0;
    }

    // Writes a temporary file and renames it over the marker. `writes` and
    // `renames` say whether the operating system lets it. The marker is never
    // seen unfinished, and no temporary file of this call is left.
    method AtomicWriteInstanceOwner(owner: Owner, writes: bool, renames: bool) returns (ok: bool)
      modifies this
      ensures files == if ok then old(files)[Marker := Complete(owner)] else old(files)
      ensures ok ==> writes && renames
      ensures writes && renames ==>
        (ok <==> exists k :: old(counter) <= k < old(counter) + 16 && Temporary(owner.pid, k) !in old(files))
    {
      for attempt := 0 to MAX_ATTEMPTS
        invariant files == old(files) && counter == old(counter) + attempt
        invariant forall k :: old(counter) <= k < counter ==> Temporary(owner.pid, k) in files
      {
        var temporary := Temporary(owner.pid, counter);
        counter := counter + 1;
        if temporary in files {
          continue;
        }
        files := files[temporary := Partial];
        if !writes {
          files := files - {temporary};
          assert files == old(files);
          return false;
        }
        files := files[temporary := Complete(owner)];
        if !renames {
          files := files - {temporary};
          assert files == old(files);
          return false;
        }
        files := files[Marker := files[temporary]] - {temporary};
        assert files == old(files)[Marker := Complete(owner)];
        return true;
      }
      ok := false;
    }

    // Removes the marker only while it names the expected owner. `removes` says
    // whether the operating system lets it; a failure goes unnoticed.
    method RemoveInstanceOwnerIfMatches(expected: Owner, removes: bool)
      modifies this`files
      ensures files ==
        if removes && Marker in old(files) && old(files)[Marker] == Complete(expected) then old(files) - {Marker}
        else old(files)
    {
      if Marker in files && files[Marker] == Complete(expected) && removes {
        files := files - {Marker};
      }
    }
  }

  // ---- processes ----

  datatype Status = Missing | Stale | Active | OtherStatus // unknown, denied or not checkable

  // The socket file: who bound it, and whether that process still listens.
  datatype Socket = Socket(owner: nat, listening: bool)

  datatype Exit = Focused | AlreadyRunningNotReady | Failed | Left

  // Where a process is. It is the primary from Ready to Releasing. A dying
  // process loses its lock and its listener one after the other.
  datatype Place =
    | Starting(retries: nat) | CheckingLock | WritingMarker
    | Ready | RemovingStale | Binding | Bound | Serving
    | Leaving(socketOwned: bool) | CheckingMarker | RemovingMarker | Releasing
    | Dying(locked: bool, open: bool) | Gone(exit: Exit)

  // `lockEmpty` is the lock file's content, which nothing ever writes.
  datatype World = World(
    lock: Option<nat>, lockEmpty: bool, marker: Option<nat>, socket: Option<Socket>, processes: map<nat, Place>)

  datatype Action =
    | Start(p: nat, retries: nat)
    | TryLock(p: nat, focused: bool) // and, when the lock is taken, whether the primary took the focus
    | CheckLock(p: nat)
    | WriteMarker(p: nat, ok: bool)
    | CheckSocket(p: nat, status: Status)
    | RemoveStale(p: nat, ok: bool)
    | Bind(p: nat, ok: bool)
    | MarkOwned(p: nat)
    | Leave(p: nat)
    | RemoveSocket(p: nat, ok: bool)
    | CheckMarker(p: nat)
    | RemoveMarker(p: nat, ok: bool)
    | Release(p: nat)
    | Crash(p: nat)
    // what the system does for a dying process, in either order
    | FreeLock(p: nat)
    | CloseListener(p: nat)

  function Init(lockEmpty: bool, marker: Option<nat>): World {
    World(None, lockEmpty, marker, None, map[])
  }

  predicate At(w: World, p: nat, place: Place) {
    p in w.processes && w.processes[p] == place
  }

  predicate Holds(place: Place) {
    place.CheckingLock? || place.WritingMarker? || IsPrimary(place) || (place.Dying? && place.locked)
  }

  predicate IsPrimary(place: Place) {
    || place.Ready? || place.RemovingStale? || place.Binding? || place.Bound? || place.Serving?
    || place.Leaving? || place.CheckingMarker? || place.RemovingMarker? || place.Releasing?
  }

  // What a check of the socket can find.
  predicate CanSee(w: World, status: Status) {
    match status
    case Missing => w.socket.None?
    case Stale => w.socket.Some? && !w.socket.value.listening
    case Active => w.socket.Some? && w.socket.value.listening
    case OtherStatus => true
  }

  predicate MayLeave(place: Place) {
    place.Ready? || place.Serving?
  }

  predicate Enabled(w: World, a: Action) {
    match a
    case Start(p, _) => p in w.processes ==> w.processes[p].Gone?
    case TryLock(p, focused) =>
      && p in w.processes && w.processes[p].Starting?
      && (focused ==> w.lock.Some? && w.socket.Some? && w.socket.value.listening)
    case CheckLock(p) => At(w, p, CheckingLock)
    case WriteMarker(p, _) => At(w, p, WritingMarker)
    case CheckSocket(p, status) => At(w, p, Ready) && CanSee(w, status)
    case RemoveStale(p, _) => At(w, p, RemovingStale)
    case Bind(p, ok) => At(w, p, Binding) && (ok ==> w.socket.None?)
    case MarkOwned(p) => At(w, p, Bound)
    case Leave(p) => p in w.processes && MayLeave(w.processes[p])
    case RemoveSocket(p, _) => p in w.processes && w.processes[p].Leaving?
    case CheckMarker(p) => At(w, p, CheckingMarker)
    case RemoveMarker(p, _) => At(w, p, RemovingMarker)
    case Release(p) => At(w, p, Releasing)
    case Crash(p) => p in w.processes && !w.processes[p].Gone? && !w.processes[p].Dying?
    case FreeLock(p) => p in w.processes && w.processes[p].Dying? && w.processes[p].locked
    case CloseListener(p) => p in w.processes && w.processes[p].Dying? && w.processes[p].open
  }

  function Move(w: World, p: nat, place: Place): World {
    w.(processes := w.processes[p := place])
  }

  function TryLockStep(w: World, p: nat, retries: nat, focused: bool): World {
    if w.lock.None? then Move(w, p, CheckingLock).(lock := Some(p))
    else if focused then Move(w, p, Gone(Focused))
    else if retries == 0 then Move(w, p, Gone(AlreadyRunningNotReady))
    else Move(w, p, Starting(retries - 1))
  }

  function AfterStatus(status: Status): Place {
    match status
    case Missing => Binding
    case Stale => RemovingStale
    case _ => Leaving(false)
  }

  // A process is gone when it has lost both.
  function Dies(locked: bool, open: bool): Place {
    if locked || open then Dying(locked, open) else Gone(Left)
  }

  function CloseStep(w: World, p: nat): World
    requires p in w.processes && w.processes[p].Dying?
  {
    var socket :=
      if w.socket.Some? && w.socket.value.owner == p then Some(w.socket.value.(listening := false)) else w.socket;
    Move(w, p, Dies(w.processes[p].locked, false)).(socket := socket)
  }

  function Apply(w: World, a: Action): World
    requires Enabled(w, a)
  {
    match a
    case Start(p, retries) => Move(w, p, Starting(retries))
    case TryLock(p, focused) => TryLockStep(w, p, w.processes[p].retries, focused)
    case CheckLock(p) =>
      if w.lockEmpty then Move(w, p, WritingMarker) else Move(w, p, Gone(Failed)).(lock := None)
    case WriteMarker(p, ok) =>
      if ok then Move(w, p, Ready).(marker := Some(p)) else Move(w, p, Gone(Failed)).(lock := None)
    case CheckSocket(p, status) => Move(w, p, AfterStatus(status))
    case RemoveStale(p, ok) =>
      if ok then Move(w, p, Binding).(socket := None) else Move(w, p, Leaving(false))
    case Bind(p, ok) =>
      if ok then Move(w, p, Bound).(socket := Some(Socket(p, true))) else Move(w, p, Leaving(false))
    case MarkOwned(p) => Move(w, p, Serving)
    case Leave(p) => Move(w, p, Leaving(w.processes[p].Serving?))
    case RemoveSocket(p, ok) =>
      Move(w, p, CheckingMarker).(socket := if ok && w.processes[p].socketOwned then None else w.socket)
    case CheckMarker(p) => Move(w, p, if w.marker == Some(p) then RemovingMarker else Releasing)
    case RemoveMarker(p, ok) => Move(w, p, Releasing).(marker := if ok then None else w.marker)
    case Release(p) => Move(w, p, Dying(false, true)).(lock := None)
    case Crash(p) => Move(w, p, Dying(w.lock == Some(p), true))
    case FreeLock(p) => Move(w, p, Dies(false, w.processes[p].open)).(lock := None)
    case CloseListener(p) => CloseStep(w, p)
  }

  function Next(w: World, a: Action): Option<World> {
    if Enabled(w, a) then Some(Apply(w, a)) else None
  }

  function Run(w: World, actions: seq<Action>): Option<World> {
    Runs.Run(Next, w, actions)
  }

  // ---- what every reachable state keeps ----

  // A primary whose marker is still in place.
  predicate IsNamed(place: Place) {
    IsPrimary(place) && !place.Releasing?
  }

  ghost predicate ProcessOk(w: World, p: nat, place: Place) {
    && (Holds(place) <==> w.lock == Some(p))
    && (IsNamed(place) ==> w.marker == Some(p))
    && (place.WritingMarker? || IsPrimary(place) ==> w.lockEmpty)
    && (place.Bound? || place.Serving? || (place.Leaving? && place.socketOwned) ==> w.socket == Some(Socket(p, true)))
    && (place.RemovingStale? ==> w.socket.Some? && !w.socket.value.listening)
  }

  // Places after a process's own bind; only there can it be listening.
  predicate AfterBind(place: Place) {
    || place.Bound? || place.Serving? || place.Leaving? || place.CheckingMarker? || place.RemovingMarker?
    || place.Releasing? || (place.Dying? && place.open)
  }

  ghost predicate Safe(w: World) {
    && (forall p :: p in w.processes ==> ProcessOk(w, p, w.processes[p]))
    && (w.lock.Some? ==> w.lock.value in w.processes)
    && (w.socket.Some? && w.socket.value.listening ==>
          w.socket.value.owner in w.processes && AfterBind(w.processes[w.socket.value.owner]))
  }

  // A step of the process that holds the lock.
  lemma HolderStepIsSafe(w: World, a: Action)
    requires Safe(w) && Enabled(w, a) && !a.Start? && !a.TryLock? && !a.CloseListener? && !a.Crash?
    ensures Safe(Apply(w, a))
  {
    var w' := Apply(w, a);
    assert ProcessOk(w, a.p, w.processes[a.p]);
    forall q | q in w'.processes ensures ProcessOk(w', q, w'.processes[q]) {
      if q != a.p {
        assert ProcessOk(w, q, w.processes[q]);
      }
    }
  }

  lemma OtherStepIsSafe(w: World, a: Action)
    requires Safe(w) && Enabled(w, a) && (a.Start? || a.TryLock? || a.CloseListener? || a.Crash?)
    ensures Safe(Apply(w, a))
  {
    var w' := Apply(w, a);
    if a.p in w.processes {
      assert ProcessOk(w, a.p, w.processes[a.p]);
    }
    forall q | q in w'.processes ensures ProcessOk(w', q, w'.processes[q]) {
      if q != a.p {
        assert ProcessOk(w, q, w.processes[q]);
      }
    }
  }

  lemma {:induction false} RunIsSafe(lockEmpty: bool, marker: Option<nat>, actions: seq<Action>)
    requires Run(Init(lockEmpty, marker), actions).Some?
    ensures Safe(Run(Init(lockEmpty, marker), actions).value)
  {
    if actions != [] {
      var init, a := actions[..|actions| - 1], actions[|actions| - 1];
      RunIsSafe(lockEmpty, marker, init);
      var before := Run(Init(lockEmpty, marker), init).value;
      if a.Start? || a.TryLock? || a.CloseListener? || a.Crash? {
        OtherStepIsSafe(before, a);
      } else {
        HolderStepIsSafe(before, a);
      }
    }
  }

  // ---- the theorems ----

  // At most one primary; it holds the lock, the marker names it until it takes
  // the marker away itself, and its bound socket is in place.
  lemma OnePrimary(lockEmpty: bool, marker: Option<nat>, actions: seq<Action>, p: nat)
    requires Run(Init(lockEmpty, marker), actions).Some?
    requires p in Run(Init(lockEmpty, marker), actions).value.processes
    requires IsPrimary(Run(Init(lockEmpty, marker), actions).value.processes[p])
    ensures var w := Run(Init(lockEmpty, marker), actions).value;
            && w.lock == Some(p) && lockEmpty
            && (forall q :: q in w.processes && IsPrimary(w.processes[q]) ==> q == p)
            && (IsNamed(w.processes[p]) ==> w.marker == Some(p))
            && (w.processes[p].Serving? ==> w.socket == Some(Socket(p, true)))
  {
    RunIsSafe(lockEmpty, marker, actions);
    LockStaysAsItIs(Init(lockEmpty, marker), actions);
    var w := Run(Init(lockEmpty, marker), actions).value;
    forall q | q in w.processes && IsPrimary(w.processes[q]) ensures q == p {
      assert ProcessOk(w, q, w.processes[q]) && ProcessOk(w, p, w.processes[p]);
    }
    assert ProcessOk(w, p, w.processes[p]);
  }

  lemma {:induction false} LockStaysAsItIs(w: World, actions: seq<Action>)
    requires Run(w, actions).Some?
    ensures Run(w, actions).value.lockEmpty == w.lockEmpty
  {
    if actions != [] {
      LockStaysAsItIs(w, actions[..|actions| - 1]);
    }
  }

  // While p is the primary no other process touches its marker or the socket
  // it has bound, whatever that process does or however it ends.
  lemma OthersLeaveThePrimaryAlone(lockEmpty: bool, marker: Option<nat>, actions: seq<Action>, p: nat, a: Action)
    requires Run(Init(lockEmpty, marker), actions).Some?
    requires Enabled(Run(Init(lockEmpty, marker), actions).value, a) && a.p != p
    requires p in Run(Init(lockEmpty, marker), actions).value.processes
    requires IsPrimary(Run(Init(lockEmpty, marker), actions).value.processes[p])
    ensures var w := Run(Init(lockEmpty, marker), actions).value;
            var w' := Apply(w, a);
            && w'.marker == w.marker && w'.lock == w.lock
            && (w.socket.Some? && w.socket.value.owner == p ==> w'.socket == w.socket)
            && (w.socket.None? ==> w'.socket.None?)
            && p in w'.processes && w'.processes[p] == w.processes[p]
  {
    RunIsSafe(lockEmpty, marker, actions);
    var w := Run(Init(lockEmpty, marker), actions).value;
    assert ProcessOk(w, p, w.processes[p]);
    if a.p in w.processes {
      assert ProcessOk(w, a.p, w.processes[a.p]);
    }
  }

  // The socket that is removed as stale belongs to nobody who still listens.
  lemma OnlyStaleSocketsAreReplaced(lockEmpty: bool, marker: Option<nat>, actions: seq<Action>, p: nat, ok: bool)
    requires Run(Init(lockEmpty, marker), actions).Some?
    requires Enabled(Run(Init(lockEmpty, marker), actions).value, RemoveStale(p, ok))
    ensures var w := Run(Init(lockEmpty, marker), actions).value;
            w.socket.Some? && !w.socket.value.listening
  {
    RunIsSafe(lockEmpty, marker, actions);
    var w := Run(Init(lockEmpty, marker), actions).value;
    assert ProcessOk(w, p, w.processes[p]);
  }

  // A lock file with a legacy marker in it is never replaced, and while it is
  // there no process becomes the primary.
  lemma LegacyLockRefuses(marker: Option<nat>, actions: seq<Action>, p: nat)
    requires Run(Init(false, marker), actions).Some?
    requires p in Run(Init(false, marker), actions).value.processes
    ensures !IsPrimary(Run(Init(false, marker), actions).value.processes[p])
    ensures Run(Init(false, marker), actions).value.marker == marker
  {
    RunIsSafe(false, marker, actions);
    LockStaysAsItIs(Init(false, marker), actions);
    var w := Run(Init(false, marker), actions).value;
    assert ProcessOk(w, p, w.processes[p]);
    LegacyMarkerStays(marker, actions);
  }

  lemma {:induction false} LegacyMarkerStays(marker: Option<nat>, actions: seq<Action>)
    requires Run(Init(false, marker), actions).Some?
    ensures Run(Init(false, marker), actions).value.marker == marker
  {
    if actions != [] {
      var init, a := actions[..|actions| - 1], actions[|actions| - 1];
      LegacyMarkerStays(marker, init);
      RunIsSafe(false, marker, init);
      LockStaysAsItIs(Init(false, marker), init);
      var before := Run(Init(false, marker), init).value;
      if a.p in before.processes {
        assert ProcessOk(before, a.p, before.processes[a.p]);
      }
    }
  }

  // A crashed primary frees the lock, whether its lock or its listener goes
  // first: the next process that tries gets it, and nobody gets it before.
  lemma CrashFreesTheLock(lockEmpty: bool, marker: Option<nat>, actions: seq<Action>, p: nat, q: nat)
    requires Run(Init(lockEmpty, marker), actions).Some?
    requires var w := Run(Init(lockEmpty, marker), actions).value;
             && p in w.processes && IsPrimary(w.processes[p]) && p != q
             && q in w.processes && w.processes[q].Starting?
    ensures var w := Run(Init(lockEmpty, marker), actions).value;
            && Enabled(w, Crash(p))
            && LockIsNext(Apply(w, Crash(p)), p, q)
            && Enabled(Apply(w, Crash(p)), CloseListener(p))
            && LockIsNext(Apply(Apply(w, Crash(p)), CloseListener(p)), p, q)
  {
    OnePrimary(lockEmpty, marker, actions, p);
    var w := Run(Init(lockEmpty, marker), actions).value;
    DyingFreesTheLock(w, p, q);
  }

  // A dying process stops listening and frees its lock, and no more.
  lemma DyingStep(w: World, p: nat)
    requires p in w.processes && w.processes[p].Dying?
    ensures Enabled(w, FreeLock(p)) <==> w.processes[p].locked
    ensures Enabled(w, CloseListener(p)) <==> w.processes[p].open
    ensures w.processes[p].locked ==>
              Apply(w, FreeLock(p)).lock.None? && Apply(w, FreeLock(p)).socket == w.socket
              && Apply(w, FreeLock(p)).marker == w.marker
    ensures w.processes[p].open ==>
              var w' := Apply(w, CloseListener(p));
              && w'.lock == w.lock && w'.marker == w.marker
              && (if w.socket.Some? && w.socket.value.owner == p then w'.socket == Some(Socket(p, false))
                  else w'.socket == w.socket)
    ensures w.processes[p] == Dying(true, false) ==> At(Apply(w, FreeLock(p)), p, Gone(Left))
    ensures w.processes[p] == Dying(false, true) ==> At(Apply(w, CloseListener(p)), p, Gone(Left))
  {
  }

  // A removal takes its own file when the system lets it, and else nothing: the
  // socket only of the process that owns it, the marker only when it is named.
  lemma RemovalsTakeTheirOwn(w: World, p: nat, ok: bool)
    ensures Enabled(w, RemoveSocket(p, ok)) ==>
              var socket := if w.processes[p] == Leaving(true) && ok then None else w.socket;
              Apply(w, RemoveSocket(p, ok)) == Move(w, p, CheckingMarker).(socket := socket)
    ensures Enabled(w, CheckMarker(p)) ==>
              Apply(w, CheckMarker(p)) == Move(w, p, if w.marker == Some(p) then RemovingMarker else Releasing)
    ensures Enabled(w, RemoveMarker(p, ok)) ==>
              Apply(w, RemoveMarker(p, ok)) == Move(w, p, Releasing).(marker := if ok then None else w.marker)
    ensures Enabled(w, RemoveStale(p, false)) ==> Apply(w, RemoveStale(p, false)) == Move(w, p, Leaving(false))
    ensures Enabled(w, Bind(p, false)) ==> Apply(w, Bind(p, false)) == Move(w, p, Leaving(false))
  {
  }

  // A process that has the lock may leave before it serves and while it does.
  lemma LeavesWhenItLikes(w: World, p: nat)
    requires At(w, p, Ready) || At(w, p, Serving)
    ensures Enabled(w, Leave(p)) && Apply(w, Leave(p)) == Move(w, p, Leaving(w.processes[p] == Serving))
  {
  }

  lemma DyingFreesTheLock(w: World, p: nat, q: nat)
    requires w.lock == Some(p) && p in w.processes && IsPrimary(w.processes[p]) && p != q
    requires q in w.processes && w.processes[q].Starting?
    ensures Enabled(w, Crash(p)) && LockIsNext(Apply(w, Crash(p)), p, q)
    ensures Enabled(Apply(w, Crash(p)), CloseListener(p))
    ensures LockIsNext(Apply(Apply(w, Crash(p)), CloseListener(p)), p, q)
  {
    var w1 := Apply(w, Crash(p));
    DyingHolder(w1, p, q);
    DyingHolder(Apply(w1, CloseListener(p)), p, q);
  }

  lemma DyingHolder(w: World, p: nat, q: nat)
    requires w.lock == Some(p) && p in w.processes && w.processes[p].Dying? && w.processes[p].locked && p != q
    requires q in w.processes && w.processes[q].Starting?
    ensures LockIsNext(w, p, q)
  {
  }

  // The lock is still p's, and q gets it as soon as it is freed.
  predicate LockIsNext(w: World, p: nat, q: nat) {
    && w.lock == Some(p) && Enabled(w, TryLock(q, false)) && Apply(w, TryLock(q, false)).lock == Some(p)
    && Enabled(w, FreeLock(p)) && Enabled(Apply(w, FreeLock(p)), TryLock(q, false))
    && Apply(Apply(w, FreeLock(p)), TryLock(q, false)).lock == Some(q)
  }

  // ---- who comes to serve ----

  // With its place free, or taken by a socket nobody listens on, a process that
  // has the lock goes on to bind and serve.
  lemma ServesWhenFree(w: World, p: nat)
    requires At(w, p, Ready)
    ensures var serving := Some(Move(w, p, Serving).(socket := Some(Socket(p, true))));
            && (w.socket.None? ==> Run(w, [CheckSocket(p, Missing), Bind(p, true), MarkOwned(p)]) == serving)
            && (w.socket.Some? && !w.socket.value.listening ==>
                  Run(w, [CheckSocket(p, Stale), RemoveStale(p, true), Bind(p, true), MarkOwned(p)]) == serving)
  {
    var binding := Move(w, p, Binding).(socket := None);
    if w.socket.None? {
      assert Next(w, CheckSocket(p, Missing)) == Some(binding);
      Runs.OneMore(Next, w, [], CheckSocket(p, Missing));
      assert [] + [CheckSocket(p, Missing)] == [CheckSocket(p, Missing)];
      BindsAndServes(w, p, [CheckSocket(p, Missing)]);
      assert [CheckSocket(p, Missing)] + [Bind(p, true), MarkOwned(p)]
          == [CheckSocket(p, Missing), Bind(p, true), MarkOwned(p)];
    } else if !w.socket.value.listening {
      MovedTwice(w, p, RemovingStale, Binding);
      assert Next(w, CheckSocket(p, Stale)) == Some(Move(w, p, RemovingStale));
      assert Next(Move(w, p, RemovingStale), RemoveStale(p, true)) == Some(binding);
      Runs.Two(Next, w, CheckSocket(p, Stale), RemoveStale(p, true));
      BindsAndServes(w, p, [CheckSocket(p, Stale), RemoveStale(p, true)]);
      assert [CheckSocket(p, Stale), RemoveStale(p, true)] + [Bind(p, true), MarkOwned(p)]
          == [CheckSocket(p, Stale), RemoveStale(p, true), Bind(p, true), MarkOwned(p)];
    }
  }

  lemma BindsAndServes(w: World, p: nat, first: seq<Action>)
    requires Run(w, first) == Some(Move(w, p, Binding).(socket := None)) && p in w.processes
    ensures Run(w, first + [Bind(p, true), MarkOwned(p)])
         == Some(Move(w, p, Serving).(socket := Some(Socket(p, true))))
  {
    var w1 := Move(w, p, Binding).(socket := None);
    var w2 := Move(w, p, Bound).(socket := Some(Socket(p, true)));
    MovedTwice(w, p, Binding, Bound);
    MovedTwice(w, p, Bound, Serving);
    assert Next(w1, Bind(p, true)) == Some(w2);
    assert Next(w2, MarkOwned(p)) == Some(Move(w, p, Serving).(socket := Some(Socket(p, true))));
    Runs.Two(Next, w1, Bind(p, true), MarkOwned(p));
    Runs.Concat(Next, w, first, [Bind(p, true), MarkOwned(p)]);
  }

  // A process comes to bind in these two ways only, and never beside a listener.
  lemma ComesToBind(w: World, a: Action, p: nat)
    requires Safe(w) && Enabled(w, a) && !At(w, p, Binding)
    ensures At(Apply(w, a), p, Binding) <==>
              a == CheckSocket(p, Missing) || a == RemoveStale(p, true)
    ensures At(Apply(w, a), p, Binding) ==> At(w, p, Ready) || At(w, p, RemovingStale)
    ensures At(Apply(w, a), p, Binding) ==> !(w.socket.Some? && w.socket.value.listening)
  {
    if p in w.processes {
      assert ProcessOk(w, p, w.processes[p]);
    }
  }

  // Beside a listener, or when the check fails, it leaves without the socket.
  lemma LeavesBesideListener(w: World, p: nat, status: Status)
    requires Enabled(w, CheckSocket(p, status))
    requires (w.socket.Some? && w.socket.value.listening) || status == OtherStatus
    ensures Apply(w, CheckSocket(p, status)) == Move(w, p, Leaving(false))
    ensures forall ok :: Apply(Apply(w, CheckSocket(p, status)), RemoveSocket(p, ok)) == Move(w, p, CheckingMarker)
  {
    MovedTwice(w, p, Leaving(false), CheckingMarker);
  }

  // A socket that is listened on changes by a step of its owner only.
  lemma ListenersKeepTheirSocket(w: World, a: Action)
    requires Safe(w) && Enabled(w, a) && w.socket.Some? && w.socket.value.listening
    ensures Apply(w, a).socket == w.socket || a.p == w.socket.value.owner
  {
    if a.p in w.processes {
      assert ProcessOk(w, a.p, w.processes[a.p]);
    }
  }

  // The first launch: lock, marker and socket are its own, and it serves.
  lemma FirstLaunch(marker: Option<nat>, p: nat, retries: nat)
    ensures Run(Init(true, marker),
                [Start(p, retries), TryLock(p, false), CheckLock(p), WriteMarker(p, true)]
                + [CheckSocket(p, Missing), Bind(p, true), MarkOwned(p)])
         == Some(World(Some(p), true, Some(p), Some(Socket(p, true)), map[p := Serving]))
  {
    var w := Init(true, marker);
    var first := [Start(p, retries), TryLock(p, false), CheckLock(p), WriteMarker(p, true)];
    Launch(w, p, retries);
    Runs.Concat(Next, w, first, [CheckSocket(p, Missing), Bind(p, true), MarkOwned(p)]);
    ServesWhenFree(Run(w, first).value, p);
    MovedTwice(w, p, Ready, Serving);
    assert Move(w, p, Serving).processes == map[p := Serving];
  }

  // A launch with the lock free and its file empty comes to Ready.
  lemma Launch(w: World, p: nat, retries: nat)
    requires w.lock.None? && w.lockEmpty && (p in w.processes ==> w.processes[p].Gone?)
    ensures Run(w, [Start(p, retries), TryLock(p, false), CheckLock(p), WriteMarker(p, true)])
         == Some(Move(w, p, Ready).(lock := Some(p), marker := Some(p)))
  {
    var w1 := Move(w, p, CheckingLock).(lock := Some(p));
    MovedTwice(w, p, Starting(retries), CheckingLock);
    MovedTwice(w, p, CheckingLock, WritingMarker);
    MovedTwice(w, p, WritingMarker, Ready);
    assert Next(w, Start(p, retries)) == Some(Move(w, p, Starting(retries)));
    assert Next(Move(w, p, Starting(retries)), TryLock(p, false)) == Some(w1);
    Runs.Two(Next, w, Start(p, retries), TryLock(p, false));
    var w2 := Move(w, p, WritingMarker).(lock := Some(p));
    assert Next(w1, CheckLock(p)) == Some(w2);
    assert Next(w2, WriteMarker(p, true)) == Some(Move(w, p, Ready).(lock := Some(p), marker := Some(p)));
    Runs.Two(Next, w1, CheckLock(p), WriteMarker(p, true));
    Runs.Concat(Next, w, [Start(p, retries), TryLock(p, false)], [CheckLock(p), WriteMarker(p, true)]);
    assert [Start(p, retries), TryLock(p, false)] + [CheckLock(p), WriteMarker(p, true)]
        == [Start(p, retries), TryLock(p, false), CheckLock(p), WriteMarker(p, true)];
  }

  // A lock file with content, or a marker that cannot be written, ends the
  // launch with the lock free again and nothing else changed.
  lemma FailedLaunch(w: World, p: nat)
    requires w.lock == Some(p)
    ensures At(w, p, CheckingLock) && !w.lockEmpty ==>
              Enabled(w, CheckLock(p)) && Apply(w, CheckLock(p)) == Move(w, p, Gone(Failed)).(lock := None)
    ensures At(w, p, WritingMarker) ==>
              && Enabled(w, WriteMarker(p, false))
              && Apply(w, WriteMarker(p, false)) == Move(w, p, Gone(Failed)).(lock := None)
  {
  }

  // Attempts to get the lock that do not get the focus of the primary either.
  function Attempts(p: nat, count: nat): seq<Action> {
    seq(count, i => TryLock(p, false))
  }

  // Beside a process that keeps the lock a second launch gives up after its
  // retries and one more attempt; nothing else changes.
  lemma {:induction false} SecondLaunchGivesUp(w: World, p: nat, retries: nat)
    requires At(w, p, Starting(retries)) && w.lock.Some?
    ensures Run(w, Attempts(p, retries + 1)) == Some(Move(w, p, Gone(AlreadyRunningNotReady)))
    decreases retries
  {
    var all := Attempts(p, retries + 1);
    Runs.OneMore(Next, w, [], TryLock(p, false));
    assert [] + [TryLock(p, false)] == [TryLock(p, false)] == Attempts(p, 1);
    if retries > 0 {
      var w1 := Move(w, p, Starting(retries - 1));
      assert Next(w, TryLock(p, false)) == Some(w1);
      SecondLaunchGivesUp(w1, p, retries - 1);
      MovedTwice(w, p, Starting(retries - 1), Gone(AlreadyRunningNotReady));
      Runs.Concat(Next, w, Attempts(p, 1), Attempts(p, retries));
      assert Attempts(p, 1) + Attempts(p, retries) == all;
    }
  }

  // It gets the focus instead exactly while somebody holds the lock and listens.
  lemma SecondLaunchFocuses(w: World, p: nat, retries: nat)
    requires At(w, p, Starting(retries))
    ensures Enabled(w, TryLock(p, true)) <==> w.lock.Some? && w.socket.Some? && w.socket.value.listening
    ensures Enabled(w, TryLock(p, true)) ==> Apply(w, TryLock(p, true)) == Move(w, p, Gone(Focused))
  {
  }

  predicate HasSocket(w: World, p: nat) {
    w.socket.Some? && w.socket.value.owner == p
  }

  // A serving process on its way out, with what it has cleaned up so far.
  predicate CleanSoFar(w: World, p: nat) {
    && p in w.processes
    && match w.processes[p]
       case Serving => true
       case Leaving(socketOwned) => socketOwned
       case CheckingMarker => !HasSocket(w, p)
       case RemovingMarker => !HasSocket(w, p)
       case Releasing => !HasSocket(w, p) && w.marker != Some(p)
       case Dying(locked, _) => !locked && !HasSocket(w, p) && w.marker != Some(p) && w.lock != Some(p)
       case Gone(_) => !HasSocket(w, p) && w.marker != Some(p) && w.lock != Some(p)
       case _ => false
  }

  // Its removals succeed, it is not killed, and its number is not used again.
  predicate LeavesInPeace(a: Action, p: nat) {
    a != RemoveSocket(p, false) && a != RemoveMarker(p, false) && a != Crash(p) && !(a.Start? && a.p == p)
  }

  lemma OwnCleaning(w: World, a: Action, p: nat)
    requires Safe(w) && Enabled(w, a) && CleanSoFar(w, p) && LeavesInPeace(a, p) && a.p == p
    ensures CleanSoFar(Apply(w, a), p)
  {
    assert ProcessOk(w, p, w.processes[p]);
  }

  // The steps of another process leave its own socket, marker and lock only.
  lemma OthersStayClean(w: World, a: Action, p: nat)
    requires Enabled(w, a) && a.p != p && p in w.processes
    ensures var w' := Apply(w, a);
            && p in w'.processes && w'.processes[p] == w.processes[p]
            && (HasSocket(w', p) ==> HasSocket(w, p))
            && (w'.marker == Some(p) ==> w.marker == Some(p)) && (w'.lock == Some(p) ==> w.lock == Some(p))
  {
  }

  lemma CleaningGoesOn(w: World, a: Action, p: nat)
    requires Safe(w) && Enabled(w, a) && CleanSoFar(w, p) && LeavesInPeace(a, p)
    ensures CleanSoFar(Apply(w, a), p)
  {
    if a.p == p {
      OwnCleaning(w, a, p);
    } else {
      OthersStayClean(w, a, p);
    }
  }

  // In every run: once a process that was serving has freed the lock, its
  // socket and its marker are gone, if the system let it remove them.
  lemma {:induction false} LeavingCleansUp(
      lockEmpty: bool, marker: Option<nat>, actions: seq<Action>, more: seq<Action>, p: nat)
    requires Run(Init(lockEmpty, marker), actions).Some?
    requires At(Run(Init(lockEmpty, marker), actions).value, p, Serving)
    requires Run(Init(lockEmpty, marker), actions + more).Some?
    requires forall i :: 0 <= i < |more| ==> LeavesInPeace(more[i], p)
    ensures var w := Run(Init(lockEmpty, marker), actions + more).value;
            && CleanSoFar(w, p)
            && (w.lock != Some(p) ==> w.marker != Some(p) && !HasSocket(w, p))
    decreases |more|
  {
    var w := Run(Init(lockEmpty, marker), actions + more).value;
    if more == [] {
      assert actions + more == actions;
    } else {
      var n := |more| - 1;
      var init := actions + more[..n];
      assert (actions + more)[..|actions + more| - 1] == init && (actions + more)[|actions + more| - 1] == more[n];
      LeavingCleansUp(lockEmpty, marker, actions, more[..n], p);
      RunIsSafe(lockEmpty, marker, init);
      CleaningGoesOn(Run(Init(lockEmpty, marker), init).value, more[n], p);
    }
    RunIsSafe(lockEmpty, marker, actions + more);
    assert ProcessOk(w, p, w.processes[p]);
  }

  // One such run, undisturbed by others.
  lemma LeavingRun(w: World, p: nat)
    requires Safe(w) && At(w, p, Serving)
    ensures var left := Run(w, [Leave(p), RemoveSocket(p, true), CheckMarker(p), RemoveMarker(p, true), Release(p)]);
            left.Some? && left.value == Move(w, p, Dying(false, true)).(lock := None, marker := None, socket := None)
  {
    SocketGoes(w, p);
    var w2 := Move(w, p, CheckingMarker).(socket := None);
    assert ProcessOk(w, p, w.processes[p]);
    MarkerAndLockGo(w2, p);
    MovedTwice(w, p, CheckingMarker, Dying(false, true));
    var two, three := [Leave(p), RemoveSocket(p, true)], [CheckMarker(p), RemoveMarker(p, true), Release(p)];
    Runs.Concat(Next, w, two, three);
    assert two + three == [Leave(p), RemoveSocket(p, true), CheckMarker(p), RemoveMarker(p, true), Release(p)];
  }

  lemma SocketGoes(w: World, p: nat)
    requires Safe(w) && At(w, p, Serving)
    ensures Run(w, [Leave(p), RemoveSocket(p, true)]) == Some(Move(w, p, CheckingMarker).(socket := None))
  {
    var w1 := Move(w, p, Leaving(true));
    assert Apply(w, Leave(p)) == w1;
    assert Apply(w1, RemoveSocket(p, true)) == Move(w, p, CheckingMarker).(socket := None);
    Runs.Two(Next, w, Leave(p), RemoveSocket(p, true));
  }

  lemma MovedTwice(w: World, p: nat, first: Place, second: Place)
    ensures Move(Move(w, p, first), p, second) == Move(w, p, second)
  {
  }

  lemma MarkerAndLockGo(w: World, p: nat)
    requires At(w, p, CheckingMarker) && w.marker == Some(p)
    ensures Run(w, [CheckMarker(p), RemoveMarker(p, true), Release(p)])
         == Some(Move(w, p, Dying(false, true)).(lock := None, marker := None))
  {
    MovedTwice(w, p, RemovingMarker, Releasing);
    MovedTwice(w, p, Releasing, Dying(false, true));
    MarkerGoes(w, p);
    var w1 := Move(w, p, Releasing).(marker := None);
    assert Next(w1, Release(p)) == Some(Move(w, p, Dying(false, true)).(lock := None, marker := None));
    Runs.OneMore(Next, w, [CheckMarker(p), RemoveMarker(p, true)], Release(p));
    assert [CheckMarker(p), RemoveMarker(p, true)] + [Release(p)]
        == [CheckMarker(p), RemoveMarker(p, true), Release(p)];
  }

  lemma MarkerGoes(w: World, p: nat)
    requires At(w, p, CheckingMarker) && w.marker == Some(p)
    ensures Run(w, [CheckMarker(p), RemoveMarker(p, true)]) == Some(Move(w, p, Releasing).(marker := None))
  {
    MovedTwice(w, p, RemovingMarker, Releasing);
    var w1 := Move(w, p, RemovingMarker);
    assert Next(w, CheckMarker(p)) == Some(w1);
    assert Next(w1, RemoveMarker(p, true)) == Some(Move(w, p, Releasing).(marker := None));
    Runs.Two(Next, w, CheckMarker(p), RemoveMarker(p, true));
  }
}
