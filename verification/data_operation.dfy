// Restore, pending restore, delete and recovery-probe commands as threads that
// share the data-operation lock, the sidecar and the database, interleaved
// with the sidecar's own writes and with a closing window.
module DataOperation {
  import opened Results
  import Runs

  // The contents of the database.
  type Data = nat

  // ---- the sidecar slot ----

  class AppState {
    // Whether the slot holds a sidecar, which is then alive.
    var sidecar: bool

    constructor (sidecar: bool)
      ensures this.sidecar == sidecar
    {
      this.sidecar := sidecar;
    }

    // Stops what is there. `stops` says whether the process goes away.
    method CleanupSidecar(stops: bool) returns (ok: bool)
      modifies this
      ensures ok <==> old(sidecar) ==> stops
      ensures sidecar == (old(sidecar) && !ok)
    {
      if !sidecar {
        return true;
      }
      if !stops {
        return false;
      }
      sidecar := false;
      ok := true;
    }

    // The same, but a sidecar has to be there.
    method QuiesceSidecar(stops: bool) returns (ok: bool)
      modifies this
      ensures ok <==> Quiesces(old(sidecar), stops)
      ensures sidecar == (old(sidecar) && !ok)
    {
      if !sidecar || !stops {
        return false;
      }
      sidecar := false;
      ok := true;
    }

    // Starts a sidecar into the empty slot. `starts` says whether it comes up.
    method RestartSidecar(starts: bool) returns (ok: bool)
      modifies this
      ensures ok <==> Restarts(old(sidecar), starts)
      ensures sidecar == (old(sidecar) || ok)
    {
      if !starts || sidecar {
        return false;
      }
      sidecar := true;
      ok := true;
    }
  }

  predicate Quiesces(sidecar: bool, stops: bool) {
    sidecar && stops
  }

  predicate Restarts(sidecar: bool, starts: bool) {
    starts && !sidecar
  }

  // ---- commands ----

  datatype Command =
    | Restore(requested: Data) // a managed or external backup with this content
    | Resume(requested: Data)  // a pending restore of this content
    | Delete
    | Probe                    // does the database need recovery?

  datatype Mode = Normal | RecoveryOnly

  // A failed worker may report any code, also one the commands use themselves.
  datatype ErrorCode =
    | RequestRefused // confirmation, update lock, storage, runtime, operation id
    | QuiesceFailed | SidecarUnavailable | RollbackFailed | ProtocolError | RecoveryTransitionFailed
    | Reported(name: string)

  datatype Response = Success | Failed(code: ErrorCode)

  // How a worker process ends: a worker that cannot be started or understood
  // has failed later. A failed restore leaves the database as it was.
  datatype WorkerResult =
    | Succeeded(namesSafetyBackup: bool)
    | FailedValidation(code: ErrorCode)
    | FailedLater(left: Data, code: ErrorCode) // for a delete: whatever is left
    | RecoveryRequired(snapshot: bool) | DatabaseReady | NotRecovered(code: ErrorCode)

  // Where a command is. From Preparing on, until it is Done, it holds the lock.
  datatype Place =
    | Entering | Preparing | Quiescing | Working
    | Restarting(worked: Response, namesSafetyBackup: bool)
    | MarkingReady | MarkingRecovery | RollingBack | RestartingAgain
    | Done(response: Response, data: Data)

  // What happened to a command, for the theorems only: whether it was refused,
  // the recovery flag when it had the lock, whether the sidecar stopped, the
  // database when its worker ran, how the worker ended, whether the restart
  // after it came up, how the rollback ended and the restart after that, whether
  // recovery was marked and shown, and the database when the command brought a
  // sidecar up.
  datatype History = History(
    refused: Option<bool>, inRecovery: Option<bool>, quiesced: Option<bool>, before: Option<Data>,
    worker: Option<WorkerResult>, restarted: Option<bool>, rollback: Option<WorkerResult>,
    restartedAgain: Option<bool>, marked: Option<(bool, bool)>, resumedOn: Option<Data>)

  const NOTHING_YET := History(None, None, None, None, None, None, None, None, None, None)

  datatype Thread = Thread(command: Command, place: Place, mode: Mode, past: History)

  // A safety backup is named by the operation that made it.
  datatype Shared = Shared(
    lock: Option<nat>, sidecar: bool, recoveryOnly: bool, exitAllowed: bool, database: Data,
    safetyBackups: map<nat, Data>)

  datatype System = System(shared: Shared, threads: seq<Thread>)

  // What happens in a command's next step.
  datatype Event =
    | Lock | Prepare(refused: bool) | Quiesce(stops: bool) | Work(result: WorkerResult) | Restart(starts: bool)
    | Mark(ok: bool, shown: bool)

  datatype Action =
    | Enter(command: Command)
    | Step(t: nat, event: Event)
    | SidecarWrites(data: Data)
    | CleanUp(stops: bool)       // a closing window
    | SetExit(allowed: bool)

  predicate IsRestore(command: Command) {
    command.Restore? || command.Resume?
  }

  predicate Holding(place: Place) {
    !place.Entering? && !place.Done?
  }

  // The results a worker of this command can have.
  predicate Possible(command: Command, result: WorkerResult) {
    match result
    case Succeeded(names) => !command.Probe? && (command.Restore? ==> names)
    case FailedValidation(_) => !command.Probe?
    case FailedLater(_, _) => !command.Probe?
    case RecoveryRequired(_) => command.Probe?
    case DatabaseReady => command.Probe?
    case NotRecovered(_) => command.Probe?
  }

  predicate StepEnabled(sh: Shared, t: nat, th: Thread, e: Event) {
    match th.place
    case Entering => e.Lock? && sh.lock.None?
    case Preparing => e.Prepare?
    case Quiescing => e.Quiesce?
    case Working => e.Work? && Possible(th.command, e.result)
    case Restarting(_, _) => e.Restart?
    case MarkingReady => e.Mark?
    case MarkingRecovery => e.Mark?
    case RollingBack => e.Work? && Possible(Restore(0), e.result) && (e.result.Succeeded? ==> t in sh.safetyBackups)
    case RestartingAgain => e.Restart?
    case Done(_, _) => false
  }

  // Returning releases the lock.
  function Finish(sh: Shared, th: Thread, response: Response): (Shared, Thread) {
    (sh.(lock := None), th.(place := Done(response, sh.database)))
  }

  function PrepareStep(sh: Shared, th: Thread, refused: bool): (Shared, Thread) {
    var th' := th.(past := th.past.(refused := Some(refused), inRecovery := Some(sh.recoveryOnly)));
    if refused then Finish(sh, th', Failed(RequestRefused))
    else if th.command.Probe? && sh.recoveryOnly then Finish(sh, th', Failed(RecoveryTransitionFailed))
    else if IsRestore(th.command) && sh.recoveryOnly then (sh, th'.(place := Working, mode := RecoveryOnly))
    else (sh, th'.(place := Quiescing))
  }

  function QuiesceStep(sh: Shared, th: Thread, stops: bool): (Shared, Thread) {
    var th' := th.(past := th.past.(quiesced := Some(Quiesces(sh.sidecar, stops))));
    if Quiesces(sh.sidecar, stops) then (sh.(sidecar := false), th'.(place := Working))
    else Finish(sh, th', Failed(if th.command.Probe? then RecoveryTransitionFailed else QuiesceFailed))
  }

  function RestoreWorked(sh: Shared, t: nat, th: Thread, result: WorkerResult): (Shared, Thread)
    requires IsRestore(th.command) && Possible(th.command, result)
  {
    if result.Succeeded? then
      (sh.(database := th.command.requested, safetyBackups := sh.safetyBackups[t := sh.database]),
       th.(place := Restarting(Success, result.namesSafetyBackup)))
    else if th.mode.RecoveryOnly? then Finish(sh, th, Failed(result.code))
    else (sh, th.(place := Restarting(Failed(result.code), false)))
  }

  function DeleteWorked(sh: Shared, th: Thread, result: WorkerResult, emptied: Data): (Shared, Thread)
    requires Possible(Delete, result)
  {
    match result
    case Succeeded(_) => Finish(sh.(database := emptied, exitAllowed := true), th, Success)
    case FailedLater(left, code) => Finish(sh.(database := left, exitAllowed := true), th, Failed(code))
    case FailedValidation(code) => (sh, th.(place := Restarting(Failed(code), false)))
  }

  function ProbeWorked(sh: Shared, th: Thread, result: WorkerResult): (Shared, Thread)
    requires Possible(Probe, result)
  {
    match result
    case RecoveryRequired(snapshot) =>
      if snapshot then (sh, th.(place := MarkingRecovery)) else Finish(sh, th, Failed(ProtocolError))
    case DatabaseReady => (sh, th.(place := Restarting(Success, false)))
    case NotRecovered(code) => (sh, th.(place := Restarting(Failed(code), false)))
  }

  const EMPTIED: Data := 0 // the database without the user's data

  function WorkStep(sh: Shared, t: nat, th: Thread, result: WorkerResult): (Shared, Thread)
    requires Possible(th.command, result)
  {
    var th' := th.(past := th.past.(before := Some(sh.database), worker := Some(result)));
    match th.command
    case Delete => DeleteWorked(sh, th', result, EMPTIED)
    case Probe => ProbeWorked(sh, th', result)
    case _ => RestoreWorked(sh, t, th', result)
  }

  function RestartStep(sh: Shared, th: Thread, starts: bool): (Shared, Thread)
    requires th.place.Restarting?
  {
    var worked, namesBackup := th.place.worked, th.place.namesSafetyBackup;
    var up := Restarts(sh.sidecar, starts);
    var th' := th.(past := th.past.(restarted := Some(up)));
    if up then Restarted(sh, th', worked)
    else if th.mode.RecoveryOnly? then Finish(sh, th', Failed(SidecarUnavailable))
    else
      match th.command
      case Delete => Finish(sh, th', Failed(QuiesceFailed))
      case Probe => Finish(sh, th', if worked.Success? then Failed(SidecarUnavailable) else worked)
      case _ =>
        if worked.Failed? then Finish(sh, th', Failed(QuiesceFailed))
        else if !namesBackup then Finish(sh, th', Failed(ProtocolError))
        else (sh, th'.(place := RollingBack))
  }

  function Restarted(sh: Shared, th: Thread, worked: Response): (Shared, Thread) {
    var up, th' := sh.(sidecar := true), th.(past := th.past.(resumedOn := Some(sh.database)));
    if th.mode.RecoveryOnly? then (up, th'.(place := MarkingReady)) else Finish(up, th', worked)
  }

  function RollBackStep(sh: Shared, t: nat, th: Thread, result: WorkerResult): (Shared, Thread)
    requires result.Succeeded? ==> t in sh.safetyBackups
  {
    var th' := th.(past := th.past.(rollback := Some(result)));
    if result.Succeeded? then (sh.(database := sh.safetyBackups[t]), th'.(place := RestartingAgain))
    else Finish(sh, th', Failed(RollbackFailed))
  }

  function RestartAgainStep(sh: Shared, th: Thread, starts: bool): (Shared, Thread) {
    var th' := th.(past := th.past.(restartedAgain := Some(Restarts(sh.sidecar, starts))));
    if Restarts(sh.sidecar, starts) then
      Finish(sh.(sidecar := true), th'.(past := th'.past.(resumedOn := Some(sh.database))), Failed(QuiesceFailed))
    else Finish(sh, th', Failed(RollbackFailed))
  }

  function MarkRecoveryStep(sh: Shared, th: Thread, ok: bool, shown: bool): (Shared, Thread) {
    var th' := th.(past := th.past.(marked := Some((ok, shown))));
    if !ok then Finish(sh, th', Failed(RecoveryTransitionFailed))
    else Finish(sh.(recoveryOnly := true, exitAllowed := true), th',
                if shown then Success else Failed(RecoveryTransitionFailed))
  }

  function StepThread(sh: Shared, t: nat, th: Thread, e: Event): (Shared, Thread)
    requires StepEnabled(sh, t, th, e)
  {
    match th.place
    case Entering => (sh.(lock := Some(t)), th.(place := Preparing))
    case Preparing => PrepareStep(sh, th, e.refused)
    case Quiescing => QuiesceStep(sh, th, e.stops)
    case Working => WorkStep(sh, t, th, e.result)
    case Restarting(_, _) => RestartStep(sh, th, e.starts)
    case MarkingReady => Finish(sh.(recoveryOnly := false, exitAllowed := false), th, Success)
    case MarkingRecovery => MarkRecoveryStep(sh, th, e.ok, e.shown)
    case RollingBack => RollBackStep(sh, t, th, e.result)
    case RestartingAgain => RestartAgainStep(sh, th, e.starts)
  }

  predicate Enabled(s: System, a: Action) {
    match a
    case Step(t, e) => t < |s.threads| && StepEnabled(s.shared, t, s.threads[t], e)
    case SidecarWrites(_) => s.shared.sidecar
    case _ => true
  }

  function Apply(s: System, a: Action): System
    requires Enabled(s, a)
  {
    match a
    case Enter(command) => s.(threads := s.threads + [Thread(command, Entering, Normal, NOTHING_YET)])
    case Step(t, e) =>
      var (sh, th) := StepThread(s.shared, t, s.threads[t], e);
      System(sh, s.threads[t := th])
    case SidecarWrites(data) => s.(shared := s.shared.(database := data))
    case CleanUp(stops) => s.(shared := s.shared.(sidecar := s.shared.sidecar && !stops))
    case SetExit(allowed) => s.(shared := s.shared.(exitAllowed := allowed))
  }

  function Next(s: System, a: Action): Option<System> {
    if Enabled(s, a) then Some(Apply(s, a)) else None
  }

  function Run(s: System, actions: seq<Action>): Option<System> {
    Runs.Run(Next, s, actions)
  }

  // The application starts without a sidecar when it is in recovery.
  function Start(recoveryOnly: bool, database: Data): System {
    System(Shared(None, !recoveryOnly, recoveryOnly, recoveryOnly, database, map[]), [])
  }

  // ---- what every reachable state keeps ----

  predicate WorkerRuns(place: Place) {
    place.Working? || place.RollingBack?
  }

  // The lock holder, between its steps.
  ghost predicate HolderOk(sh: Shared, t: nat, th: Thread) {
    && (th.mode.RecoveryOnly? ==> IsRestore(th.command) && sh.recoveryOnly)
    && (th.mode.Normal? && !(th.place.Preparing? || th.place.Quiescing?) ==> !sh.recoveryOnly)
    && (th.mode.RecoveryOnly? && th.place.Restarting? ==> th.place.worked.Success?)
    && (sh.recoveryOnly && sh.sidecar ==> th.place.MarkingReady?)
    && (!(th.place.Preparing? || th.place.Quiescing? || th.place.MarkingReady?) ==> !sh.sidecar)
    && (th.place.Preparing? || th.place.Quiescing? ==> th.mode.Normal?)
    && (th.place.RollingBack? || th.place.RestartingAgain? ==> th.mode.Normal? && IsRestore(th.command))
    && (th.place.MarkingReady? ==> th.mode.RecoveryOnly? && IsRestore(th.command))
    && (th.place.MarkingRecovery? ==> th.command.Probe?)
    && PastOk(sh, t, th)
  }

  // The command has got past its preparations.
  ghost predicate Began(th: Thread) {
    && th.past.refused == Some(false) && th.past.inRecovery.Some?
    && (IsRestore(th.command) ==> (th.mode.RecoveryOnly? <==> th.past.inRecovery == Some(true)))
    && (th.command.Probe? ==> th.past.inRecovery == Some(false))
    && th.past.quiesced == if th.mode.RecoveryOnly? then None else Some(true)
  }

  // What happened to the lock holder so far, place by place.
  ghost predicate PastOk(sh: Shared, t: nat, th: Thread) {
    match th.place
    case Entering => th.past == NOTHING_YET
    case Preparing => th.past == NOTHING_YET
    case Quiescing =>
      && (th.past.inRecovery == Some(false) || (th.past.inRecovery == Some(true) && th.command.Delete?))
      && th.past == NOTHING_YET.(refused := Some(false), inRecovery := th.past.inRecovery)
    case Working =>
      Began(th) && th.past == NOTHING_YET.(
                     refused := th.past.refused, inRecovery := th.past.inRecovery, quiesced := th.past.quiesced)
    case Restarting(worked, names) =>
      && Began(th) && th.past.worker.Some? && Possible(th.command, th.past.worker.value)
      && th.past == NOTHING_YET.(
           refused := th.past.refused, inRecovery := th.past.inRecovery, quiesced := th.past.quiesced,
           before := th.past.before, worker := th.past.worker)
      && WorkedIs(th, worked)
      && (if worked.Success? && IsRestore(th.command) then
            Installed(sh, t, th) && th.past.worker == Some(Succeeded(names))
          else th.past.before == Some(sh.database) && !th.past.worker.value.Succeeded?
               && (worked.Success? ==> th.command.Probe?))
    case MarkingReady =>
      && Began(th) && th.past.before.Some? && SucceededWith(th, true) && Possible(th.command, th.past.worker.value)
      && IsRestore(th.command) && th.past.resumedOn == Some(th.command.requested)
      && th.past.rollback.None? && th.past.restartedAgain.None? && th.past.marked.None?
    case MarkingRecovery =>
      && Began(th) && th.past.before == Some(sh.database) && th.past.worker == Some(RecoveryRequired(true))
      && th.past.restarted.None? && th.past.restartedAgain.None? && th.past.resumedOn.None?
    case RollingBack =>
      && Began(th) && Installed(sh, t, th) && th.past.worker == Some(Succeeded(true))
      && th.past.restarted == Some(false) && th.past.rollback.None? && th.past.restartedAgain.None?
      && th.past.resumedOn.None?
    case RestartingAgain =>
      && Began(th) && th.past.before == Some(sh.database) && th.past.worker == Some(Succeeded(true))
      && th.past.restarted == Some(false)
      && th.past.rollback.Some? && th.past.rollback.value.Succeeded? && th.past.resumedOn.None?
    case Done(_, _) => true
  }

  // What a command brings back from its worker.
  predicate WorkedIs(th: Thread, worked: Response)
    requires th.past.worker.Some?
  {
    match th.past.worker.value
    case Succeeded(_) => worked == Success
    case FailedValidation(code) => worked == Failed(code)
    case FailedLater(_, code) => worked == Failed(code) && !th.command.Delete?
    case RecoveryRequired(_) => false
    case DatabaseReady => worked == Success
    case NotRecovered(code) => worked == Failed(code)
  }

  // The data on which a command brought a sidecar up, if it did.
  predicate ResumedExactly(th: Thread) {
    th.past.resumedOn ==
    if th.past.restarted == Some(true) then
      if IsRestore(th.command) && th.past.worker.Some? && th.past.worker.value.Succeeded? then
        Some(th.command.requested)
      else th.past.before
    else if th.past.restartedAgain == Some(true) then th.past.before
    else None
  }

  // The data a command leaves, unless a sidecar it brought up in recovery has
  // written since.
  predicate LeftExactly(th: Thread)
    requires th.place.Done?
  {
    th.past.worker.Some? && th.past.before.Some? ==>
      match th.past.worker.value
      case Succeeded(_) =>
        if th.command.Delete? then th.place.data == EMPTIED
        else if th.past.rollback.Some? && th.past.rollback.value.Succeeded? then Some(th.place.data) == th.past.before
        else IsRestore(th.command) && th.past.restarted == Some(false) ==> th.place.data == th.command.requested
      case FailedLater(left, _) =>
        if th.command.Delete? then th.place.data == left else Some(th.place.data) == th.past.before
      case _ => Some(th.place.data) == th.past.before
  }

  // ---- the answer to a command, from what happened to it ----

  // None: this cannot have happened to a command that is done.
  function Answer(command: Command, past: History): Option<Response> {
    if past.refused.None? then None
    else if past.refused.value then Some(Failed(RequestRefused))
    else if command.Probe? && past.inRecovery == Some(true) then Some(Failed(RecoveryTransitionFailed))
    else if past.quiesced == Some(false) then
      Some(Failed(if command.Probe? then RecoveryTransitionFailed else QuiesceFailed))
    else if past.worker.None? then None
    else
      match command
      case Probe => ProbeAnswer(past)
      case Delete => DeleteAnswer(past)
      case _ => RestoreAnswer(past)
  }

  function ProbeAnswer(past: History): Option<Response>
    requires past.worker.Some?
  {
    match past.worker.value
    case RecoveryRequired(snapshot) =>
      if !snapshot then Some(Failed(ProtocolError))
      else if past.marked.None? then None
      else Some(if past.marked == Some((true, true)) then Success else Failed(RecoveryTransitionFailed))
    case DatabaseReady =>
      if past.restarted.None? then None
      else Some(if past.restarted.value then Success else Failed(SidecarUnavailable))
    case NotRecovered(code) => if past.restarted.None? then None else Some(Failed(code))
    case _ => None
  }

  function DeleteAnswer(past: History): Option<Response>
    requires past.worker.Some?
  {
    match past.worker.value
    case Succeeded(_) => Some(Success)
    case FailedLater(_, code) => Some(Failed(code))
    case FailedValidation(code) =>
      if past.restarted.None? then None else Some(Failed(if past.restarted.value then code else QuiesceFailed))
    case _ => None
  }

  function RestoreAnswer(past: History): Option<Response>
    requires past.worker.Some?
  {
    match past.worker.value
    case Succeeded(names) =>
      if past.restarted.None? then None
      else if past.restarted.value then Some(Success)
      else if past.inRecovery == Some(true) then Some(Failed(SidecarUnavailable))
      else if !names then Some(Failed(ProtocolError))
      else if past.rollback.None? then None
      else if past.rollback.value.Succeeded? && past.restartedAgain == Some(true) then Some(Failed(QuiesceFailed))
      else Some(Failed(RollbackFailed))
    case FailedValidation(code) => FailedRestore(past, code)
    case FailedLater(_, code) => FailedRestore(past, code)
    case _ => None
  }

  function FailedRestore(past: History, code: ErrorCode): Option<Response> {
    if past.inRecovery == Some(true) then Some(Failed(code))
    else if past.restarted.None? then None
    else Some(Failed(if past.restarted.value then code else QuiesceFailed))
  }

  // The worker succeeded, and the restart after it came up or did not.
  predicate SucceededWith(th: Thread, restarted: bool) {
    th.past.worker.Some? && th.past.worker.value.Succeeded? && th.past.restarted == Some(restarted)
  }

  // The requested data is in place, and the original in the safety backup.
  ghost predicate Installed(sh: Shared, t: nat, th: Thread) {
    && IsRestore(th.command) && sh.database == th.command.requested && th.past.before.Some?
    && t in sh.safetyBackups && sh.safetyBackups[t] == th.past.before.value
  }

  // Nothing this command's workers did is left in the database.
  predicate OriginalInPlace(th: Thread)
    requires th.place.Done?
  {
    th.past.before.None? || th.past.before == Some(th.place.data)
  }

  // The branches that end with the requested data behind an error: the worker
  // succeeded, the sidecar did not come up after it, and there is no way back
  // (in recovery, or without a named backup) or the way back failed.
  predicate LeavesNewData(th: Thread) {
    && SucceededWith(th, false)
    && (th.mode.RecoveryOnly? || !th.past.worker.value.namesSafetyBackup
        || (th.past.rollback.Some? && !th.past.rollback.value.Succeeded?))
  }

  // The code such a branch reports.
  function CodeOf(th: Thread): ErrorCode
    requires LeavesNewData(th)
  {
    if th.mode.RecoveryOnly? then SidecarUnavailable
    else if !th.past.worker.value.namesSafetyBackup then ProtocolError
    else RollbackFailed
  }

  // The outcome of a finished restore.
  ghost predicate RestoreOk(th: Thread)
    requires th.place.Done? && IsRestore(th.command)
  {
    && (th.past.worker.Some? ==> Possible(th.command, th.past.worker.value))
    && (th.place.response.Success? <==> SucceededWith(th, true))
    && (th.place.response.Success? ==> th.past.resumedOn == Some(th.command.requested))
    && (th.place.response.Failed? ==>
          if LeavesNewData(th) then
            && th.past.before.Some? && th.place.data == th.command.requested && th.past.resumedOn.None?
            && th.place.response.code == CodeOf(th)
          else OriginalInPlace(th))
  }

  // A delete brings the sidecar back only on untouched data.
  ghost predicate DeleteOk(th: Thread)
    requires th.place.Done? && th.command.Delete?
  {
    match th.place.response
    case Success => th.place.data == EMPTIED && th.past.resumedOn.None?
    case Failed(_) =>
      && (!(th.past.worker.Some? && th.past.worker.value.FailedLater?) ==> OriginalInPlace(th))
      && (th.past.resumedOn.Some? ==> OriginalInPlace(th) && th.past.resumedOn == th.past.before)
  }

  ghost predicate DoneOk(th: Thread)
    requires th.place.Done?
  {
    match th.command
    case Delete => DeleteOk(th)
    case Probe => OriginalInPlace(th)
    case _ => RestoreOk(th)
  }

  ghost predicate ThreadOk(sh: Shared, t: nat, th: Thread) {
    && (Holding(th.place) <==> sh.lock == Some(t))
    && (Holding(th.place) ==> HolderOk(sh, t, th))
    && (th.place.Entering? ==> th.past == NOTHING_YET && th.mode.Normal?)
    && (th.place.Done? ==>
          DoneOk(th) && Answer(th.command, th.past) == Some(th.place.response) && ResumedExactly(th) && LeftExactly(th))
  }

  ghost predicate Safe(s: System) {
    && (forall t :: 0 <= t < |s.threads| ==> ThreadOk(s.shared, t, s.threads[t]))
    && (s.shared.lock.Some? ==> s.shared.lock.value < |s.threads|)
    && (s.shared.lock.None? && s.shared.recoveryOnly ==> !s.shared.sidecar)
  }

  // ---- every step keeps it ----

  // A step of thread t: the holder stays the holder or releases the lock.
  ghost predicate StepOk(sh': Shared, t: nat, th': Thread) {
    && ThreadOk(sh', t, th')
    && (sh'.lock == Some(t) || (sh'.lock.None? && (sh'.recoveryOnly ==> !sh'.sidecar)))
  }

  lemma WorkIsSafe(sh: Shared, t: nat, th: Thread, result: WorkerResult)
    requires ThreadOk(sh, t, th) && th.place.Working? && Possible(th.command, result)
    ensures var (sh', th') := WorkStep(sh, t, th, result); StepOk(sh', t, th')
  {
  }

  lemma RestartIsSafe(sh: Shared, t: nat, th: Thread, starts: bool)
    requires ThreadOk(sh, t, th) && th.place.Restarting?
    ensures var (sh', th') := RestartStep(sh, th, starts); StepOk(sh', t, th')
  {
  }

  lemma RollBackIsSafe(sh: Shared, t: nat, th: Thread, result: WorkerResult)
    requires ThreadOk(sh, t, th) && th.place.RollingBack? && (result.Succeeded? ==> t in sh.safetyBackups)
    ensures var (sh', th') := RollBackStep(sh, t, th, result); StepOk(sh', t, th')
  {
  }

  lemma RestartAgainIsSafe(sh: Shared, t: nat, th: Thread, starts: bool)
    requires ThreadOk(sh, t, th) && th.place.RestartingAgain?
    ensures var (sh', th') := RestartAgainStep(sh, th, starts); StepOk(sh', t, th')
  {
  }

  lemma EarlyStepIsSafe(sh: Shared, t: nat, th: Thread, e: Event)
    requires ThreadOk(sh, t, th) && StepEnabled(sh, t, th, e)
    requires th.place.Preparing? || th.place.Quiescing? || th.place.MarkingRecovery? || th.place.MarkingReady?
    ensures var (sh', th') := StepThread(sh, t, th, e); StepOk(sh', t, th')
  {
  }

  lemma HolderStepIsSafe(sh: Shared, t: nat, th: Thread, e: Event)
    requires ThreadOk(sh, t, th) && StepEnabled(sh, t, th, e) && Holding(th.place)
    ensures var (sh', th') := StepThread(sh, t, th, e); StepOk(sh', t, th')
  {
    match th.place
    case Working => WorkIsSafe(sh, t, th, e.result);
    case Restarting(_, _) => RestartIsSafe(sh, t, th, e.starts);
    case RollingBack => RollBackIsSafe(sh, t, th, e.result);
    case RestartingAgain => RestartAgainIsSafe(sh, t, th, e.starts);
    case _ => EarlyStepIsSafe(sh, t, th, e);
  }

  lemma ThreadStepIsSafe(s: System, t: nat, e: Event)
    requires Safe(s) && Enabled(s, Step(t, e))
    ensures Safe(Apply(s, Step(t, e)))
  {
    var th := s.threads[t];
    var (sh', th') := StepThread(s.shared, t, th, e);
    assert ThreadOk(s.shared, t, th);
    if Holding(th.place) {
      HolderStepIsSafe(s.shared, t, th, e);
    } else {
      assert StepOk(sh', t, th');
    }
    forall u | 0 <= u < |s.threads| && u != t ensures ThreadOk(sh', u, s.threads[u]) {
      assert ThreadOk(s.shared, u, s.threads[u]);
    }
  }

  lemma OtherStepIsSafe(s: System, a: Action)
    requires Safe(s) && Enabled(s, a) && !a.Step?
    ensures Safe(Apply(s, a))
  {
    var s' := Apply(s, a);
    forall t | 0 <= t < |s.threads| ensures ThreadOk(s'.shared, t, s'.threads[t]) {
      assert ThreadOk(s.shared, t, s.threads[t]);
    }
  }

  lemma StepIsSafe(s: System, a: Action)
    requires Safe(s) && Enabled(s, a)
    ensures Safe(Apply(s, a))
  {
    if a.Step? {
      ThreadStepIsSafe(s, a.t, a.event);
    } else {
      OtherStepIsSafe(s, a);
    }
  }

  lemma {:induction false} RunIsSafe(recoveryOnly: bool, database: Data, actions: seq<Action>)
    requires Run(Start(recoveryOnly, database), actions).Some?
    ensures Safe(Run(Start(recoveryOnly, database), actions).value)
  {
    if actions != [] {
      var init, a := actions[..|actions| - 1], actions[|actions| - 1];
      RunIsSafe(recoveryOnly, database, init);
      StepIsSafe(Run(Start(recoveryOnly, database), init).value, a);
    }
  }

  // What the surroundings do: the sidecar writes what it likes while it is
  // there, a window empties the slot if the process stops, and the permission to
  // exit is set; nothing else changes.
  lemma SurroundingSteps(s: System, data: Data, flag: bool)
    ensures Enabled(s, SidecarWrites(data)) <==> s.shared.sidecar
    ensures s.shared.sidecar ==> Apply(s, SidecarWrites(data)) == s.(shared := s.shared.(database := data))
    ensures Enabled(s, CleanUp(flag)) && Enabled(s, SetExit(flag))
    ensures Apply(s, CleanUp(true)) == s.(shared := s.shared.(sidecar := false)) && Apply(s, CleanUp(false)) == s
    ensures Apply(s, SetExit(flag)) == s.(shared := s.shared.(exitAllowed := flag))
  {
  }

  // ---- the theorems ----

  // Whenever a worker runs, its command holds the lock and no sidecar is
  // alive, in recovery as well; so there is at most one worker.
  lemma WorkersRunAlone(recoveryOnly: bool, database: Data, actions: seq<Action>, t: nat)
    requires Run(Start(recoveryOnly, database), actions).Some?
    requires t < |Run(Start(recoveryOnly, database), actions).value.threads|
    requires WorkerRuns(Run(Start(recoveryOnly, database), actions).value.threads[t].place)
    ensures var s := Run(Start(recoveryOnly, database), actions).value;
            && s.shared.lock == Some(t) && !s.shared.sidecar
            && (forall u :: 0 <= u < |s.threads| && u != t ==> !Holding(s.threads[u].place))
  {
    RunIsSafe(recoveryOnly, database, actions);
    var s := Run(Start(recoveryOnly, database), actions).value;
    assert ThreadOk(s.shared, t, s.threads[t]);
    forall u | 0 <= u < |s.threads| && u != t ensures !Holding(s.threads[u].place) {
      assert ThreadOk(s.shared, u, s.threads[u]);
    }
  }

  // Every finished command has answered what happened to it calls for, brought
  // a sidecar up on the right data, and left the right data.
  lemma AnsweredExactly(recoveryOnly: bool, database: Data, actions: seq<Action>, t: nat)
    requires Run(Start(recoveryOnly, database), actions).Some?
    requires t < |Run(Start(recoveryOnly, database), actions).value.threads|
    requires Run(Start(recoveryOnly, database), actions).value.threads[t].place.Done?
    ensures var th := Run(Start(recoveryOnly, database), actions).value.threads[t];
            Answer(th.command, th.past) == Some(th.place.response) && ResumedExactly(th) && LeftExactly(th)
  {
    RunIsSafe(recoveryOnly, database, actions);
    var s := Run(Start(recoveryOnly, database), actions).value;
    assert ThreadOk(s.shared, t, s.threads[t]);
  }

  // A finished restore: success means that the sidecar came up on the
  // requested data.
  lemma RestoreOutcome(recoveryOnly: bool, database: Data, actions: seq<Action>, t: nat)
    requires Run(Start(recoveryOnly, database), actions).Some?
    requires t < |Run(Start(recoveryOnly, database), actions).value.threads|
    requires var th := Run(Start(recoveryOnly, database), actions).value.threads[t];
             th.place.Done? && IsRestore(th.command)
    ensures var th := Run(Start(recoveryOnly, database), actions).value.threads[t];
            && (th.place.response.Success? <==> SucceededWith(th, true))
            && (th.place.response.Success? ==> th.past.resumedOn == Some(th.command.requested))
            && (th.command.Restore? && th.mode.Normal? && th.place.response.Failed? ==>
                  th.place.response.code == RollbackFailed || OriginalInPlace(th))
  {
    RunIsSafe(recoveryOnly, database, actions);
    var s := Run(Start(recoveryOnly, database), actions).value;
    assert ThreadOk(s.shared, t, s.threads[t]);
  }

  // An error leaves the requested data instead of a different original exactly
  // in the branches without a way back, whatever code is reported.
  lemma NewDataExactly(recoveryOnly: bool, database: Data, actions: seq<Action>, t: nat)
    requires Run(Start(recoveryOnly, database), actions).Some?
    requires t < |Run(Start(recoveryOnly, database), actions).value.threads|
    requires var th := Run(Start(recoveryOnly, database), actions).value.threads[t];
             && th.place.Done? && IsRestore(th.command) && th.place.response.Failed?
             && th.past.before != Some(th.command.requested)
    ensures var th := Run(Start(recoveryOnly, database), actions).value.threads[t];
            && (OriginalInPlace(th) <==> !LeavesNewData(th))
            && (LeavesNewData(th) ==> th.place.data == th.command.requested && th.place.response.code == CodeOf(th))
  {
    RunIsSafe(recoveryOnly, database, actions);
    var s := Run(Start(recoveryOnly, database), actions).value;
    assert ThreadOk(s.shared, t, s.threads[t]);
  }

  // A delete reports success only on emptied data with the sidecar left
  // stopped, and brings the sidecar back only on untouched data.
  lemma DeleteOutcome(recoveryOnly: bool, database: Data, actions: seq<Action>, t: nat)
    requires Run(Start(recoveryOnly, database), actions).Some?
    requires t < |Run(Start(recoveryOnly, database), actions).value.threads|
    requires var th := Run(Start(recoveryOnly, database), actions).value.threads[t];
             th.place.Done? && th.command.Delete?
    ensures var th := Run(Start(recoveryOnly, database), actions).value.threads[t];
            && (th.place.response.Success? ==> th.place.data == EMPTIED && th.past.resumedOn.None?)
            && (th.past.resumedOn.Some? ==> OriginalInPlace(th) && th.past.resumedOn == th.past.before)
            && (th.place.response.Failed? && !(th.past.worker.Some? && th.past.worker.value.FailedLater?) ==>
                  OriginalInPlace(th))
  {
    RunIsSafe(recoveryOnly, database, actions);
    var s := Run(Start(recoveryOnly, database), actions).value;
    assert ThreadOk(s.shared, t, s.threads[t]);
  }

  // Whether the application may exit follows what a command leaves behind: yes
  // after a delete whose worker got past validation and when recovery starts,
  // no when recovery ends, and no other step changes it.
  lemma ExitFollowsOutcome(sh: Shared, t: nat, th: Thread, e: Event)
    requires ThreadOk(sh, t, th) && StepEnabled(sh, t, th, e)
    ensures var (sh', th') := StepThread(sh, t, th, e);
            && (th.command.Delete? && th.place.Working? && th'.place.Done? ==> sh'.exitAllowed)
            && (sh'.recoveryOnly && !sh.recoveryOnly ==> sh'.exitAllowed)
            && (!sh'.recoveryOnly && sh.recoveryOnly ==> !sh'.exitAllowed)
            && (sh'.exitAllowed != sh.exitAllowed ==>
                  (th.command.Delete? && th'.place.Done?) || sh'.recoveryOnly != sh.recoveryOnly)
  {
  }

  // ---- new data behind an error ----

  lemma RestoreSucceeds(s: System, t: nat, names: bool)
    requires t < |s.threads| && s.threads[t].place.Working? && IsRestore(s.threads[t].command)
    requires s.threads[t].command.Restore? ==> names
    ensures var th := s.threads[t];
            && Enabled(s, Step(t, Work(Succeeded(names))))
            && var s1 := Apply(s, Step(t, Work(Succeeded(names))));
               && |s1.threads| == |s.threads|
               && s1.threads[t] == th.(
                    place := Restarting(Success, names),
                    past := th.past.(before := Some(s.shared.database), worker := Some(Succeeded(names))))
               && s1.shared.database == th.command.requested && s1.shared.sidecar == s.shared.sidecar
  {
  }

  lemma RestartFails(s: System, t: nat)
    requires t < |s.threads| && s.threads[t].place.Restarting? && IsRestore(s.threads[t].command)
    requires s.threads[t].place.worked.Success? && !s.shared.sidecar
    requires s.threads[t].mode.RecoveryOnly? || !s.threads[t].place.namesSafetyBackup
    ensures var th := s.threads[t];
            var code := if th.mode.RecoveryOnly? then SidecarUnavailable else ProtocolError;
            && Enabled(s, Step(t, Restart(false)))
            && var s1 := Apply(s, Step(t, Restart(false)));
               && |s1.threads| == |s.threads| && s1.shared.database == s.shared.database
               && s1.threads[t] == th.(
                    place := Done(Failed(code), s.shared.database), past := th.past.(restarted := Some(false)))
  {
  }

  // A worker that succeeds before a sidecar that does not start: in recovery,
  // and for a pending restore without a named safety backup, the command
  // reports an error with the new data in place.
  lemma NewDataBehindError(s: System, t: nat)
    requires t < |s.threads| && s.threads[t].place.Working? && !s.shared.sidecar
    requires s.threads[t].command.Resume? || (s.threads[t].command.Restore? && s.threads[t].mode.RecoveryOnly?)
    ensures var th := s.threads[t];
            var result := Run(s, [Step(t, Work(Succeeded(th.command.Restore?))), Step(t, Restart(false))]);
            && result.Some? && result.value.shared.database == th.command.requested
            && |result.value.threads| == |s.threads|
            && result.value.threads[t].command == th.command && result.value.threads[t].mode == th.mode
            && result.value.threads[t].past.before == Some(s.shared.database)
            && result.value.threads[t].place == Done(
                 Failed(if th.mode.RecoveryOnly? then SidecarUnavailable else ProtocolError), th.command.requested)
  {
    var names := s.threads[t].command.Restore?;
    RestoreSucceeds(s, t, names);
    var s1 := Apply(s, Step(t, Work(Succeeded(names))));
    RestartFails(s1, t);
    Runs.Two(Next, s, Step(t, Work(Succeeded(names))), Step(t, Restart(false)));
  }

  // The steps that take a first restore to its worker.
  function ToTheWorker(command: Command, recoveryOnly: bool): seq<Action> {
    [Enter(command), Step(0, Lock), Step(0, Prepare(false))] + if recoveryOnly then [] else [Step(0, Quiesce(true))]
  }

  // What has happened to a command that comes to its worker.
  function OnTheWay(recoveryOnly: bool): History {
    NOTHING_YET.(refused := Some(false), inRecovery := Some(recoveryOnly),
                 quiesced := if recoveryOnly then None else Some(true))
  }

  // The first restore comes to its worker, in either mode.
  lemma ReachesTheWorker(command: Command, recoveryOnly: bool, original: Data)
    requires IsRestore(command)
    ensures var result := Run(Start(recoveryOnly, original), ToTheWorker(command, recoveryOnly));
            && result.Some? && result.value.shared.database == original && !result.value.shared.sidecar
            && result.value.threads
               == [Thread(command, Working, if recoveryOnly then RecoveryOnly else Normal, OnTheWay(recoveryOnly))]
  {
    var s := Start(recoveryOnly, original);
    var enter, lock, prepare, quiesce := Enter(command), Step(0, Lock), Step(0, Prepare(false)), Step(0, Quiesce(true));
    assert Run(s, []) == Some(s);
    Runs.OneMore(Next, s, [], enter);
    var s1 := Apply(s, enter);
    assert [] + [enter] == [enter];
    Runs.OneMore(Next, s, [enter], lock);
    var s2 := Apply(s1, lock);
    assert [enter] + [lock] == [enter, lock];
    assert s2.threads[0].place == Preparing;
    Runs.OneMore(Next, s, [enter, lock], prepare);
    assert [enter, lock] + [prepare] == [enter, lock, prepare];
    var s3 := Apply(s2, prepare);
    if recoveryOnly {
      assert ToTheWorker(command, recoveryOnly) == [enter, lock, prepare];
    } else {
      assert s3.threads[0].place == Quiescing;
      Runs.OneMore(Next, s, [enter, lock, prepare], quiesce);
      assert ToTheWorker(command, recoveryOnly) == [enter, lock, prepare] + [quiesce];
    }
  }

  // ---- which commands keep the original behind every error ----

  // The mode is the recovery flag, read under the lock, and nothing changes it
  // afterwards: neither the mode, nor the flag before the command is done.
  lemma ModeIsTheFlag(sh: Shared, t: nat, th: Thread, e: Event)
    requires StepEnabled(sh, t, th, e) && IsRestore(th.command)
    ensures var (sh', th') := StepThread(sh, t, th, e);
            && (th.place.Preparing? && th.mode.Normal? && !th'.place.Done? ==>
                  (th'.mode.RecoveryOnly? <==> sh.recoveryOnly))
            && (!th.place.Preparing? ==> th'.mode == th.mode)
            && (sh'.recoveryOnly != sh.recoveryOnly ==> th'.place.Done?)
  {
  }

  ghost predicate FinishesWithError(
      recoveryOnly: bool, database: Data, actions: seq<Action>, t: nat, command: Command, mode: Mode) {
    var end := Run(Start(recoveryOnly, database), actions);
    && end.Some? && t < |end.value.threads|
    && end.value.threads[t].command == command && end.value.threads[t].mode == mode
    && end.value.threads[t].place.Done? && end.value.threads[t].place.response.Failed?
    && end.value.threads[t].place.response.code != RollbackFailed
  }

  // Every finished run with an error other than `rollback-failed` has the
  // original in place.
  ghost predicate KeepsTheOriginal(command: Command, mode: Mode) {
    forall recoveryOnly, database, actions, t: nat ::
      FinishesWithError(recoveryOnly, database, actions, t, command, mode) ==>
        OriginalInPlace(Run(Start(recoveryOnly, database), actions).value.threads[t])
  }

  // Known before the call: a restore of a backup in normal mode keeps the
  // original, and a restore in recovery or a pending restore need not.
  lemma OriginalKeptExactly(command: Command, mode: Mode)
    requires IsRestore(command)
    ensures KeepsTheOriginal(command, mode) <==> command.Restore? && mode.Normal?
  {
    if command.Restore? && mode.Normal? {
      forall recoveryOnly, database, actions, t: nat |
        FinishesWithError(recoveryOnly, database, actions, t, command, mode)
        ensures OriginalInPlace(Run(Start(recoveryOnly, database), actions).value.threads[t])
      {
        RestoreOutcome(recoveryOnly, database, actions, t);
      }
    } else {
      var original := command.requested + 1;
      var actions := LosesTheOriginal(command, mode, original);
      assert FinishesWithError(mode.RecoveryOnly?, original, actions, 0, command, mode);
    }
  }

  lemma LosesTheOriginal(command: Command, mode: Mode, original: Data) returns (actions: seq<Action>)
    requires IsRestore(command) && !(command.Restore? && mode.Normal?) && original != command.requested
    ensures FinishesWithError(mode.RecoveryOnly?, original, actions, 0, command, mode)
    ensures !OriginalInPlace(Run(Start(mode.RecoveryOnly?, original), actions).value.threads[0])
  {
    var s, first := Start(mode.RecoveryOnly?, original), ToTheWorker(command, mode.RecoveryOnly?);
    ReachesTheWorker(command, mode.RecoveryOnly?, original);
    var s1 := Run(s, first).value;
    NewDataBehindError(s1, 0);
    var work, restart := Step(0, Work(Succeeded(command.Restore?))), Step(0, Restart(false));
    Runs.Concat(Next, s, first, [work, restart]);
    actions := first + [work, restart];
  }

  // ---- can the slot be filled again? ----

  // Whether somebody may still bring a sidecar up after the slot was emptied:
  // a command past its quiesce, or the next restore when there is no need to
  // quiesce, in recovery.
  predicate Refillable(s: System)
    requires s.shared.lock.Some? ==> s.shared.lock.value < |s.threads|
  {
    if s.shared.lock.None? then s.shared.recoveryOnly
    else
      match s.threads[s.shared.lock.value].place
      case Preparing => s.shared.recoveryOnly
      case Quiescing => s.shared.recoveryOnly
      case MarkingReady => false
      case _ => true
  }

  lemma StaysEmptyStep(s: System, a: Action)
    requires Safe(s) && Enabled(s, a) && !s.shared.sidecar && !Refillable(s)
    requires Safe(Apply(s, a))
    ensures !Apply(s, a).shared.sidecar && !Refillable(Apply(s, a))
  {
    if a.Step? {
      assert ThreadOk(s.shared, a.t, s.threads[a.t]);
    }
  }

  lemma {:induction false} StaysEmpty(s: System, more: seq<Action>)
    requires Safe(s) && !s.shared.sidecar && !Refillable(s) && Run(s, more).Some?
    ensures var s' := Run(s, more).value;
            Safe(s') && !s'.shared.sidecar && !Refillable(s')
  {
    if more != [] {
      var before, a := Run(s, more[..|more| - 1]).value, more[|more| - 1];
      StaysEmpty(s, more[..|more| - 1]);
      StepIsSafe(before, a);
      StaysEmptyStep(before, a);
    }
  }

  lemma FirstStep(s: System, a: Action, more: seq<Action>)
    requires Enabled(s, a) && Run(Apply(s, a), more).Some?
    ensures Run(s, [a] + more) == Run(Apply(s, a), more)
  {
    Runs.OneMore(Next, s, [], a);
    assert [] + [a] == [a];
    Runs.Concat(Next, s, [a], more);
  }

  lemma RestartFills(s: System, t: nat) returns (more: seq<Action>)
    requires t < |s.threads| && !s.shared.sidecar
    requires s.threads[t].place.Restarting? || s.threads[t].place.RestartingAgain?
    ensures Run(s, more).Some? && Run(s, more).value.shared.sidecar
  {
    more := [Step(t, Restart(true))];
    assert Apply(s, more[0]).shared.sidecar;
    FirstStep(s, more[0], []);
    assert more + [] == more;
  }

  // The results after which a command goes on to a restart.
  function GoodResult(th: Thread): WorkerResult {
    if th.place.RollingBack? then Succeeded(true)
    else
      match th.command
      case Delete => FailedValidation(RequestRefused)
      case Probe => DatabaseReady
      case _ => Succeeded(true)
  }

  lemma WorkerFills(s: System, t: nat) returns (more: seq<Action>)
    requires Safe(s) && t < |s.threads| && !s.shared.sidecar && WorkerRuns(s.threads[t].place)
    ensures Run(s, more).Some? && Run(s, more).value.shared.sidecar
  {
    assert ThreadOk(s.shared, t, s.threads[t]);
    var work := Step(t, Work(GoodResult(s.threads[t])));
    var s1 := Apply(s, work);
    assert s1.threads[t].place.Restarting? || s1.threads[t].place.RestartingAgain?;
    var rest := RestartFills(s1, t);
    FirstStep(s, work, rest);
    more := [work] + rest;
  }

  // In recovery the next restore needs no sidecar to stop.
  lemma NextRestoreFills(s: System) returns (more: seq<Action>)
    requires Safe(s) && s.shared.lock.None? && s.shared.recoveryOnly && !s.shared.sidecar
    ensures Run(s, more).Some? && Run(s, more).value.shared.sidecar
  {
    var t := |s.threads|;
    var enter, lock, prepare := Enter(Restore(0)), Step(t, Lock), Step(t, Prepare(false));
    StepIsSafe(s, enter);
    var s1 := Apply(s, enter);
    StepIsSafe(s1, lock);
    var s2 := Apply(s1, lock);
    StepIsSafe(s2, prepare);
    var s3 := Apply(s2, prepare);
    more := WorkerFills(s3, t);
    FirstStep(s2, prepare, more);
    more := [prepare] + more;
    FirstStep(s1, lock, more);
    more := [lock] + more;
    FirstStep(s, enter, more);
    more := [enter] + more;
  }

  // A command that ends in recovery with the slot empty makes way for it.
  lemma EndsThenFills(s: System, a: Action) returns (more: seq<Action>)
    requires Safe(s) && Enabled(s, a)
    requires var s1 := Apply(s, a); s1.shared.lock.None? && s1.shared.recoveryOnly && !s1.shared.sidecar
    ensures Run(s, more).Some? && Run(s, more).value.shared.sidecar
  {
    StepIsSafe(s, a);
    more := NextRestoreFills(Apply(s, a));
    FirstStep(s, a, more);
    more := [a] + more;
  }

  lemma Fills(s: System) returns (more: seq<Action>)
    requires Safe(s) && !s.shared.sidecar && Refillable(s)
    ensures Run(s, more).Some? && Run(s, more).value.shared.sidecar
  {
    if s.shared.lock.None? {
      more := NextRestoreFills(s);
    } else {
      var t := s.shared.lock.value;
      assert ThreadOk(s.shared, t, s.threads[t]);
      match s.threads[t].place
      case Preparing => more := EndsThenFills(s, Step(t, Prepare(true)));
      case Quiescing => more := EndsThenFills(s, Step(t, Quiesce(false)));
      case MarkingRecovery => more := EndsThenFills(s, Step(t, Mark(true, true)));
      case Working => more := WorkerFills(s, t);
      case RollingBack => more := WorkerFills(s, t);
      case _ => more := RestartFills(s, t);
    }
  }

  ghost predicate CanBeFilled(s: System) {
    exists more :: Run(s, more).Some? && Run(s, more).value.shared.sidecar
  }

  // After a closing window has emptied the slot, some continuation fills it
  // again if and only if a command is then past its quiesce or the application
  // is in recovery; otherwise the slot stays empty for good.
  lemma EmptiedForGood(recoveryOnly: bool, database: Data, actions: seq<Action>)
    requires Run(Start(recoveryOnly, database), actions).Some?
    ensures var s := Apply(Run(Start(recoveryOnly, database), actions).value, CleanUp(true));
            && (s.shared.lock.Some? ==> s.shared.lock.value < |s.threads|)
            && (CanBeFilled(s) <==> Refillable(s))
  {
    var before := Run(Start(recoveryOnly, database), actions).value;
    var s := Apply(before, CleanUp(true));
    RunIsSafe(recoveryOnly, database, actions);
    StepIsSafe(before, CleanUp(true));
    if Refillable(s) {
      var more := Fills(s);
    } else {
      forall more | Run(s, more).Some? ensures !Run(s, more).value.shared.sidecar {
        StaysEmpty(s, more);
      }
    }
  }
}
