// The coordinator of close requests. Each method is one critical section of
// the coordinator, so it is also one step of the protocol in CloseProtocol.
module CloseCoordination {
  import opened Results

  const GENERATIONS: nat := 0x1_0000_0000_0000_0000 // generations are 64-bit

  datatype Decision = Save | Discard | Cancel | Clean

  predicate ClosesWindow(decision: Decision) {
    decision != Cancel
  }

  datatype CloseError = ExitAuthorized | AlreadyPending | NothingPending | NoLongerWaiting

  // A pending request, its channel named by a number.
  datatype Pending = Pending(generation: nat, channel: nat, eventDispatched: bool, fallbackAttempted: bool)

  datatype Coordinator = Coordinator(
    pending: Option<Pending>, bridge: Option<string>, nextGeneration: nat, exitAllowed: bool)

  const INITIAL := Coordinator(None, None, 0, false)

  // ---- what each critical section does ----

  function Begin(c: Coordinator, channel: nat): Result<Coordinator, CloseError> {
    if c.exitAllowed then Err(ExitAuthorized)
    else if c.pending.Some? then Err(AlreadyPending)
    else Ok(c.(pending := Some(Pending(c.nextGeneration, channel, false, false)),
               nextGeneration := (c.nextGeneration + 1) % GENERATIONS))
  }

  predicate MayDispatch(c: Coordinator, generation: nat) {
    && c.pending.Some? && c.pending.value.generation == generation
    && c.bridge.Some? && !c.pending.value.eventDispatched
  }

  predicate MayFallBack(c: Coordinator, generation: nat) {
    && c.pending.Some? && c.pending.value.generation == generation
    && !c.pending.value.eventDispatched && !c.pending.value.fallbackAttempted
  }

  function Claim(c: Coordinator, generation: nat): Coordinator {
    if MayDispatch(c, generation) then c.(pending := Some(c.pending.value.(eventDispatched := true))) else c
  }

  function ClaimFallback(c: Coordinator, generation: nat): Coordinator {
    if MayFallBack(c, generation) then c.(pending := Some(c.pending.value.(fallbackAttempted := true))) else c
  }

  // Whether a readiness signal of this bridge dispatches the pending request.
  predicate ReadyDispatches(c: Coordinator, bridge: string) {
    c.bridge != Some(bridge) && c.pending.Some? && !c.pending.value.eventDispatched
  }

  function BridgeReady(c: Coordinator, bridge: string): Coordinator {
    if ReadyDispatches(c, bridge) then
      c.(bridge := Some(bridge),
         pending := Some(c.pending.value.(eventDispatched := true, fallbackAttempted := false)))
    else c.(bridge := Some(bridge))
  }

  function ResetBridge(c: Coordinator): Coordinator {
    c.(bridge := None,
       pending := if c.pending.None? then None
                  else Some(c.pending.value.(eventDispatched := false, fallbackAttempted := false)))
  }

  function BridgeNotReady(c: Coordinator, bridge: string): Coordinator {
    if c.bridge == Some(bridge) then ResetBridge(c) else c
  }

  function Clear(c: Coordinator, generation: nat): Coordinator {
    if c.pending.Some? && c.pending.value.generation == generation then c.(pending := None) else c
  }

  // ---- the coordinator ----

  // One-way channel from whoever decides to the waiting thread.
  class Channel {
    const number: nat
    var queue: seq<Decision>
    var receiverAlive: bool

    constructor (number: nat)
      ensures this.number == number && queue == [] && receiverAlive
    {
      this.number := number;
      queue := [];
      receiverAlive := true;
    }

    method Send(decision: Decision) returns (ok: bool)
      modifies this`queue
      ensures ok == receiverAlive
      ensures queue == if ok then old(queue) + [decision] else old(queue)
    {
      ok := receiverAlive;
      if ok {
        queue := queue + [decision];
      }
    }
  }

  datatype PendingCloseRequest = PendingCloseRequest(
    generation: nat, sender: Channel, eventDispatched: bool, eventDispatchFallbackAttempted: bool)

  class CloseCoordinator {
    var pending: Option<PendingCloseRequest>
    var bridgeGeneration: Option<string>
    var nextGeneration: nat
    var exitAllowed: bool

    function Value(): Coordinator
      reads this
    {
      Coordinator(
        if pending.None? then None
        else
          var p := pending.value;
          Some(Pending(p.generation, p.sender.number, p.eventDispatched, p.eventDispatchFallbackAttempted)),
        bridgeGeneration, nextGeneration, exitAllowed)
    }

    constructor ()
      ensures Value() == INITIAL
    {
      pending := None;
      bridgeGeneration := None;
      nextGeneration := 0;
      exitAllowed := false;
    }

    method BeginRequest(channel: nat) returns (r: Result<(nat, Channel), CloseError>)
      modifies this
      ensures match Begin(old(Value()), channel)
              case Err(error) => r == Err(error) && Value() == old(Value())
              case Ok(after) =>
                && r.Ok? && Value() == after && r.value.0 == old(nextGeneration)
                && r.value.1.number == channel && fresh(r.value.1) && r.value.1.queue == [] && r.value.1.receiverAlive
    {
      if exitAllowed {
        return Err(ExitAuthorized);
      }
      if pending.Some? {
        return Err(AlreadyPending);
      }
      var receiver := new Channel(channel);
      var generation := nextGeneration;
      nextGeneration := (nextGeneration + 1) % GENERATIONS;
      pending := Some(PendingCloseRequest(generation, receiver, false, false));
      r := Ok((generation, receiver));
    }

    method ClaimCloseEventDispatch(generation: nat) returns (claimed: bool)
      modifies this
      ensures claimed <==> MayDispatch(old(Value()), generation)
      ensures Value() == Claim(old(Value()), generation)
    {
      if pending.None? {
        return false;
      }
      var request := pending.value;
      if request.generation != generation || bridgeGeneration.None? || request.eventDispatched {
        return false;
      }
      pending := Some(request.(eventDispatched := true));
      claimed := true;
    }

    method ClaimCloseEventDispatchFallback(generation: nat) returns (claimed: bool)
      modifies this
      ensures claimed <==> MayFallBack(old(Value()), generation)
      ensures Value() == ClaimFallback(old(Value()), generation)
    {
      if pending.None? {
        return false;
      }
      var request := pending.value;
      if request.generation != generation || request.eventDispatched || request.eventDispatchFallbackAttempted {
        return false;
      }
      pending := Some(request.(eventDispatchFallbackAttempted := true));
      claimed := true;
    }

    method SignalReady(bridge: string) returns (dispatch: Option<nat>)
      modifies this
      ensures dispatch ==
              if ReadyDispatches(old(Value()), bridge) then Some(old(Value()).pending.value.generation) else None
      ensures Value() == BridgeReady(old(Value()), bridge)
    {
      if bridgeGeneration == Some(bridge) {
        return None;
      }
      bridgeGeneration := Some(bridge);
      if pending.None? {
        return None;
      }
      var request := pending.value;
      if request.eventDispatched {
        return None;
      }
      pending := Some(request.(eventDispatched := true, eventDispatchFallbackAttempted := false));
      dispatch := Some(request.generation);
    }

    method SignalNotReady(bridge: string)
      modifies this
      ensures Value() == BridgeNotReady(old(Value()), bridge)
    {
      if bridgeGeneration == Some(bridge) {
        DropBridge();
      }
    }

    method DropBridge()
      modifies this
      ensures Value() == ResetBridge(old(Value()))
    {
      bridgeGeneration := None;
      if pending.Some? {
        pending := Some(pending.value.(eventDispatched := false, eventDispatchFallbackAttempted := false));
      }
    }

    // Takes the request out and sends to its channel. The lock is released in
    // between; CloseProtocol has the two halves as separate steps.
    method Resolve(decision: Decision) returns (r: Result<nat, CloseError>)
      modifies this`pending, if pending.Some? then {pending.value.sender} else {}
      ensures Value() == old(Value()).(pending := None)
      ensures old(pending).None? ==> r == Err(NothingPending)
      ensures old(pending).Some? ==>
        var sender := old(pending).value.sender;
        && r == (if old(sender.receiverAlive) then Ok(old(pending).value.generation) else Err(NoLongerWaiting))
        && sender.queue == old(sender.queue) + if old(sender.receiverAlive) then [decision] else []
    {
      var request := pending;
      pending := None;
      if request.None? {
        return Err(NothingPending);
      }
      var sent := request.value.sender.Send(decision);
      r := if sent then Ok(request.value.generation) else Err(NoLongerWaiting);
    }

    method ClearRequest(generation: nat)
      modifies this
      ensures Value() == Clear(old(Value()), generation)
    {
      if pending.Some? && pending.value.generation == generation {
        pending := None;
      }
    }

    method SetExitAllowed(allowed: bool)
      modifies this
      ensures Value() == old(Value()).(exitAllowed := allowed)
    {
      exitAllowed := allowed;
    }
  }
}
