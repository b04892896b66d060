/** The runner: one mutable world, snapshots addressed by handle, and a call stack that recurses. */
module CallMachine {
  import opened Options
  import opened ResourceCounters
  import opened CallSemantics
  import opened CallProperties
  import opened CallSupply
  import opened CallFaults
  import CallJournal

  class System {
    var world: World
    var saved: seq<World>

    constructor (w: World)
      ensures world == w && saved == []
    {
      world := w;
      saved := [];
    }

    /** `start_global_frame` */
    method StartFrame() returns (handle: nat)
      modifies this`saved
      ensures saved == old(saved) + [world] && handle == |old(saved)|
    {
      handle := |saved|;
      saved := saved + [world];
    }

    /** `finish_global_frame`: with a handle, back to the snapshot, whatever frames are still open. */
    method FinishFrame(rollback: Option<nat>)
      requires rollback.Some? ==> rollback.value < |saved|
      modifies this`world
      ensures world == if rollback.Some? then saved[rollback.value] else old(world)
    {
      if rollback.Some? { world := saved[rollback.value]; }
    }

    /** `finish_valid_tx`: accounts are cleared one after another, and the total supply is kept. */
    method FinishValidTx()
      modifies this`world
      ensures world == FinishTx(old(world)) && Conserves(old(world), world, false)
    {
      FinishConserves(world);
      world := FinishTx(world);
    }
  }

  /** An error unwinds every frame of the transaction: an internal one, or exhausted native or memory. */
  datatype Reply = Error(internal: bool) | Completed(resources: Resources, result: CallResult)

  /** A preemption point: the end of the frame, or resources and code to go on with. */
  datatype Progress = Ended(reply: Reply) | Onward(resources: Resources, next: Body)

  /** What a call replied and left behind is what its semantics say. */
  ghost predicate Agrees(reply: Reply, world: World, o: Outcome) {
    match o
    case Fatal(internal, _, _) => reply == Error(internal)
    case Done(w, r, result, _, _) => reply == Completed(r, result) && world == w
  }

  class Context {
    const system: System
    const hooked: set<Addr>
    var callstackHeight: nat
    ghost var steps: nat

    constructor (system: System, hooked: set<Addr>)
      ensures this.system == system && this.hooked == hooked && callstackHeight == 0 && steps == 0
    {
      this.system := system;
      this.hooked := hooked;
      callstackHeight := 0;
      steps := 0;
    }

    /** `handle_requested_external_call` */
    method HandleRequestedExternalCall(entry: bool, caller: Environment, req: Request, r: Resources, hook: Hook,
                                       body: Body, ghost n: nat)
      returns (reply: Reply)
      requires Sized(system.world, n) && Addressed(req, hook, n) && Within(body, n)
      modifies this, system
      ensures var o := Handle(hooked, entry, caller, old(callstackHeight), req, hook, body, old(system.world), r, n);
        Agrees(reply, system.world, o) && steps == old(steps) + o.steps
      ensures old(system.saved) <= system.saved && (reply.Completed? ==> callstackHeight == old(callstackHeight))
      decreases body, 5
    {
      var callee := CalleeOf(system.world, req.callee);
      match Prepare(entry, req, callee, r)
      case PrepFatal => reply := Error(false);
      case PrepOutOfErgs(left) => reply := Completed(left, PreparationStepFailed);
      case Prepared(kept, given) =>
        reply := ExecuteCall(caller, req, callee, given, hook, body, n);
        if reply.Completed? {
          reply := Completed(Resources(kept.ergs + reply.resources.ergs, kept.native + reply.resources.native),
                             reply.result);
        }
    }

    /** `execute_call` */
    method ExecuteCall(caller: Environment, req: Request, callee: Callee, r: Resources, hook: Hook, body: Body,
                       ghost n: nat)
      returns (reply: Reply)
      requires Sized(system.world, n) && Addressed(req, hook, n) && Within(body, n)
      modifies this, system
      ensures var o := Execute(hooked, caller, old(callstackHeight), req, callee, hook, body, old(system.world), r, n);
        Agrees(reply, system.world, o) && steps == old(steps) + o.steps
      ensures old(system.saved) <= system.saved && (reply.Completed? ==> callstackHeight == old(callstackHeight))
      decreases body, 4
    {
      var check := PreCheck(system.world, callstackHeight, req, callee, r);
      if check.CheckFatal? { return Error(check.internal); }
      system.world := check.world;
      if check.Refused? { return Completed(check.resources, Failed); }
      reply := AttemptCall(caller, req, callee, check.resources, hook, body, n);
    }

    /** The part of `execute_call` under its snapshot. */
    method AttemptCall(caller: Environment, req: Request, callee: Callee, r: Resources, hook: Hook, body: Body,
                       ghost n: nat)
      returns (reply: Reply)
      requires Sized(system.world, n) && Addressed(req, hook, n) && Within(body, n)
      modifies this, system
      ensures var o := Attempt(hooked, caller, old(callstackHeight), req, callee, hook, body, old(system.world), r, n);
        Agrees(reply, system.world, o) && steps == old(steps) + o.steps
      ensures old(system.saved) <= system.saved && (reply.Completed? ==> callstackHeight == old(callstackHeight))
      decreases body, 3
    {
      var handle := system.StartFrame();
      var moved := Transfer(system.world, caller, req, r);
      if moved.CheckFatal? { return Error(moved.internal); }
      system.world := moved.world;
      if moved.Refused? {
        system.FinishFrame(Some(handle));
        return Completed(moved.resources, Failed);
      }
      if req.callee in hooked {
        reply := CallToSpecialAddress(req, moved.resources, hook, handle);
      } else {
        var next := if req.modifier.Constructor? then caller else if callee.codeLen == 0 then NoEE else EVM;
        reply := CallExecuteCalleeFrame(next, req, callee, moved.resources, body, handle, caller, hook, n);
      }
    }

    /** `call_to_special_address_execute_callee_frame` */
    method CallToSpecialAddress(req: Request, r: Resources, hook: Hook, handle: nat) returns (reply: Reply)
      requires handle < |system.saved| && |system.world.balance| == |system.world.codeLen|
      requires Addressed(req, hook, |system.world.balance|)
      modifies system`world
      ensures Agrees(reply, system.world, CallHook(req, hook, system.saved[handle], old(system.world), r))
    {
      if req.modifier.Constructor? {
        system.FinishFrame(Some(handle));
        return Completed(r, Failed);
      }
      match hook
      case HookFault(internal) => return Error(internal);
      case NotIntercepted =>
        system.FinishFrame(None);
        return Completed(r, Successful);
      case Intercepted(cost, effect, failed) =>
        var (r1, c) := Charged(r, cost);
        if c.OutOfNative? { return Error(false); }
        if c.OutOfErgs? || failed || (effect.Withdraw? && !req.modifier.NoModifier?) {
          system.FinishFrame(Some(handle));
          return Completed(r1, Failed);
        }
        var done := Affect(system.world, req, effect);
        if done.None? { return Error(true); }
        system.world := done.value;
        system.FinishFrame(None);
        return Completed(r1, Successful);
    }

    /** `call_execute_callee_frame`: an empty account succeeds and leaves its frame open. */
    method CallExecuteCalleeFrame(next: Environment, req: Request, callee: Callee, r: Resources, body: Body,
                                  handle: nat, ghost caller: Environment, ghost hook: Hook, ghost n: nat)
      returns (reply: Reply)
      requires Sized(system.world, n) && Addressed(req, hook, n) && Within(body, n) && req.callee !in hooked
      requires handle < |system.saved| && Sized(system.saved[handle], n)
      requires next == if req.modifier.Constructor? then caller else if callee.codeLen == 0 then NoEE else EVM
      modifies this, system
      ensures var o := Enter(hooked, caller, old(callstackHeight), req, callee, hook, body, old(system.saved[handle]),
                             old(system.world), r, n);
        Agrees(reply, system.world, o) && steps == old(steps) + o.steps
      ensures old(system.saved) <= system.saved && (reply.Completed? ==> callstackHeight == old(callstackHeight))
      decreases body, 2
    {
      if next.NoEE? {
        if req.modifier.Constructor? { return Error(true); }
        return Completed(r, Successful);
      }
      var started := Start(system.world, req, r);
      if started.CheckFatal? { return Error(false); }
      system.world := started.world;
      reply := RunFrame(req, started.resources, body, n);
      if reply.Completed? {
        system.FinishFrame(if reply.result.Failed? then Some(handle) else None);
      }
    }

    /** Runs to the next preemption point: the frame's end, a paid step, or a call served one level deeper. */
    method Advance(req: Request, r: Resources, current: Body, ghost n: nat) returns (p: Progress)
      requires Sized(system.world, n) && req.caller < n && req.callee < n && Within(current, n)
      modifies this, system
      ensures old(system.saved) <= system.saved && old(steps) <= steps
      ensures var o := Frame(hooked, old(callstackHeight), req, current, old(system.world), r, n);
        match p
        case Ended(reply) =>
          && Agrees(reply, system.world, o) && steps == old(steps) + o.steps
          && (reply.Completed? ==> callstackHeight == old(callstackHeight))
        case Onward(r', next) =>
          && Sized(system.world, n) && Within(next, n) && next < current && callstackHeight == old(callstackHeight)
          && Remains(o, Frame(hooked, callstackHeight, req, next, system.world, r', n), steps - old(steps))
      decreases current, 0
    {
      if current.Fault? { return Ended(Error(current.internal)); }
      var (r1, c, paid) := StepCost(r, current.cost);
      steps := steps + paid;
      if c.OutOfNative? { return Ended(Error(false)); }
      if c.OutOfErgs? { return Ended(Completed(r1.(ergs := 0), Failed)); }
      if current.Compute? {
        system.world := Store(system.world, Self(req), current.slot, current.word);
        return Onward(r1, current.next);
      } else if current.Invoke? {
        var inner := CallDeeper(current.request, r1, current.hook, current.callee, n);
        if inner.Error? { return Ended(inner); }
        if inner.result.PreparationStepFailed? { return Ended(Completed(inner.resources.(ergs := 0), Failed)); }
        return Onward(inner.resources, if inner.result.Successful? then current.ok else current.bad);
      } else {
        var closed := End(system.world, req, current, r1);
        if closed.CheckFatal? { return Ended(Error(closed.internal)); }
        system.world := closed.world;
        return Ended(Completed(closed.resources, if closed.Passed? then Successful else Failed));
      }
    }

    /** A call request from a running frame, one level deeper. */
    method CallDeeper(request: Request, r: Resources, hook: Hook, callee: Body, ghost n: nat) returns (reply: Reply)
      requires Sized(system.world, n) && Addressed(request, hook, n) && Within(callee, n)
      modifies this, system
      ensures var o := Handle(hooked, false, EVM, old(callstackHeight) + 1, request, hook, callee, old(system.world), r,
                              n);
        Agrees(reply, system.world, o) && steps == old(steps) + o.steps
      ensures old(system.saved) <= system.saved && (reply.Completed? ==> callstackHeight == old(callstackHeight))
      decreases callee, 6
    {
      callstackHeight := callstackHeight + 1;
      reply := HandleRequestedExternalCall(false, EVM, request, r, hook, callee, n);
      if reply.Completed? { callstackHeight := callstackHeight - 1; }
    }

    /** The preemption loop: serve one preemption point after another until the frame ends. */
    method RunFrame(req: Request, r0: Resources, body: Body, ghost n: nat) returns (reply: Reply)
      requires Sized(system.world, n) && req.caller < n && req.callee < n && Within(body, n)
      modifies this, system
      ensures var o := Frame(hooked, old(callstackHeight), req, body, old(system.world), r0, n);
        Agrees(reply, system.world, o) && steps == old(steps) + o.steps
      ensures old(system.saved) <= system.saved && (reply.Completed? ==> callstackHeight == old(callstackHeight))
      decreases body, 1
    {
      var r, current := r0, body;
      ghost var whole := Frame(hooked, callstackHeight, req, body, system.world, r0, n);
      while true
        invariant Sized(system.world, n) && Within(current, n) && callstackHeight == old(callstackHeight)
        invariant current == body || current < body
        invariant old(system.saved) <= system.saved && old(steps) <= steps
        invariant Remains(whole, Frame(hooked, callstackHeight, req, current, system.world, r, n), steps - old(steps))
        decreases current
      {
        var p := Advance(req, r, current, n);
        match p
        case Ended(end) => return end;
        case Onward(r', next) => r, current := r', next;
      }
    }
  }

  /** The rest of the frame ends as the whole does, `done` steps later. */
  ghost predicate Remains(whole: Outcome, rest: Outcome, done: nat) {
    && whole.steps == done + rest.steps && (whole.Fatal? <==> rest.Fatal?)
    && (whole.Fatal? ==> whole.internal == rest.internal)
    && (whole.Done? ==> whole.world == rest.world && whole.resources == rest.resources && whole.result == rest.result)
  }

  /** The reply is what the journal says, and a successful call leaves the world its committed events make. */
  ghost predicate Committed(reply: Reply, w: World, w': World, j: CallJournal.Journal) {
    match j
    case Cut(internal, _, _) => reply == Error(internal)
    case Closed(events, left, result, _, _) =>
      reply == Completed(left, result) && (result.Successful? ==> CallJournal.Makes(w, events, w'))
  }

  /** A root call under its own snapshot: exhaustion anywhere restores it, an internal error is passed on. */
  method RunRootCall(system: System, hooked: set<Addr>, caller: Environment, req: Request, r: Resources, hook: Hook,
                     body: Body, ghost n: nat)
    returns (reply: Reply, ghost steps: nat)
    requires Sized(system.world, n) && Addressed(req, hook, n) && Within(body, n)
    modifies system
    ensures old(system.saved) <= system.saved
    ensures var o := Handle(hooked, true, caller, 0, req, hook, body, old(system.world), r, n);
      && steps == o.steps && reply == (if o.Fatal? then Error(o.internal) else Completed(o.resources, o.result))
      && (NoInternal(o) ==> system.world == if o.Done? && o.result.Successful? then o.world else old(system.world))
    ensures Committed(reply, old(system.world), system.world,
                      CallJournal.Call(hooked, true, caller, 0, req, hook, body, old(system.world), r, n))
  {
    CallJournal.CallAgrees(hooked, true, caller, 0, req, hook, body, system.world, r, n);
    var handle := system.StartFrame();
    var context := new Context(system, hooked);
    reply := context.HandleRequestedExternalCall(true, caller, req, r, hook, body, n);
    steps := context.steps;
    if reply.Error? {
      if !reply.internal { system.FinishFrame(Some(handle)); }
    } else {
      system.FinishFrame(if reply.result.Successful? then None else Some(handle));
    }
  }

  /** A transaction's root call: what it leaves behind accounts for every token, and a sound tree has no internal error. */
  method RunTransaction(system: System, hooked: set<Addr>, caller: Environment, req: Request, r: Resources, hook: Hook,
                        body: Body, ghost n: nat)
    returns (reply: Reply, ghost steps: nat)
    requires Sized(system.world, n) && Addressed(req, hook, n) && Within(body, n)
    modifies system
    ensures old(system.saved) <= system.saved && STEP * steps <= r.native
    ensures var o := Handle(hooked, true, caller, 0, req, hook, body, old(system.world), r, n);
      && steps == o.steps && o.deepest <= MAX_DEPTH
      && reply == (if o.Fatal? then Error(o.internal) else Completed(o.resources, o.result))
      && (NoInternal(o) ==> system.world == if o.Done? && o.result.Successful? then o.world else old(system.world))
    ensures reply.Completed? ==> reply.resources.ergs <= r.ergs
    ensures reply != Error(true) ==> Sized(system.world, n)
    ensures reply != Error(true) ==>
      Conserves(old(system.world), system.world, HookBurnFree(req, hook) && BurnFree(body, Self(req)))
    ensures reply.Error? && !reply.internal ==> system.world == old(system.world)
    ensures reply.Completed? && !reply.result.Successful? ==> system.world == old(system.world)
    ensures SoundRoot(caller, req, hook, body) && Bound(old(system.world)) ==> reply != Error(true)
    ensures Committed(reply, old(system.world), system.world,
                      CallJournal.Call(hooked, true, caller, 0, req, hook, body, old(system.world), r, n))
  {
    HandleBounded(hooked, true, caller, 0, req, hook, body, system.world, r, n);
    HandleConserves(hooked, true, caller, 0, req, hook, body, system.world, r, n);
    if SoundRoot(caller, req, hook, body) && Bound(system.world) {
      HandleSound(hooked, true, caller, 0, req, hook, body, system.world, r, n);
    }
    reply, steps := RunRootCall(system, hooked, caller, req, r, hook, body, n);
  }

  /** A root call without internal errors: no constructor without an environment, no faults in the tree. */
  predicate SoundRoot(caller: Environment, req: Request, hook: Hook, body: Body) {
    SoundRequest(req) && SoundHook(hook) && Sound(body) && (req.modifier.Constructor? ==> caller.EVM?)
  }
}
