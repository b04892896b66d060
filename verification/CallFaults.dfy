/** When a call tree ends in an internal error: only where its code or a hook has one. */
module CallFaults {
  import opened Options
  import opened ResourceCounters
  import opened CallSemantics
  import opened CallProperties
  import opened CallSupply

  /** Value is sent only where the request's modifier allows it. */
  predicate SoundRequest(req: Request) {
    req.value == 0 || IsDelegate(req.modifier) || TransferAllowed(req.modifier)
  }

  predicate SoundHook(hook: Hook) { hook.HookFault? ==> !hook.internal }

  /** No internal error in the code of a frame, or in the hooks and the code it calls. */
  predicate Sound(body: Body) {
    match body
    case Fault(internal) => !internal
    case Compute(_, _, _, next) => Sound(next)
    case Invoke(_, req, hook, callee, ok, bad) =>
      SoundRequest(req) && SoundHook(hook) && Sound(callee) && Sound(ok) && Sound(bad)
    case _ => true
  }

  /** The supply fits a balance. */
  ghost predicate Bound(w: World) { Sum(w.balance) < w.limit }

  ghost predicate NoInternal(o: Outcome) { o.Fatal? ==> !o.internal }

  /** After the checks a transfer cannot lack balance, nor overflow one. */
  lemma TransferSound(w: World, depth: nat, caller: Environment, req: Request, callee: Callee, r: Resources)
    requires req.caller < |w.balance| && req.callee < |w.balance| && |w.nonce| == |w.balance| && SoundRequest(req)
    requires Bound(w)
    requires PreCheck(w, depth, req, callee, r).Passed?
    ensures var c := PreCheck(w, depth, req, callee, r);
      var t := Transfer(c.world, caller, req, c.resources);
      !t.Refused? && (t.CheckFatal? ==> !t.internal)
  {
    ChecksKeep(w, depth, req, callee, r);
    if req.callee != req.caller { PairBelowTotal(w.balance, req.caller, req.callee); }
  }

  /** A withdrawal burns what the transfer has just brought. */
  lemma WithdrawalCovered(w: World, caller: Environment, req: Request, r: Resources)
    requires req.caller < |w.balance| && req.callee < |w.balance| && req.modifier.NoModifier?
    ensures var t := Transfer(w, caller, req, r); t.Passed? ==> req.value <= t.world.balance[req.callee]
  {}

  lemma EndSound(w: World, req: Request, body: Body, r: Resources, n: nat)
    requires (body.Finish? || body.Throw? || body.Destruct?) && Within(body, n) && Sized(w, n) && req.caller < n
    requires req.callee < n && Bound(w)
    ensures var c := End(w, req, body, r); c.CheckFatal? ==> !c.internal
  {
    if body.Destruct? && body.beneficiary != Self(req) { PairBelowTotal(w.balance, Self(req), body.beneficiary); }
  }

  /** A sound tree never ends in an internal error, whatever it is given: it completes or runs out of native or memory. */
  lemma {:induction false} HandleSound(hooked: set<Addr>, entry: bool, caller: Environment, depth: nat, req: Request,
                                       hook: Hook, body: Body, w: World, r: Resources, n: nat)
    requires Sized(w, n) && Addressed(req, hook, n) && Within(body, n)
    requires SoundRequest(req) && SoundHook(hook) && Sound(body) && Bound(w)
    requires (req.modifier.Constructor? ==> caller.EVM?)
    ensures NoInternal(Handle(hooked, entry, caller, depth, req, hook, body, w, r, n))
    decreases body, 3
  {
    var callee := CalleeOf(w, req.callee);
    match Prepare(entry, req, callee, r)
    case Prepared(kept, given) =>
      ExecuteSound(hooked, caller, depth, req, callee, hook, body, w, given, n);
    case _ =>
  }

  lemma {:induction false} ExecuteSound(hooked: set<Addr>, caller: Environment, depth: nat, req: Request,
                                        callee: Callee, hook: Hook, body: Body, w: World, r: Resources, n: nat)
    requires Sized(w, n) && Addressed(req, hook, n) && Within(body, n)
    requires SoundRequest(req) && SoundHook(hook) && Sound(body) && Bound(w)
    requires (req.modifier.Constructor? ==> caller.EVM?)
    ensures NoInternal(Execute(hooked, caller, depth, req, callee, hook, body, w, r, n))
    decreases body, 2
  {
    var c := PreCheck(w, depth, req, callee, r);
    ChecksKeep(w, depth, req, callee, r);
    if c.Passed? {
      TransferSound(w, depth, caller, req, callee, r);
      var t := Transfer(c.world, caller, req, c.resources);
      TransferConserves(c.world, caller, req, c.resources);
      if req.modifier.NoModifier? { WithdrawalCovered(c.world, caller, req, c.resources); }
      if t.Passed? { EnterSound(hooked, caller, depth, req, callee, hook, body, c.world, t.world, t.resources, n); }
    }
  }

  lemma {:induction false} EnterSound(hooked: set<Addr>, caller: Environment, depth: nat, req: Request, callee: Callee,
                                      hook: Hook, body: Body, before: World, w: World, r: Resources, n: nat)
    requires Sized(before, n) && Sized(w, n) && Addressed(req, hook, n) && Within(body, n)
    requires SoundHook(hook) && Sound(body) && Bound(w) && (req.modifier.Constructor? ==> caller.EVM?)
    requires req.modifier.NoModifier? ==> req.value <= w.balance[req.callee]
    ensures NoInternal(Enter(hooked, caller, depth, req, callee, hook, body, before, w, r, n))
    decreases body, 1
  {
    if req.callee !in hooked {
      var s := Start(w, req, r);
      if s.Passed? { FrameSound(hooked, depth, req, body, s.world, s.resources, n); }
    }
  }

  lemma {:induction false} FrameSound(hooked: set<Addr>, depth: nat, req: Request, body: Body, w: World, r: Resources,
                                      n: nat)
    requires Sized(w, n) && req.caller < n && req.callee < n && Within(body, n) && Sound(body) && Bound(w)
    ensures NoInternal(Frame(hooked, depth, req, body, w, r, n))
    decreases body, 0
  {
    if !body.Fault? && StepCost(r, body.cost).1.Paid? {
      var r1 := StepCost(r, body.cost).0;
      match body
      case Compute(_, slot, word, next) =>
        FrameSound(hooked, depth, req, next, Store(w, Self(req), slot, word), r1, n);
      case Invoke(_, request, hook, callee, ok, bad) =>
        HandleSound(hooked, false, EVM, depth + 1, request, hook, callee, w, r1, n);
        HandleConserves(hooked, false, EVM, depth + 1, request, hook, callee, w, r1, n);
        var o := Handle(hooked, false, EVM, depth + 1, request, hook, callee, w, r1, n);
        if o.Done? && !o.result.PreparationStepFailed? {
          FrameSound(hooked, depth, req, if o.result.Successful? then ok else bad, o.world, o.resources, n);
        }
      case _ => EndSound(w, req, body, r1, n);
    }
  }

  /** A hook with an internal error ends the transaction with it, as soon as the call gets there. */
  lemma FaultyHook(hooked: set<Addr>, caller: Environment, req: Request, body: Body, w: World, r: Resources, n: nat)
    requires Sized(w, n) && req.caller < n && req.callee < n && Within(body, n) && req.callee in hooked
    requires req.modifier.NoModifier? && req.value == 0
    ensures var o := Handle(hooked, true, caller, 0, req, HookFault(true), body, w, r, n);
      o.Fatal? && (o.internal <==> req.costs.read.native <= r.native)
  {
    HandleAtTop(hooked, caller, req, HookFault(true), body, w, r, n);
  }
}
