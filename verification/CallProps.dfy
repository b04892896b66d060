/** What holds of every call tree. */
module CallProperties {
  import opened Options
  import opened ResourceCounters
  import opened CallSemantics

  //// Rollback

  /** The world after the checks that a failing call does not undo: at most the creator's nonce moved. */
  ghost function AfterChecks(w: World, depth: nat, req: Request): (w': World)
    requires req.caller < |w.balance| && req.caller < |w.nonce|
  {
    if req.modifier.Constructor? && 0 < depth <= MAX_DEPTH
       && req.value <= w.balance[req.caller] && w.nonce[req.caller] < U64_MAX
    then w.(nonce := w.nonce[req.caller := w.nonce[req.caller] + 1])
    else w
  }

  lemma ChecksKeep(w: World, depth: nat, req: Request, callee: Callee, r: Resources)
    requires req.caller < |w.balance| && req.caller < |w.nonce|
    ensures var c := PreCheck(w, depth, req, callee, r);
      && (c.Passed? ==> c.world == AfterChecks(w, depth, req))
      && (c.Refused? ==> c.world == AfterChecks(w, depth, req))
  {}

  lemma {:induction false} EnterFails(hooked: set<Addr>, caller: Environment, depth: nat, req: Request, callee: Callee,
                                      hook: Hook, body: Body, before: World, w: World, r: Resources, n: nat)
    requires Sized(before, n) && Sized(w, n) && Addressed(req, hook, n) && Within(body, n)
    ensures var o := Enter(hooked, caller, depth, req, callee, hook, body, before, w, r, n);
      o.Done? ==> (o.result.Failed? && o.world == before) || o.result.Successful?
  {}

  lemma {:induction false} ExecuteFails(hooked: set<Addr>, caller: Environment, depth: nat, req: Request,
                                        callee: Callee, hook: Hook, body: Body, w: World, r: Resources, n: nat)
    requires Sized(w, n) && Addressed(req, hook, n) && Within(body, n)
    ensures var o := Execute(hooked, caller, depth, req, callee, hook, body, w, r, n);
      o.Done? ==> (o.result.Failed? && o.world == AfterChecks(w, depth, req)) || o.result.Successful?
  {
    ChecksKeep(w, depth, req, callee, r);
    var c := PreCheck(w, depth, req, callee, r);
    if c.Passed? {
      var t := Transfer(c.world, caller, req, c.resources);
      if t.Passed? { EnterFails(hooked, caller, depth, req, callee, hook, body, c.world, t.world, t.resources, n); }
    }
  }

  /** A failed call leaves the world as its checks left it, whatever the callee and its callees did; a call that
      was never prepared leaves it untouched. */
  lemma {:induction false} FailureRollsBack(hooked: set<Addr>, entry: bool, caller: Environment, depth: nat,
                                            req: Request, hook: Hook, body: Body, w: World, r: Resources, n: nat)
    requires Sized(w, n) && Addressed(req, hook, n) && Within(body, n)
    ensures var o := Handle(hooked, entry, caller, depth, req, hook, body, w, r, n);
      && (o.Done? && o.result.Failed? ==> o.world == AfterChecks(w, depth, req))
      && (o.Done? && o.result.PreparationStepFailed? ==> o.world == w)
  {
    var callee := CalleeOf(w, req.callee);
    match Prepare(entry, req, callee, r)
    case Prepared(kept, given) => ExecuteFails(hooked, caller, depth, req, callee, hook, body, w, given, n);
    case _ =>
  }

  /** The native a plain call at top level pays after its callee is read, before it gets there. */
  function Upfront(req: Request): (n: nat) { if req.value == 0 then 0 else req.costs.balance + req.costs.transfer }

  /** Such a call gets there if it can pay, has the value, and the callee can hold it. */
  predicate Reaches(req: Request, w: World, native: nat)
    requires req.caller < |w.balance| && req.callee < |w.balance|
  {
    && Upfront(req) <= native && req.value <= w.balance[req.caller]
    && (req.caller == req.callee || req.value == 0 || w.balance[req.callee] + req.value < w.limit)
  }

  /** The world after the value has moved. */
  function Sent(w: World, req: Request): (w': World)
    requires req.caller < |w.balance| && req.callee < |w.balance| && req.value <= w.balance[req.caller]
    ensures |w'.balance| == |w.balance| && w'.nonce == w.nonce && w'.codeLen == w.codeLen && w'.burned == w.burned
    ensures w'.limit == w.limit
    ensures req.value == 0 ==> w' == w
    ensures w'.balance[req.callee] >= req.value
  {
    var w' := w.(balance := Move(w.balance, req.caller, req.callee, req.value));
    assert req.value == 0 ==> w'.balance == w.balance;
    w'
  }

  ghost predicate Missed(o: Outcome, w: World, req: Request) {
    (o.Done? && o.result.Failed? && o.world == w) || (o.Fatal? && (req.value == 0 ==> !o.internal))
  }

  /** The checks and the transfer of such a call. */
  lemma {:induction false} PathToTop(caller: Environment, req: Request, callee: Callee, w: World, r: Resources)
    requires |w.balance| == |w.nonce| && req.caller < |w.balance| && req.callee < |w.balance|
    requires req.modifier.NoModifier?
    ensures var c := PreCheck(w, 0, req, callee, r);
      && (c.CheckFatal? ==> !c.internal) && (!c.CheckFatal? ==> c.world == w)
      && (Reaches(req, w, r.native) ==> c.Passed?)
      && (c.Passed? ==> req.value <= w.balance[req.caller])
      && (c.Passed? ==>
            var t := Transfer(w, caller, req, c.resources);
            if Reaches(req, w, r.native) then t == Passed(Sent(w, req), r.(native := r.native - Upfront(req)))
            else !t.Passed? && (t.CheckFatal? && req.value == 0 ==> !t.internal))
  {}

  /** Past the transfer, such a call is the hook's. */
  lemma {:induction false} ExecuteIsHook(hooked: set<Addr>, caller: Environment, req: Request, callee: Callee,
                                         hook: Hook, body: Body, w: World, r: Resources, r1: Resources, w2: World,
                                         r2: Resources, n: nat)
    requires Sized(w, n) && Sized(w2, n) && Addressed(req, hook, n) && Within(body, n) && req.callee in hooked
    requires PreCheck(w, 0, req, callee, r) == Passed(w, r1) && Transfer(w, caller, req, r1) == Passed(w2, r2)
    ensures Execute(hooked, caller, 0, req, callee, hook, body, w, r, n) == CallHook(req, hook, w, w2, r2)
  {
    var o := Attempt(hooked, caller, 0, req, callee, hook, body, w, r1, n);
    assert Execute(hooked, caller, 0, req, callee, hook, body, w, r, n) == o;
    assert o == Enter(hooked, caller, 0, req, callee, hook, body, w, w2, r2, n);
  }

  lemma {:induction false} ExecuteAtTop(hooked: set<Addr>, caller: Environment, req: Request, callee: Callee,
                                        hook: Hook, body: Body, w: World, r: Resources, n: nat)
    requires Sized(w, n) && Addressed(req, hook, n) && Within(body, n) && req.callee in hooked
    requires req.modifier.NoModifier?
    ensures var o := Execute(hooked, caller, 0, req, callee, hook, body, w, r, n);
      if Reaches(req, w, r.native) then o == CallHook(req, hook, w, Sent(w, req), r.(native := r.native - Upfront(req)))
      else Missed(o, w, req)
  {
    PathToTop(caller, req, callee, w, r);
    var c := PreCheck(w, 0, req, callee, r);
    if Reaches(req, w, r.native) {
      ExecuteIsHook(hooked, caller, req, callee, hook, body, w, r, c.resources, Sent(w, req),
                    r.(native := r.native - Upfront(req)), n);
    }
  }

  /** A plain call to a hook at top level: the callee is read, the balance checked, the value moved, the hook run. */
  lemma {:induction false} HandleAtTop(hooked: set<Addr>, caller: Environment, req: Request, hook: Hook, body: Body,
                                       w: World, r: Resources, n: nat)
    requires Sized(w, n) && Addressed(req, hook, n) && Within(body, n) && req.callee in hooked
    requires req.modifier.NoModifier?
    ensures var o := Handle(hooked, true, caller, 0, req, hook, body, w, r, n);
      var left := r.native - req.costs.read.native;
      if left >= 0 && Reaches(req, w, left) then o == CallHook(req, hook, w, Sent(w, req), r.(native := left - Upfront(req)))
      else Missed(o, w, req)
  {
    var callee := CalleeOf(w, req.callee);
    if req.costs.read.native <= r.native {
      var given := r.(native := r.native - req.costs.read.native);
      assert Prepare(true, req, callee, r) == Prepared(Resources(0, 0), given);
      ExecuteAtTop(hooked, caller, req, callee, hook, body, w, given, n);
    }
  }

  //// Resources

  /** Ergs never grow, every step is covered by native, and no frame runs deeper than the limit. */
  ghost predicate Bounded(o: Outcome, r: Resources) {
    && STEP * o.steps <= r.native && o.deepest <= MAX_DEPTH
    && (o.Done? ==> o.resources.ergs <= r.ergs && o.resources.native + STEP * o.steps <= r.native)
  }

  /** The charge that is unwrapped always succeeds, and the stipend is covered by the value surcharge. */
  lemma PassingErgs(req: Request, callee: Callee, r: Resources)
    ensures var (left, pass) := PassErgs(req, callee, r);
      && left.ergs <= r.ergs && left.native <= r.native
      && (pass.Some? ==> left.ergs + pass.value <= r.ergs && left.native == r.native)
  {}

  /** Whether a call pays for the value it sends: not in a constructor, nor where no value moves. */
  ghost predicate PaysValue(req: Request) {
    req.value > 0 && req.modifier !in {Constructor, Delegate, DelegateStatic}
  }

  /** Ergs a call burns before any are passed: for sending value, and for sending it to an account that does not exist. */
  ghost function Surcharge(req: Request, callee: Callee): (ergs: nat) {
    if !PaysValue(req) then 0
    else if callee == Callee(0, 0, 0) && req.modifier !in {Callcode, CallcodeStatic} then 34000 * ERGS_PER_GAS
    else 9000 * ERGS_PER_GAS
  }

  /** Ergs the callee gets for nothing. */
  ghost function Stipend(req: Request): (ergs: nat) { if PaysValue(req) then 2300 * ERGS_PER_GAS else 0 }

  /** `kept` is whole gas, the most that is no more than a 64th of `ergs`. */
  ghost predicate Whole64th(kept: nat, ergs: nat) {
    kept % ERGS_PER_GAS == 0 && 64 * kept <= ergs < 64 * (kept + ERGS_PER_GAS)
  }

  /** The division of `ergs` in a call: the whole request is passed, or all but the whole-gas 64th, whichever is less. */
  ghost predicate Divided(ergs: nat, asked: nat, kept: nat, passed: nat) {
    && kept + passed == ergs
    && exists least: nat :: Whole64th(least, ergs) && (if asked <= ergs - least then passed == asked else kept == least)
  }

  /** Passing fails exactly where the surcharges cannot be paid; otherwise what is left after them is divided, and the
      stipend comes on top. The charge that is unwrapped always succeeds. */
  lemma PassedShare(req: Request, callee: Callee, r: Resources)
    ensures var (left, pass) := PassErgs(req, callee, r);
            var surcharge := Surcharge(req, callee);
            && left.native == r.native
            && (pass.None? <==> r.ergs < surcharge)
            && (pass.None? ==> left.ergs == 0)
            && (pass.Some? ==>
                  && pass.value >= Stipend(req)
                  && Divided(r.ergs - surcharge, req.ergsToPass, left.ergs, pass.value - Stipend(req)))
  {
    if r.ergs >= Surcharge(req, callee) {
      var ergs := r.ergs - Surcharge(req, callee);
      assert Whole64th(ergs - AllButOne64th(ergs), ergs);
    }
  }

  /** A call is prepared for the cost of reading the callee, whose ergs are spared at the entry and in constructors. The
      callee gets all the native that is left, and at the entry all the ergs. */
  lemma PreparedExact(entry: bool, req: Request, callee: Callee, r: Resources)
    ensures var read := if entry || req.modifier == Constructor then 0 else req.costs.read.ergs;
            var surcharge := if entry then 0 else Surcharge(req, callee);
            match Prepare(entry, req, callee, r)
            case PrepFatal => r.native < req.costs.read.native
            case PrepOutOfErgs(left) =>
              left.native + req.costs.read.native == r.native && left.ergs == 0 && r.ergs < read + surcharge
            case Prepared(kept, given) =>
              && kept.native == 0 && given.native + req.costs.read.native == r.native
              && r.ergs >= read + surcharge
              && (entry ==> kept.ergs == 0 && given.ergs == r.ergs)
              && (!entry ==>
                    && given.ergs >= Stipend(req)
                    && Divided(r.ergs - read - surcharge, req.ergsToPass, kept.ergs, given.ergs - Stipend(req)))
  {
    var r1 :=
      if entry || req.modifier.Constructor? then ChargeNative(r, req.costs.read.native)
      else Some(Charged(r, req.costs.read).0);
    if r1.Some? { PassedShare(req, callee, r1.value); }
  }

  lemma PreparedBound(entry: bool, req: Request, callee: Callee, r: Resources)
    ensures match Prepare(entry, req, callee, r)
      case PrepFatal => true
      case PrepOutOfErgs(left) => left.ergs <= r.ergs && left.native <= r.native
      case Prepared(kept, given) => kept.ergs + given.ergs <= r.ergs && given.native <= r.native && kept.native == 0
  {
    var r1 :=
      if entry || req.modifier.Constructor? then ChargeNative(r, req.costs.read.native)
      else Some(Charged(r, req.costs.read).0);
    if r1.Some? { PassingErgs(req, callee, r1.value); }
  }

  lemma CheckBound(c: Check, r: Resources, w: World, depth: nat, caller: Environment, req: Request, callee: Callee)
    requires |w.balance| == |w.nonce| && req.caller < |w.balance| && req.callee < |w.balance|
    requires c == PreCheck(w, depth, req, callee, r) || c == Transfer(w, caller, req, r) || c == Start(w, req, r)
    ensures !c.CheckFatal? ==> c.resources.ergs <= r.ergs && c.resources.native <= r.native
  {}

  lemma EndBound(w: World, req: Request, body: Body, r: Resources, n: nat)
    requires (body.Finish? || body.Throw? || body.Destruct?) && Within(body, n) && Sized(w, n) && req.caller < n
    requires req.callee < n
    ensures var c := End(w, req, body, r);
      !c.CheckFatal? ==> c.resources.ergs <= r.ergs && c.resources.native <= r.native
  {}

  /** A paid step costs at least its native share; an unpaid one is not counted. */
  lemma StepBound(r: Resources, cost: Resources)
    ensures var (r1, c, paid) := StepCost(r, cost);
      && r1.ergs <= r.ergs && r1.native <= r.native && STEP * paid <= r.native
      && (paid == 1 ==> r1.native + STEP <= r.native) && (c.Paid? ==> paid == 1) && (c.OutOfErgs? ==> paid == 1)
  {}

  lemma AfterBound(o: Outcome, steps: nat, depth: nat, r: Resources, r1: Resources)
    requires Bounded(o, r1) && depth <= MAX_DEPTH && r1.ergs <= r.ergs && r1.native + STEP * steps <= r.native
    ensures Bounded(After(steps, depth, o), r)
  {}

  lemma {:induction false} HandleBounded(hooked: set<Addr>, entry: bool, caller: Environment, depth: nat, req: Request,
                                         hook: Hook, body: Body, w: World, r: Resources, n: nat)
    requires Sized(w, n) && Addressed(req, hook, n) && Within(body, n)
    ensures Bounded(Handle(hooked, entry, caller, depth, req, hook, body, w, r, n), r)
    decreases body, 3
  {
    var callee := CalleeOf(w, req.callee);
    PreparedBound(entry, req, callee, r);
    match Prepare(entry, req, callee, r)
    case Prepared(kept, given) =>
      ExecuteBounded(hooked, caller, depth, req, callee, hook, body, w, given, n);
    case _ =>
  }

  lemma {:induction false} ExecuteBounded(hooked: set<Addr>, caller: Environment, depth: nat, req: Request,
                                          callee: Callee, hook: Hook, body: Body, w: World, r: Resources, n: nat)
    requires Sized(w, n) && Addressed(req, hook, n) && Within(body, n)
    ensures Bounded(Execute(hooked, caller, depth, req, callee, hook, body, w, r, n), r)
    decreases body, 2
  {
    var c := PreCheck(w, depth, req, callee, r);
    CheckBound(c, r, w, depth, caller, req, callee);
    if c.Passed? {
      var t := Transfer(c.world, caller, req, c.resources);
      CheckBound(t, c.resources, c.world, depth, caller, req, callee);
      if t.Passed? { EnterBounded(hooked, caller, depth, req, callee, hook, body, c.world, t.world, t.resources, n); }
    }
  }

  lemma {:induction false} EnterBounded(hooked: set<Addr>, caller: Environment, depth: nat, req: Request,
                                        callee: Callee, hook: Hook, body: Body, before: World, w: World, r: Resources,
                                        n: nat)
    requires Sized(before, n) && Sized(w, n) && Addressed(req, hook, n) && Within(body, n) && depth <= MAX_DEPTH
    ensures Bounded(Enter(hooked, caller, depth, req, callee, hook, body, before, w, r, n), r)
    decreases body, 1
  {
    if req.callee in hooked {
      HookBounded(req, hook, before, w, r);
    } else {
      var s := Start(w, req, r);
      CheckBound(s, r, w, depth, caller, req, callee);
      if s.Passed? { FrameBounded(hooked, depth, req, body, s.world, s.resources, n); }
    }
  }

  lemma HookBounded(req: Request, hook: Hook, before: World, w: World, r: Resources)
    requires |w.balance| == |w.codeLen| && Addressed(req, hook, |w.balance|)
    ensures Bounded(CallHook(req, hook, before, w, r), r)
  {}

  lemma {:induction false} FrameBounded(hooked: set<Addr>, depth: nat, req: Request, body: Body, w: World, r: Resources,
                                        n: nat)
    requires Sized(w, n) && req.caller < n && req.callee < n && Within(body, n) && depth <= MAX_DEPTH
    ensures Bounded(Frame(hooked, depth, req, body, w, r, n), r)
    decreases body, 0
  {
    if !body.Fault? {
      StepBound(r, body.cost);
      var (r1, c, _) := StepCost(r, body.cost);
      if c.Paid? {
        match body
        case Compute(_, slot, word, next) =>
          var w1 := Store(w, Self(req), slot, word);
          FrameBounded(hooked, depth, req, next, w1, r1, n);
          AfterBound(Frame(hooked, depth, req, next, w1, r1, n), 1, depth, r, r1);
        case Invoke(_, request, hook, callee, ok, bad) =>
          HandleBounded(hooked, false, EVM, depth + 1, request, hook, callee, w, r1, n);
          var o := Handle(hooked, false, EVM, depth + 1, request, hook, callee, w, r1, n);
          if o.Done? && !o.result.PreparationStepFailed? {
            var next := if o.result.Successful? then ok else bad;
            FrameBounded(hooked, depth, req, next, o.world, o.resources, n);
            AfterBound(Frame(hooked, depth, req, next, o.world, o.resources, n), 1 + o.steps, Max(depth, o.deepest), r,
                       o.resources);
          }
        case _ => EndBound(w, req, body, r1, n);
      }
    }
  }
}
