/** Call trees as values: what every call does to the world and to the resources, without snapshots or handles. */
module CallSemantics {
  import opened Options
  import opened ResourceCounters

  type Addr = nat

  const MAX_DEPTH: nat := 1024
  const CALLVALUE: nat := 9000
  const CALL_STIPEND: nat := 2300
  const NEWACCOUNT: nat := 25000
  const STEP: nat := 20

  datatype Modifier = NoModifier | Constructor | Delegate | Static | DelegateStatic | Callcode | CallcodeStatic

  datatype Environment = NoEE | EVM

  /** Account data and storage; the accounts deployed and those marked for deconstruction by the running transaction;
      the bound of a balance (`2^256`). `burned` records what has left circulation: nothing reads it. */
  datatype World = World(balance: seq<nat>, nonce: seq<nat>, codeLen: seq<nat>, storage: map<(Addr, nat), nat>,
                         deployed: set<Addr>, destroyed: set<Addr>, limit: nat, burned: nat)

  /** What input and output operations cost; those with infinite ergs are charged native only. */
  datatype Costs = Costs(read: Resources, balance: nat, nonce: nat, transfer: nat, start: nat)

  datatype Request = Request(caller: Addr, callee: Addr, value: nat, modifier: Modifier, ergsToPass: nat, costs: Costs)

  /** What a system hook does when it accepts a call: the base token burns the value it was sent, the deployer sets
      the code of an account, the others write at most to their own storage. */
  datatype Effect = Write(slot: nat, word: nat) | Withdraw | ForceDeploy(at: Addr, code: nat)

  /** A system hook's reaction to a call. Faults are internal errors or exhausted memory. */
  datatype Hook =
    | NotIntercepted
    | Intercepted(cost: Resources, effect: Effect, failed: bool)
    | HookFault(internal: bool)

  /** What a frame's code does, step by step, with the callee's behaviour inside each call. Any finite run is one. */
  datatype Body =
    | Finish(cost: Resources, failed: bool, code: nat, acceptable: bool, deployCost: Resources)
    | Throw(cost: Resources)
    | Destruct(cost: Resources, beneficiary: Addr, deployCost: Resources)
    | Fault(internal: bool)
    | Compute(cost: Resources, slot: nat, word: nat, next: Body)
    | Invoke(cost: Resources, request: Request, hook: Hook, callee: Body, ok: Body, bad: Body)

  datatype CallResult = PreparationStepFailed | Failed | Successful

  /** `steps` counts interpreter steps that were paid for; `deepest` is the greatest depth a frame ran at. A call that
      ends the whole transaction has run out of native or memory, or met an internal error. */
  datatype Outcome =
    | Fatal(internal: bool, steps: nat, deepest: nat)
    | Done(world: World, resources: Resources, result: CallResult, steps: nat, deepest: nat)

  ghost predicate Sized(w: World, n: nat) { |w.balance| == |w.nonce| == |w.codeLen| == n }

  ghost predicate Addressed(req: Request, hook: Hook, n: nat) {
    && req.caller < n && req.callee < n
    && (hook.Intercepted? && hook.effect.ForceDeploy? ==> hook.effect.at < n)
  }

  /** Every address in the tree exists. */
  ghost predicate Within(body: Body, n: nat) {
    match body
    case Destruct(_, beneficiary, _) => beneficiary < n
    case Compute(_, _, _, next) => Within(next, n)
    case Invoke(_, req, hook, callee, ok, bad) =>
      Addressed(req, hook, n) && Within(callee, n) && Within(ok, n) && Within(bad, n)
    case _ => true
  }

  predicate IsDelegate(m: Modifier) { m.Delegate? || m.DelegateStatic? }

  predicate IsCallcode(m: Modifier) { m.Callcode? || m.CallcodeStatic? }

  predicate IsStatic(m: Modifier) { m.Static? || m.DelegateStatic? || m.CallcodeStatic? }

  predicate TransferAllowed(m: Modifier) { m.NoModifier? || m.Constructor? || IsCallcode(m) }

  //// Preparation in the caller's frame

  /** A charge under `with_infinite_ergs`. */
  function ChargeNative(r: Resources, n: nat): (o: Option<Resources>)
    ensures o.Some? <==> n <= r.native
    ensures o.Some? ==> o.value.ergs == r.ergs && o.value.native + n == r.native
  {
    if r.native < n then None else Some(r.(native := r.native - n))
  }

  /** `apply_63_64_rule`: what stays behind is whole gas, the most that is no more than a 64th. */
  function AllButOne64th(ergs: nat): (r: nat)
    ensures r <= ergs && (ergs - r) % ERGS_PER_GAS == 0
    ensures 64 * (ergs - r) <= ergs < 64 * (ergs - r + ERGS_PER_GAS)
  {
    ergs - (ergs / ERGS_PER_GAS / 64) * ERGS_PER_GAS
  }

  /** The callee's account as read before anything else happens. */
  datatype Callee = Callee(nonce: nat, codeLen: nat, balance: nat)

  function CalleeOf(w: World, a: Addr): (c: Callee)
    requires a < |w.nonce| && a < |w.codeLen| && a < |w.balance|
  {
    Callee(w.nonce[a], w.codeLen[a], w.balance[a])
  }

  /** `calculate_resources_passed_in_external_call`: what stays with the caller and what the callee gets, both
      before native moves; `None` is running out of ergs, with what is left. */
  function PassErgs(req: Request, callee: Callee, r: Resources): (o: (Resources, Option<nat>))
  {
    var paysValue := !req.modifier.Constructor? && !IsDelegate(req.modifier) && req.value != 0;
    var (r1, c1) := if paysValue then Charged(r, Resources(CALLVALUE * ERGS_PER_GAS, 0)) else (r, Paid);
    if !c1.Paid? then (r1, None) else
    var isNew := callee.nonce == 0 && callee.codeLen == 0 && callee.balance == 0;
    var paysNew := paysValue && !IsCallcode(req.modifier) && isNew;
    var (r2, c2) := if paysNew then Charged(r1, Resources(NEWACCOUNT * ERGS_PER_GAS, 0)) else (r1, Paid);
    if !c2.Paid? then (r2, None) else
    var limit := AllButOne64th(r2.ergs);
    var pass := if req.ergsToPass < limit then req.ergsToPass else limit;
    var (r3, c3) := Charged(r2, Resources(pass, 0));
    assert c3.Paid?; // unwrapped without a check
    (r3, Some(pass + if paysValue then CALL_STIPEND * ERGS_PER_GAS else 0))
  }

  datatype Preparation = PrepFatal | PrepOutOfErgs(left: Resources) | Prepared(caller: Resources, callee: Resources)

  /** `read_callee_and_prepare_frame_state` */
  function Prepare(entry: bool, req: Request, callee: Callee, r: Resources): (p: Preparation) {
    var (r1, c) :=
      if entry || req.modifier.Constructor? then
        match ChargeNative(r, req.costs.read.native) { case None => (r, OutOfNative) case Some(x) => (x, Paid) }
      else Charged(r, req.costs.read);
    match c
    case OutOfNative => PrepFatal
    case OutOfErgs => PrepOutOfErgs(r1)
    case Paid =>
      if entry then Prepared(Resources(0, 0), r1)
      else
        var (r2, pass) := PassErgs(req, callee, r1);
        if pass.None? then PrepOutOfErgs(r2)
        else Prepared(r2.(native := 0), Resources(pass.value, r2.native))
  }

  //// Checks that are not rolled back

  datatype Check =
    | CheckFatal(internal: bool)
    | Refused(world: World, resources: Resources)
    | Passed(world: World, resources: Resources)

  /** `before_executing_frame` */
  function PreCheck(w: World, depth: nat, req: Request, callee: Callee, r: Resources): (c: Check)
    requires req.caller < |w.balance| && req.caller < |w.nonce|
  {
    if depth > MAX_DEPTH then Refused(w, r) else
    var moves := req.value != 0 && !IsDelegate(req.modifier);
    var r1 := if moves then ChargeNative(r, req.costs.balance) else Some(r);
    if r1.None? then CheckFatal(false)
    else if moves && w.balance[req.caller] < req.value then Refused(w, r1.value)
    else if !req.modifier.Constructor? then Passed(w, r1.value)
    else
      var bumps := depth > 0;
      var r2 := if bumps then ChargeNative(r1.value, req.costs.nonce) else r1;
      if r2.None? then CheckFatal(false)
      else if bumps && w.nonce[req.caller] >= U64_MAX then Refused(w, r2.value)
      else
        var w1 := if bumps then w.(nonce := w.nonce[req.caller := w.nonce[req.caller] + 1]) else w;
        if callee.codeLen != 0 || callee.nonce != 0 then Refused(w1, r2.value.(ergs := 0))
        else Passed(w1, r2.value)
  }

  //// Effects inside the snapshot

  /** `transfer_nominal_token_value` */
  function Move(balance: seq<nat>, source: Addr, target: Addr, value: nat): (b: seq<nat>)
    requires source < |balance| && target < |balance| && value <= balance[source]
    ensures |b| == |balance|
  {
    var paid := balance[source := balance[source] - value];
    paid[target := paid[target] + value]
  }

  /** `perform_transfer_if_required`: a balance too small or too large is an internal error at top level only. */
  function Transfer(w: World, caller: Environment, req: Request, r: Resources): (c: Check)
    requires req.caller < |w.balance| && req.callee < |w.balance|
  {
    if req.value == 0 || IsDelegate(req.modifier) then Passed(w, r)
    else if !TransferAllowed(req.modifier) then CheckFatal(true)
    else
      var target := if IsCallcode(req.modifier) then req.caller else req.callee;
      var r1 := ChargeNative(r, req.costs.transfer);
      if r1.None? then CheckFatal(false)
      else if w.balance[req.caller] < req.value || (target != req.caller && w.balance[target] + req.value >= w.limit) then
        (if caller.NoEE? then CheckFatal(true) else Refused(w, r1.value))
      else Passed(w.(balance := Move(w.balance, req.caller, target, req.value)), r1.value)
  }

  /** Frame start: a constructor gives the new account its first nonce; code is preprocessed. */
  function Start(w: World, req: Request, r: Resources): (c: Check)
    requires req.callee < |w.nonce|
  {
    var r1 := ChargeNative(r, req.costs.start);
    if r1.None? then CheckFatal(false)
    else if req.modifier.Constructor? then Passed(w.(nonce := w.nonce[req.callee := w.nonce[req.callee] + 1]), r1.value)
    else Passed(w, r1.value)
  }

  /** The account a frame runs as. */
  function Self(req: Request): (a: Addr) {
    if IsDelegate(req.modifier) || IsCallcode(req.modifier) then req.caller else req.callee
  }

  function Store(w: World, a: Addr, slot: nat, word: nat): (w': World) {
    w.(storage := w.storage[(a, slot) := word])
  }

  /** One interpreter step with its opcode's own cost. */
  function StepCost(r: Resources, cost: Resources): (o: (Resources, Charge, nat)) {
    var (r1, c1) := Charged(r, Resources(0, STEP));
    if !c1.Paid? then (r1, c1, 0)
    else var (r2, c2) := Charged(r1, cost); (r2, c2, 1)
  }

  /** `mark_for_deconstruction`: the balance goes to the beneficiary. An account deployed by this transaction, or still
      in its constructor, is also marked; then what it leaves to itself is burned. `None` is an overflowing balance. */
  function Deconstruct(w: World, self: Addr, beneficiary: Addr, inConstructor: bool): (o: Option<World>)
    requires self < |w.balance| && beneficiary < |w.balance|
  {
    var amount := w.balance[self];
    var final := inConstructor || self in w.deployed;
    var w1 := if final then w.(destroyed := w.destroyed + {self}) else w;
    if self != beneficiary then
      if w.balance[beneficiary] + amount >= w.limit then None
      else Some(w1.(balance := Move(w.balance, self, beneficiary, amount)))
    else if final then Some(w1.(balance := w.balance[self := 0], burned := w.burned + amount))
    else Some(w1)
  }

  /** The surcharge for a self-destruct that funds an empty account. */
  function Funding(w: World, w': World, self: Addr, beneficiary: Addr, r: Resources): (o: (Resources, Charge))
    requires self < |w.balance| && beneficiary < |w'.balance| && beneficiary < |w'.nonce| && beneficiary < |w'.codeLen|
  {
    var amount := w.balance[self];
    if amount != 0 && w'.nonce[beneficiary] == 0 && w'.codeLen[beneficiary] == 0 && w'.balance[beneficiary] == amount
    then Charged(r, Resources(NEWACCOUNT * ERGS_PER_GAS, 0)) else (r, Paid)
  }

  /** End of a frame's code: a constructor still has to pay for its code. */
  function Close(w: World, req: Request, code: nat, acceptable: bool, deployCost: Resources, r: Resources): (c: Check)
    requires req.callee < |w.codeLen|
  {
    if !req.modifier.Constructor? then Passed(w, r)
    else if !acceptable then Refused(w, r.(ergs := 0))
    else
      var (r1, c) := Charged(r, deployCost);
      match c
      case Paid => Passed(Deploy(w, req.callee, code), r1)
      case OutOfErgs => Refused(w, r1.(ergs := 0))
      case OutOfNative => CheckFatal(false)
  }

  function Deploy(w: World, a: Addr, code: nat): (w': World)
    requires a < |w.codeLen|
  {
    w.(codeLen := w.codeLen[a := code], deployed := w.deployed + {a})
  }

  /** The end of a frame by its last instruction, already paid for. */
  function End(w: World, req: Request, body: Body, r: Resources): (c: Check)
    requires body.Finish? || body.Throw? || (body.Destruct? && body.beneficiary < |w.balance|)
    requires |w.balance| == |w.nonce| == |w.codeLen| && req.caller < |w.balance| && req.callee < |w.balance|
  {
    match body
    case Finish(_, failed, code, acceptable, deployCost) =>
      if failed then Refused(w, r) else Close(w, req, code, acceptable, deployCost, r)
    case Destruct(_, beneficiary, deployCost) =>
      if IsStatic(req.modifier) then Refused(w, r.(ergs := 0))
      else
        (match Deconstruct(w, Self(req), beneficiary, req.modifier.Constructor?)
         case None => CheckFatal(true)
         case Some(w1) =>
           var (r1, c) := Funding(w, w1, Self(req), beneficiary, r);
           if c.Paid? then Close(w1, req, 0, true, deployCost, r1) else Refused(w1, r1.(ergs := 0)))
    case _ => Refused(w, r.(ergs := 0))
  }

  //// Call trees

  /** A requested call: preparation, then the callee, then the caller gets its resources back. */
  function Handle(hooked: set<Addr>, entry: bool, caller: Environment, depth: nat, req: Request, hook: Hook, body: Body,
                  w: World, r: Resources, n: nat): (o: Outcome)
    requires Sized(w, n) && Addressed(req, hook, n) && Within(body, n)
    ensures o.Done? ==> Sized(o.world, n)
    decreases body, 4
  {
    var callee := CalleeOf(w, req.callee);
    match Prepare(entry, req, callee, r)
    case PrepFatal => Fatal(false, 0, 0)
    case PrepOutOfErgs(left) => Done(w, left, PreparationStepFailed, 0, 0)
    case Prepared(kept, given) =>
      match Execute(hooked, caller, depth, req, callee, hook, body, w, given, n)
      case Fatal(internal, steps, deepest) => Fatal(internal, steps, deepest)
      case Done(w', back, result, steps, deepest) =>
        Done(w', Resources(kept.ergs + back.ergs, kept.native + back.native), result, steps, deepest)
  }

  /** The callee's part: on failure, exactly what the checks left. */
  function Execute(hooked: set<Addr>, caller: Environment, depth: nat, req: Request, callee: Callee, hook: Hook,
                   body: Body, w: World, r: Resources, n: nat): (o: Outcome)
    requires Sized(w, n) && Addressed(req, hook, n) && Within(body, n)
    ensures o.Done? ==> Sized(o.world, n)
    decreases body, 3
  {
    match PreCheck(w, depth, req, callee, r)
    case CheckFatal(internal) => Fatal(internal, 0, 0)
    case Refused(w1, r1) => Done(w1, r1, Failed, 0, 0)
    case Passed(w1, r1) => Attempt(hooked, caller, depth, req, callee, hook, body, w1, r1, n)
  }

  /** Past the checks: everything from here on is undone if the call fails. */
  function Attempt(hooked: set<Addr>, caller: Environment, depth: nat, req: Request, callee: Callee, hook: Hook,
                   body: Body, w: World, r: Resources, n: nat): (o: Outcome)
    requires Sized(w, n) && Addressed(req, hook, n) && Within(body, n)
    ensures o.Done? ==> Sized(o.world, n)
    decreases body, 2
  {
    match Transfer(w, caller, req, r)
    case CheckFatal(internal) => Fatal(internal, 0, 0)
    case Refused(_, r1) => Done(w, r1, Failed, 0, 0)
    case Passed(w1, r1) => Enter(hooked, caller, depth, req, callee, hook, body, w, w1, r1, n)
  }

  /** Past the checks and the transfer: a hook, an empty account, or code. `before` is the snapshot. */
  function Enter(hooked: set<Addr>, caller: Environment, depth: nat, req: Request, callee: Callee, hook: Hook,
                 body: Body, before: World, w: World, r: Resources, n: nat): (o: Outcome)
    requires Sized(before, n) && Sized(w, n) && Addressed(req, hook, n) && Within(body, n)
    ensures o.Done? ==> Sized(o.world, n)
    decreases body, 1
  {
    if req.callee in hooked then CallHook(req, hook, before, w, r)
    else if (if req.modifier.Constructor? then caller.NoEE? else callee.codeLen == 0) then
      if req.modifier.Constructor? then Fatal(true, 0, 0) else Done(w, r, Successful, 0, 0)
    else
      match Start(w, req, r)
      case Passed(w1, r1) =>
        (match Frame(hooked, depth, req, body, w1, r1, n)
         case Fatal(internal, steps, deepest) => Fatal(internal, steps, deepest)
         case Done(w2, r2, result, steps, deepest) =>
           Done(if result.Successful? then w2 else before, r2, result, steps, deepest))
      case _ => Fatal(false, 0, depth)
  }

  /** What an accepting hook does to the world; `None` is a withdrawal beyond the hook's balance. */
  function Affect(w: World, req: Request, effect: Effect): (o: Option<World>)
    requires req.callee < |w.balance| && (effect.ForceDeploy? ==> effect.at < |w.codeLen|)
  {
    match effect
    case Write(slot, word) => Some(Store(w, req.callee, slot, word))
    case ForceDeploy(at, code) => Some(Deploy(w, at, code))
    case Withdraw =>
      if w.balance[req.callee] < req.value then None
      else Some(w.(balance := w.balance[req.callee := w.balance[req.callee] - req.value], burned := w.burned + req.value))
  }

  /** `call_to_special_address_execute_callee_frame`; withdrawals are refused to all but plain calls. */
  function CallHook(req: Request, hook: Hook, before: World, w: World, r: Resources): (o: Outcome)
    requires |w.balance| == |w.codeLen| && Addressed(req, hook, |w.balance|)
  {
    if req.modifier.Constructor? then Done(before, r, Failed, 0, 0)
    else match hook
      case NotIntercepted => Done(w, r, Successful, 0, 0)
      case HookFault(internal) => Fatal(internal, 0, 0)
      case Intercepted(cost, effect, failed) =>
        var (r1, c) := Charged(r, cost);
        match c
        case OutOfNative => Fatal(false, 0, 0)
        case OutOfErgs => Done(before, r1, Failed, 0, 0)
        case Paid =>
          if failed || (effect.Withdraw? && !req.modifier.NoModifier?) then Done(before, r1, Failed, 0, 0)
          else
            match Affect(w, req, effect)
            case None => Fatal(true, 0, 0)
            case Some(w1) => Done(w1, r1, Successful, 0, 0)
  }

  function After(steps: nat, deepest: nat, o: Outcome): (o': Outcome) {
    match o
    case Fatal(i, s, d) => Fatal(i, steps + s, Max(deepest, d))
    case Done(w, r, result, s, d) => Done(w, r, result, steps + s, Max(deepest, d))
  }

  function Ended(c: Check, depth: nat): (o: Outcome) {
    match c
    case CheckFatal(internal) => Fatal(internal, 1, depth)
    case Refused(w, r) => Done(w, r, Failed, 1, depth)
    case Passed(w, r) => Done(w, r, Successful, 1, depth)
  }

  /** The frame's code from some point on; `result` is `Failed` or `Successful`. Every instruction pays for its step. */
  function Frame(hooked: set<Addr>, depth: nat, req: Request, body: Body, w: World, r: Resources, n: nat): (o: Outcome)
    requires Sized(w, n) && req.caller < n && req.callee < n && Within(body, n)
    ensures o.Done? ==> Sized(o.world, n) && !o.result.PreparationStepFailed?
    decreases body, 0
  {
    if body.Fault? then Fatal(body.internal, 0, depth) else
    var (r1, c, paid) := StepCost(r, body.cost);
    match c
    case OutOfNative => Fatal(false, paid, depth)
    case OutOfErgs => Done(w, r1.(ergs := 0), Failed, paid, depth)
    case Paid =>
      match body
      case Compute(_, slot, word, next) =>
        After(1, depth, Frame(hooked, depth, req, next, Store(w, Self(req), slot, word), r1, n))
      case Invoke(_, request, hook, callee, ok, bad) =>
        (match Handle(hooked, false, EVM, depth + 1, request, hook, callee, w, r1, n)
         case Fatal(internal, steps, deepest) => Fatal(internal, 1 + steps, Max(depth, deepest))
         case Done(w2, r2, result, steps, deepest) =>
           match result
           case PreparationStepFailed => Done(w2, r2.(ergs := 0), Failed, 1 + steps, Max(depth, deepest))
           case Failed => After(1 + steps, Max(depth, deepest), Frame(hooked, depth, req, bad, w2, r2, n))
           case Successful => After(1 + steps, Max(depth, deepest), Frame(hooked, depth, req, ok, w2, r2, n)))
      case _ => Ended(End(w, req, body, r1), depth)
  }

  //// The end of a transaction

  /** `finish_tx`: marked accounts are cleared, and what they were sent after they were marked is burned. */
  function FinishTx(w: World): (w': World) {
    w.(balance := seq(|w.balance|, i requires 0 <= i < |w.balance| => if i in w.destroyed then 0 else w.balance[i]),
       nonce := seq(|w.nonce|, i requires 0 <= i < |w.nonce| => if i in w.destroyed then 0 else w.nonce[i]),
       codeLen := seq(|w.codeLen|, i requires 0 <= i < |w.codeLen| => if i in w.destroyed then 0 else w.codeLen[i]),
       storage := map k | k in w.storage && k.0 !in w.destroyed :: w.storage[k],
       deployed := {}, destroyed := {}, burned := w.burned + Sum(Marked(w)))
  }

  /** The balances of the marked accounts. */
  function Marked(w: World): (b: seq<nat>)
    ensures |b| == |w.balance|
  {
    seq(|w.balance|, i requires 0 <= i < |w.balance| => if i in w.destroyed then w.balance[i] else 0)
  }

  function Sum(s: seq<nat>): (t: nat) {
    if s == [] then 0 else Sum(s[..|s| - 1]) + s[|s| - 1]
  }
}
