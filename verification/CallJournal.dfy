/** Call trees by journal: what a call commits is a list of events, and a call that fails commits none of its own.
    Nothing is ever undone here, so that this is what the snapshots of the call semantics are measured against. */
module CallJournal {
  import opened Options
  import opened ResourceCounters
  import opened CallSemantics

  //// Events

  datatype Event =
    | NonceUp(a: Addr)
    | Sent(source: Addr, target: Addr, value: nat)
    | Wrote(a: Addr, slot: nat, word: nat)
    | Coded(a: Addr, code: nat)
    | Doomed(a: Addr)
    | Burnt(a: Addr, value: nat)

  /** The event concerns existing accounts, and nobody pays more than they have. */
  predicate Fits(w: World, e: Event) {
    match e
    case NonceUp(a) => a < |w.nonce|
    case Sent(source, target, value) => source < |w.balance| && target < |w.balance| && value <= w.balance[source]
    case Coded(a, _) => a < |w.codeLen|
    case Burnt(a, value) => a < |w.balance| && value <= w.balance[a]
    case _ => true
  }

  function Apply(w: World, e: Event): (w': World) {
    if !Fits(w, e) then w else
    match e
    case NonceUp(a) => w.(nonce := w.nonce[a := w.nonce[a] + 1])
    case Sent(source, target, value) =>
      var b := w.balance[source := w.balance[source] - value];
      w.(balance := b[target := b[target] + value])
    case Wrote(a, slot, word) => w.(storage := w.storage[(a, slot) := word])
    case Coded(a, code) => w.(codeLen := w.codeLen[a := code], deployed := w.deployed + {a})
    case Doomed(a) => w.(destroyed := w.destroyed + {a})
    case Burnt(a, value) => w.(balance := w.balance[a := w.balance[a] - value], burned := w.burned + value)
  }

  function ApplyAll(w: World, es: seq<Event>): (w': World)
    decreases |es|
  {
    if es == [] then w else ApplyAll(Apply(w, es[0]), es[1..])
  }

  /** Every event fits the world it meets. */
  predicate Legal(w: World, es: seq<Event>)
    decreases |es|
  {
    es == [] || (Fits(w, es[0]) && Legal(Apply(w, es[0]), es[1..]))
  }

  ghost predicate Makes(w: World, es: seq<Event>, w': World) { w' == ApplyAll(w, es) && Legal(w, es) }

  lemma {:induction false} Joined(w: World, a: seq<Event>, b: seq<Event>)
    ensures ApplyAll(w, a + b) == ApplyAll(ApplyAll(w, a), b)
    ensures Legal(w, a + b) <==> Legal(w, a) && Legal(ApplyAll(w, a), b)
    decreases |a|
  {
    if a == [] {
      assert a + b == b;
    } else {
      assert (a + b)[0] == a[0] && (a + b)[1..] == a[1..] + b;
      Joined(Apply(w, a[0]), a[1..], b);
    }
  }

  lemma {:induction false} KeepsSize(w: World, es: seq<Event>, n: nat)
    requires Sized(w, n)
    ensures Sized(ApplyAll(w, es), n)
    decreases |es|
  {
    if es != [] { KeepsSize(Apply(w, es[0]), es[1..], n); }
  }

  lemma {:induction false} Single(w: World, e: Event)
    ensures ApplyAll(w, [e]) == Apply(w, e) && (Legal(w, [e]) <==> Fits(w, e))
  {
    assert [e][1..] == [];
  }

  //// The semantics

  /** A call is cut short for the whole transaction, or closes with events to commit, resources to give back and a
      result. Either way it has run a number of instructions, and code down to some depth. */
  datatype Journal =
    | Cut(internal: bool, steps: nat := 0, deepest: nat := 0)
    | Closed(events: seq<Event>, left: Resources, result: CallResult, steps: nat := 0, deepest: nat := 0)

  /** The account that code runs as: delegated and call-code frames run as their caller. */
  function Account(req: Request): (a: Addr) {
    match req.modifier
    case Delegate => req.caller
    case DelegateStatic => req.caller
    case Callcode => req.caller
    case CallcodeStatic => req.caller
    case _ => req.callee
  }

  /** Who receives the value of a call: nobody in a delegated one, the caller itself under call-code. */
  function Recipient(req: Request): (a: Addr) {
    match req.modifier
    case Callcode => req.caller
    case CallcodeStatic => req.caller
    case _ => req.callee
  }

  predicate SendsValue(req: Request) { req.value > 0 && req.modifier != Delegate && req.modifier != DelegateStatic }

  function Less(r: Resources, native: nat): (r': Resources)
    requires native <= r.native
  {
    Resources(r.ergs, r.native - native)
  }

  /** A frame that fails commits nothing. */
  function Abandon(left: Resources): (j: Journal) { Closed([], left, Failed) }

  function Empty(left: Resources): (j: Journal) { Abandon(Resources(0, left.native)) }

  /** A frame that goes on after `es`: if it succeeds, they are committed before the rest. */
  function Then(es: seq<Event>, j: Journal): (j': Journal) {
    if j.Closed? && j.result.Successful? then j.(events := es + j.events) else j
  }

  /** What ran after `steps` instructions, and after code at depth `deepest`. */
  function Later(steps: nat, deepest: nat, j: Journal): (j': Journal) {
    j.(steps := steps + j.steps, deepest := if deepest < j.deepest then j.deepest else deepest)
  }

  /** At most the creator's nonce. */
  predicate AtMostNonce(es: seq<Event>, req: Request, depth: nat) {
    es == [] || (es == [NonceUp(req.caller)] && req.modifier == Constructor && depth > 0)
  }

  /** A call: read and prepared in the caller's frame, checked, and run. The creator's nonce moves even if it fails. */
  function Call(hooked: set<Addr>, entry: bool, caller: Environment, depth: nat, req: Request, hook: Hook, body: Body,
                w: World, r: Resources, n: nat): (j: Journal)
    requires Sized(w, n) && Addressed(req, hook, n) && Within(body, n)
    decreases body, 2
  {
    match Prepare(entry, req, CalleeOf(w, req.callee), r)
    case PrepFatal => Cut(false)
    case PrepOutOfErgs(left) => Closed([], left, PreparationStepFailed)
    case Prepared(kept, given) =>
      var j := Checked(hooked, caller, depth, req, hook, body, w, given, n);
      if j.Cut? then j else j.(left := Resources(kept.ergs + j.left.ergs, kept.native + j.left.native))
  }

  function Checked(hooked: set<Addr>, caller: Environment, depth: nat, req: Request, hook: Hook, body: Body, w: World,
                   r: Resources, n: nat): (j: Journal)
    requires Sized(w, n) && Addressed(req, hook, n) && Within(body, n)
    decreases body, 1
  {
    var c := Checks(w, depth, req, r);
    if c.Cut? || c.result.Failed? then c
    else
      KeepsSize(w, c.events, n);
      var j := Inside(hooked, caller, depth, req, hook, body, ApplyAll(w, c.events), c.left, n);
      if j.Cut? then j else j.(events := c.events + j.events)
  }

  /** The checks before a frame: its depth, the caller's balance and, for a creation, the creator's nonce, which moves
      for good, and whether the new address was already in use. */
  function Checks(w: World, depth: nat, req: Request, r: Resources): (j: Journal)
    requires |w.balance| == |w.nonce| == |w.codeLen| && req.caller < |w.balance| && req.callee < |w.balance|
    ensures j.Closed? ==> AtMostNonce(j.events, req, depth)
  {
    if depth > 1024 then Abandon(r)
    else if SendsValue(req) && r.native < req.costs.balance then Cut(false)
    else
      var r1 := if SendsValue(req) then Less(r, req.costs.balance) else r;
      if SendsValue(req) && w.balance[req.caller] < req.value then Abandon(r1)
      else if !req.modifier.Constructor? then Closed([], r1, Successful)
      else if depth == 0 then Vacant(w, req.callee, [], r1)
      else if r1.native < req.costs.nonce then Cut(false)
      else
        var r2 := Less(r1, req.costs.nonce);
        if w.nonce[req.caller] >= U64_MAX then Abandon(r2) else Vacant(w, req.callee, [NonceUp(req.caller)], r2)
  }

  function Vacant(w: World, a: Addr, up: seq<Event>, r: Resources): (j: Journal)
    requires a < |w.nonce| && a < |w.codeLen|
  {
    if w.nonce[a] == 0 && w.codeLen[a] == 0 then Closed(up, r, Successful)
    else Closed(up, Resources(0, r.native), Failed)
  }

  /** Past the checks: the value moves, then a hook, nothing, or code runs. */
  function Inside(hooked: set<Addr>, caller: Environment, depth: nat, req: Request, hook: Hook, body: Body, w: World,
                  r: Resources, n: nat): (j: Journal)
    requires Sized(w, n) && Addressed(req, hook, n) && Within(body, n)
    ensures j.Closed? && !j.result.Successful? ==> j.events == []
    decreases body, 0, 2
  {
    var p := Payment(w, caller, req, r);
    if p.Cut? || p.result.Failed? then p
    else
      KeepsSize(w, p.events, n);
      Entered(hooked, caller, depth, req, hook, body, ApplyAll(w, p.events), p.events, p.left, n)
  }

  /** The value of a call moves to its recipient; short or overfull balances fail the call, or at the top the whole
      transaction. */
  function Payment(w: World, caller: Environment, req: Request, r: Resources): (j: Journal)
    requires req.caller < |w.balance| && req.callee < |w.balance|
    ensures j.Closed? && !j.result.Successful? ==> j.events == []
  {
    if !SendsValue(req) then Closed([], r, Successful)
    else if req.modifier == Static then Cut(true)
    else if r.native < req.costs.transfer then Cut(false)
    else
      var r1, to := Less(r, req.costs.transfer), Recipient(req);
      if w.balance[req.caller] < req.value || (to != req.caller && w.balance[to] + req.value >= w.limit) then
        if caller.NoEE? then Cut(true) else Abandon(r1)
      else Closed([Sent(req.caller, to, req.value)], r1, Successful)
  }

  /** After the payment: a hook, an empty account, or code, which commits the payment only if it succeeds. */
  function Entered(hooked: set<Addr>, caller: Environment, depth: nat, req: Request, hook: Hook, body: Body, w: World,
                   pays: seq<Event>, r: Resources, n: nat): (j: Journal)
    requires Sized(w, n) && Addressed(req, hook, n) && Within(body, n)
    ensures j.Closed? && !j.result.Successful? ==> j.events == []
    decreases body, 0, 1
  {
    if req.callee in hooked then Then(pays, Hooked(req, hook, w, r))
    else if req.modifier.Constructor? && caller.NoEE? then Cut(true)
    else if !req.modifier.Constructor? && w.codeLen[req.callee] == 0 then Closed(pays, r, Successful)
    else if r.native < req.costs.start then Cut(false, 0, depth)
    else
      var born := if req.modifier.Constructor? then [NonceUp(req.callee)] else [];
      KeepsSize(w, born, n);
      var j := Code(hooked, depth, req, body, ApplyAll(w, born), Less(r, req.costs.start), n);
      Then(pays, Then(born, j))
  }

  /** A hook accepts and acts, or refuses. */
  function Hooked(req: Request, hook: Hook, w: World, r: Resources): (j: Journal)
    requires req.callee < |w.balance|
    ensures j.Closed? && !j.result.Successful? ==> j.events == []
  {
    if req.modifier.Constructor? then Abandon(r)
    else match hook
      case NotIntercepted => Closed([], r, Successful)
      case HookFault(internal) => Cut(internal)
      case Intercepted(cost, effect, failed) =>
        if r.native < cost.native then Cut(false)
        else if r.ergs < cost.ergs then Empty(Less(r, cost.native))
        else
          var r1 := Resources(r.ergs - cost.ergs, r.native - cost.native);
          if failed || (effect.Withdraw? && req.modifier != NoModifier) then Abandon(r1)
          else if Fits(w, Action(req, effect)) then Closed([Action(req, effect)], r1, Successful)
          else Cut(true)
  }

  /** What a hook does when it accepts: a withdrawal burns the value that was sent. */
  function Action(req: Request, effect: Effect): (e: Event) {
    match effect
    case Write(slot, word) => Wrote(req.callee, slot, word)
    case ForceDeploy(at, code) => Coded(at, code)
    case Withdraw => Burnt(req.callee, req.value)
  }

  /** The code of a frame: every instruction pays for its step and for itself. */
  function Code(hooked: set<Addr>, depth: nat, req: Request, body: Body, w: World, r: Resources, n: nat): (j: Journal)
    requires Sized(w, n) && req.caller < n && req.callee < n && Within(body, n)
    ensures j.Closed? && !j.result.Successful? ==> j.events == []
    decreases body, 0, 0, 1
  {
    if body.Fault? then Cut(body.internal, 0, depth)
    else if r.native < 20 then Cut(false, 0, depth)
    else if r.native < 20 + body.cost.native then Cut(false, 1, depth)
    else
      var native := r.native - 20 - body.cost.native;
      if r.ergs < body.cost.ergs then Later(1, depth, Abandon(Resources(0, native)))
      else
        var r1 := Resources(r.ergs - body.cost.ergs, native);
        if body.Compute? then
          var e := Wrote(Account(req), body.slot, body.word);
          Later(1, depth, Then([e], Code(hooked, depth, req, body.next, Apply(w, e), r1, n)))
        else if body.Invoke? then
          var j := Call(hooked, false, EVM, depth + 1, body.request, body.hook, body.callee, w, r1, n);
          Later(1, depth, Resumed(hooked, depth, req, body, w, j, n))
        else Later(1, depth, Ending(req, body, w, r1))
  }

  /** A frame after a call: it commits what the call did, and goes on by its result. */
  function Resumed(hooked: set<Addr>, depth: nat, req: Request, body: Body, w: World, j: Journal, n: nat): (j': Journal)
    requires body.Invoke? && Sized(w, n) && req.caller < n && req.callee < n && Within(body, n)
    ensures j'.Closed? && !j'.result.Successful? ==> j'.events == []
    decreases body, 0, 0, 0
  {
    if j.Cut? then j
    else if j.result.PreparationStepFailed? then Later(j.steps, j.deepest, Empty(j.left))
    else
      KeepsSize(w, j.events, n);
      var rest := if j.result.Successful? then body.ok else body.bad;
      Later(j.steps, j.deepest, Then(j.events, Code(hooked, depth, req, rest, ApplyAll(w, j.events), j.left, n)))
  }

  /** The last instruction of a frame. */
  function Ending(req: Request, body: Body, w: World, r: Resources): (j: Journal)
    requires body.Finish? || body.Throw? || (body.Destruct? && body.beneficiary < |w.balance|)
    requires |w.balance| == |w.nonce| == |w.codeLen| && req.caller < |w.balance| && req.callee < |w.balance|
    ensures j.Closed? && !j.result.Successful? ==> j.events == []
  {
    match body
    case Finish(_, failed, code, acceptable, deployCost) =>
      if failed then Abandon(r) else Deployed(req, code, acceptable, deployCost, r)
    case Destruct(_, beneficiary, deployCost) => Destructed(req, beneficiary, deployCost, w, r)
    case _ => Empty(r)
  }

  /** The end of a frame that did not fail; a constructor pays for the code it leaves. */
  function Deployed(req: Request, code: nat, acceptable: bool, cost: Resources, r: Resources): (j: Journal)
    ensures j.Closed? && !j.result.Successful? ==> j.events == []
  {
    if !req.modifier.Constructor? then Closed([], r, Successful)
    else if !acceptable then Empty(r)
    else if r.native < cost.native then Cut(false)
    else if r.ergs < cost.ergs then Abandon(Resources(0, r.native - cost.native))
    else Closed([Coded(req.callee, code)], Resources(r.ergs - cost.ergs, r.native - cost.native), Successful)
  }

  /** The events of a self-destruct: an account of this transaction is doomed, and the balance goes to the beneficiary
      or, left to a doomed account itself, to nobody. */
  function Leaving(w: World, self: Addr, beneficiary: Addr, constructing: bool): (es: seq<Event>)
    requires self < |w.balance|
  {
    var final := constructing || self in w.deployed;
    (if final then [Doomed(self)] else [])
    + (if self != beneficiary then [Sent(self, beneficiary, w.balance[self])]
       else if final then [Burnt(self, w.balance[self])] else [])
  }

  /** A self-destruct, refused to static frames; funding an account that did not exist costs extra. */
  function Destructed(req: Request, beneficiary: Addr, deployCost: Resources, w: World, r: Resources): (j: Journal)
    requires |w.balance| == |w.nonce| == |w.codeLen|
    requires req.caller < |w.balance| && req.callee < |w.balance| && beneficiary < |w.balance|
    ensures j.Closed? && !j.result.Successful? ==> j.events == []
  {
    var self := Account(req);
    var amount := w.balance[self];
    if req.modifier in {Static, DelegateStatic, CallcodeStatic} then Empty(r)
    else if self != beneficiary && w.balance[beneficiary] + amount >= w.limit then Cut(true)
    else
      var es := Leaving(w, self, beneficiary, req.modifier.Constructor?);
      KeepsSize(w, es, |w.balance|);
      var w1 := ApplyAll(w, es);
      var founds := amount > 0 && CalleeOf(w1, beneficiary) == Callee(0, 0, amount);
      var fee := if founds then 25000 * ERGS_PER_GAS else 0;
      if r.ergs < fee then Empty(r)
      else Then(es, Deployed(req, 0, true, deployCost, Resources(r.ergs - fee, r.native)))
  }

  //// Adequacy

  /** A call that closes has the outcome its journal says, in the world its events make. */
  ghost predicate Agree(o: Outcome, j: Journal, w: World) {
    match o
    case Fatal(internal, steps, deepest) => j == Cut(internal, steps, deepest)
    case Done(w', r, result, steps, deepest) =>
      j.Closed? && j == Closed(j.events, r, result, steps, deepest) && Makes(w, j.events, w')
  }

  /** Every call tree leaves exactly what its committed events make of the world, and nothing of what it abandoned. */
  lemma {:induction false} CallAgrees(hooked: set<Addr>, entry: bool, caller: Environment, depth: nat, req: Request,
                                      hook: Hook, body: Body, w: World, r: Resources, n: nat)
    requires Sized(w, n) && Addressed(req, hook, n) && Within(body, n)
    ensures Agree(Handle(hooked, entry, caller, depth, req, hook, body, w, r, n),
                  Call(hooked, entry, caller, depth, req, hook, body, w, r, n), w)
    decreases body, 2
  {
    var callee := CalleeOf(w, req.callee);
    var p := Prepare(entry, req, callee, r);
    if p.Prepared? {
      CheckedAgrees(hooked, caller, depth, req, callee, hook, body, w, p.callee, n);
      HandBack(p.caller, Execute(hooked, caller, depth, req, callee, hook, body, w, p.callee, n),
               Checked(hooked, caller, depth, req, hook, body, w, p.callee, n), w);
    }
  }

  lemma HandBack(kept: Resources, o: Outcome, j: Journal, w: World)
    requires Agree(o, j, w)
    ensures o.Done? ==>
      var r := Resources(kept.ergs + o.resources.ergs, kept.native + o.resources.native);
      j.Closed? && j.left == o.resources && Agree(o.(resources := r), j.(left := r), w)
  {}

  lemma {:induction false} CheckedAgrees(hooked: set<Addr>, caller: Environment, depth: nat, req: Request,
                                         callee: Callee, hook: Hook, body: Body, w: World, r: Resources, n: nat)
    requires Sized(w, n) && Addressed(req, hook, n) && Within(body, n) && callee == CalleeOf(w, req.callee)
    ensures Agree(Execute(hooked, caller, depth, req, callee, hook, body, w, r, n),
                  Checked(hooked, caller, depth, req, hook, body, w, r, n), w)
    decreases body, 1
  {
    var c, k := PreCheck(w, depth, req, callee, r), Checks(w, depth, req, r);
    PreCheckAgrees(w, depth, req, callee, r);
    if c.Passed? {
      KeepsSize(w, k.events, n);
      InsideAgrees(hooked, caller, depth, req, callee, hook, body, c.world, c.resources, n);
      Onward(w, k.events, c.world, Inside(hooked, caller, depth, req, hook, body, c.world, c.resources, n));
    }
  }

  /** The checks refuse with at most the creator's nonce to commit, or let the call go on. */
  lemma {:induction false} PreCheckAgrees(w: World, depth: nat, req: Request, callee: Callee, r: Resources)
    requires |w.balance| == |w.nonce| == |w.codeLen| && req.caller < |w.balance| && req.callee < |w.balance|
    requires callee == CalleeOf(w, req.callee)
    ensures var j := Checks(w, depth, req, r);
            match PreCheck(w, depth, req, callee, r)
            case CheckFatal(internal) => j == Cut(internal)
            case Refused(w1, r1) => j.Closed? && j == Closed(j.events, r1, Failed) && Makes(w, j.events, w1)
            case Passed(w1, r1) =>
              j.Closed? && j == Closed(j.events, r1, Successful) && Makes(w, j.events, w1) && w1.codeLen == w.codeLen
  {
    Single(w, NonceUp(req.caller));
  }

  lemma {:induction false} InsideAgrees(hooked: set<Addr>, caller: Environment, depth: nat, req: Request,
                                        callee: Callee, hook: Hook, body: Body, w: World, r: Resources, n: nat)
    requires Sized(w, n) && Addressed(req, hook, n) && Within(body, n)
    requires callee.codeLen == w.codeLen[req.callee]
    ensures Agree(Attempt(hooked, caller, depth, req, callee, hook, body, w, r, n),
                  Inside(hooked, caller, depth, req, hook, body, w, r, n), w)
    decreases body, 0, 2
  {
    var t, p := Transfer(w, caller, req, r), Payment(w, caller, req, r);
    PaymentAgrees(w, caller, req, r);
    if t.Passed? {
      KeepsSize(w, p.events, n);
      EnterAgrees(hooked, caller, depth, req, callee, hook, body, w, t.world, p.events, t.resources, n);
    }
  }

  lemma {:induction false} PaymentAgrees(w: World, caller: Environment, req: Request, r: Resources)
    requires req.caller < |w.balance| && req.callee < |w.balance|
    ensures var j := Payment(w, caller, req, r);
            match Transfer(w, caller, req, r)
            case CheckFatal(internal) => j == Cut(internal)
            case Refused(_, r1) => j == Abandon(r1)
            case Passed(w1, r1) =>
              j.Closed? && j == Closed(j.events, r1, Successful) && Makes(w, j.events, w1) && w1.codeLen == w.codeLen
  {
    Single(w, Sent(req.caller, Recipient(req), req.value));
  }

  /** Past the transfer `pays`: hook, empty account or code. A failure commits nothing, the transfer included. */
  lemma {:induction false} EnterAgrees(hooked: set<Addr>, caller: Environment, depth: nat, req: Request, callee: Callee,
                                       hook: Hook, body: Body, before: World, w: World, pays: seq<Event>, r: Resources,
                                       n: nat)
    requires Sized(before, n) && Sized(w, n) && Addressed(req, hook, n) && Within(body, n)
    requires callee.codeLen == w.codeLen[req.callee]
    requires w == ApplyAll(before, pays) && Legal(before, pays)
    ensures Agree(Enter(hooked, caller, depth, req, callee, hook, body, before, w, r, n),
                  Entered(hooked, caller, depth, req, hook, body, w, pays, r, n), before)
    decreases body, 0, 1
  {
    if req.callee in hooked {
      HookAgrees(req, hook, before, w, pays, r);
    } else if req.modifier.Constructor? || w.codeLen[req.callee] != 0 {
      if req.costs.start <= r.native && !(req.modifier.Constructor? && caller.NoEE?) {
        StartAgrees(hooked, depth, req, body, before, w, pays, r, n);
      }
    }
  }

  /** A frame with code, from its start: what `Enter` makes of its outcome. */
  lemma {:induction false} StartAgrees(hooked: set<Addr>, depth: nat, req: Request, body: Body, before: World, w: World,
                                       pays: seq<Event>, r: Resources, n: nat)
    requires Sized(before, n) && Sized(w, n) && req.caller < n && req.callee < n && Within(body, n)
    requires w == ApplyAll(before, pays) && Legal(before, pays) && req.costs.start <= r.native
    ensures var born := if req.modifier.Constructor? then [NonceUp(req.callee)] else [];
            var w1, r1 := ApplyAll(w, born), Less(r, req.costs.start);
            && Start(w, req, r) == Passed(w1, r1) && Sized(w1, n)
            && var o := Frame(hooked, depth, req, body, w1, r1, n);
               Agree(if o.Done? && !o.result.Successful? then o.(world := before) else o,
                     Then(pays, Then(born, Code(hooked, depth, req, body, w1, r1, n))), before)
    decreases body, 0, 0, 3
  {
    var born := if req.modifier.Constructor? then [NonceUp(req.callee)] else [];
    Single(w, NonceUp(req.callee));
    KeepsSize(w, born, n);
    var w1, r1 := ApplyAll(w, born), Less(r, req.costs.start);
    FrameAgrees(hooked, depth, req, body, w1, r1, n);
    var j := Code(hooked, depth, req, body, w1, r1, n);
    Onward(w, born, w1, j);
    Onward(before, pays, w, Then(born, j));
  }

  lemma {:induction false} HookAgrees(req: Request, hook: Hook, before: World, w: World, pays: seq<Event>, r: Resources)
    requires |w.balance| == |w.codeLen| && Addressed(req, hook, |w.balance|)
    requires w == ApplyAll(before, pays) && Legal(before, pays)
    ensures Agree(CallHook(req, hook, before, w, r), Then(pays, Hooked(req, hook, w, r)), before)
  {
    if hook.Intercepted? {
      var e := Action(req, hook.effect);
      ActionAgrees(w, req, hook.effect);
      Single(w, e);
      Joined(before, pays, [e]);
    }
    assert pays + [] == pays;
  }

  lemma ActionAgrees(w: World, req: Request, effect: Effect)
    requires req.callee < |w.balance| && (effect.ForceDeploy? ==> effect.at < |w.codeLen|)
    ensures Affect(w, req, effect) == if Fits(w, Action(req, effect)) then Some(Apply(w, Action(req, effect))) else None
  {
  }

  /** Inside a frame, failure may leave the world as it stands; nothing of it is in the journal. */
  ghost predicate FrameAgree(o: Outcome, j: Journal, w: World) {
    if o.Done? && o.result.Failed? then j == Closed([], o.resources, Failed, o.steps, o.deepest) else Agree(o, j, w)
  }

  lemma {:induction false} FrameAgrees(hooked: set<Addr>, depth: nat, req: Request, body: Body, w: World, r: Resources,
                                       n: nat)
    requires Sized(w, n) && req.caller < n && req.callee < n && Within(body, n)
    ensures FrameAgree(Frame(hooked, depth, req, body, w, r, n), Code(hooked, depth, req, body, w, r, n), w)
    decreases body, 0, 0, 2
  {
    if body.Compute? {
      ComputeAgrees(hooked, depth, req, body, w, r, n);
    } else if body.Invoke? {
      InvokeAgrees(hooked, depth, req, body, w, r, n);
    } else {
      LastAgrees(hooked, depth, req, body, w, r, n);
    }
  }

  lemma {:induction false} LastAgrees(hooked: set<Addr>, depth: nat, req: Request, body: Body, w: World, r: Resources,
                                      n: nat)
    requires Sized(w, n) && req.caller < n && req.callee < n && Within(body, n)
    requires !body.Compute? && !body.Invoke?
    ensures FrameAgree(Frame(hooked, depth, req, body, w, r, n), Code(hooked, depth, req, body, w, r, n), w)
  {
    if !body.Fault? {
      var (r1, c, _) := StepCost(r, body.cost);
      if c.Paid? {
        EndAgrees(w, req, body, r1, depth);
        assert Frame(hooked, depth, req, body, w, r, n) == Ended(End(w, req, body, r1), depth);
        assert Code(hooked, depth, req, body, w, r, n) == Later(1, depth, Ending(req, body, w, r1));
      } else {
        UnpaidAgrees(hooked, depth, req, body, w, r, n);
      }
    }
  }

  /** An instruction that cannot be paid. */
  lemma {:induction false} UnpaidAgrees(hooked: set<Addr>, depth: nat, req: Request, body: Body, w: World, r: Resources,
                                        n: nat)
    requires Sized(w, n) && req.caller < n && req.callee < n && Within(body, n)
    requires !body.Fault? && !StepCost(r, body.cost).1.Paid?
    ensures FrameAgree(Frame(hooked, depth, req, body, w, r, n), Code(hooked, depth, req, body, w, r, n), w)
  {}

  lemma {:induction false} ComputeAgrees(hooked: set<Addr>, depth: nat, req: Request, body: Body, w: World,
                                         r: Resources, n: nat)
    requires Sized(w, n) && req.caller < n && req.callee < n && Within(body, n)
    requires body.Compute?
    ensures FrameAgree(Frame(hooked, depth, req, body, w, r, n), Code(hooked, depth, req, body, w, r, n), w)
    decreases body, 0, 0, 1
  {
    var (r1, c, _) := StepCost(r, body.cost);
    if !c.Paid? {
      UnpaidAgrees(hooked, depth, req, body, w, r, n);
    } else {
      var e := Wrote(Account(req), body.slot, body.word);
      var w1 := Apply(w, e);
      Single(w, e);
      FrameAgrees(hooked, depth, req, body.next, w1, r1, n);
      Resume(w, [e], w1, Frame(hooked, depth, req, body.next, w1, r1, n),
             Code(hooked, depth, req, body.next, w1, r1, n), 1, depth);
    }
  }

  lemma {:induction false} InvokeAgrees(hooked: set<Addr>, depth: nat, req: Request, body: Body, w: World, r: Resources,
                                        n: nat)
    requires Sized(w, n) && req.caller < n && req.callee < n && Within(body, n)
    requires body.Invoke?
    ensures FrameAgree(Frame(hooked, depth, req, body, w, r, n), Code(hooked, depth, req, body, w, r, n), w)
    decreases body, 0, 0, 1
  {
    var (r1, c, _) := StepCost(r, body.cost);
    if !c.Paid? {
      UnpaidAgrees(hooked, depth, req, body, w, r, n);
    } else {
      CallAgrees(hooked, false, EVM, depth + 1, body.request, body.hook, body.callee, w, r1, n);
      var o := Handle(hooked, false, EVM, depth + 1, body.request, body.hook, body.callee, w, r1, n);
      var j := Call(hooked, false, EVM, depth + 1, body.request, body.hook, body.callee, w, r1, n);
      RestAgrees(hooked, depth, req, body, w, o, j, n);
      assert Code(hooked, depth, req, body, w, r, n) == Later(1, depth, Resumed(hooked, depth, req, body, w, j, n));
    }
  }

  lemma {:induction false} EndAgrees(w: World, req: Request, body: Body, r: Resources, depth: nat)
    requires body.Finish? || body.Throw? || (body.Destruct? && body.beneficiary < |w.balance|)
    requires |w.balance| == |w.nonce| == |w.codeLen| && req.caller < |w.balance| && req.callee < |w.balance|
    ensures FrameAgree(Ended(End(w, req, body, r), depth), Later(1, depth, Ending(req, body, w, r)), w)
  {
    match body
    case Destruct(_, _, _) => DestructAgrees(w, req, body, r, depth);
    case Finish(_, failed, code, acceptable, deployCost) =>
      if !failed { CloseAgrees(w, [], w, req, code, acceptable, deployCost, r, depth); }
    case Throw(_) =>
  }

  /** A call inside a frame, and the frame after it. */
  lemma {:induction false} RestAgrees(hooked: set<Addr>, depth: nat, req: Request, body: Body, w: World, o: Outcome,
                                      j: Journal, n: nat)
    requires body.Invoke? && Sized(w, n) && req.caller < n && req.callee < n && Within(body, n)
    requires Agree(o, j, w) && (o.Done? ==> Sized(o.world, n))
    ensures var k := Later(1, depth, Resumed(hooked, depth, req, body, w, j, n));
            match o
            case Fatal(internal, s, d) => k == Cut(internal, 1 + s, Max(depth, d))
            case Done(w1, r1, result, s, d) =>
              match result
              case PreparationStepFailed => k == Closed([], r1.(ergs := 0), Failed, 1 + s, Max(depth, d))
              case Failed =>
                FrameAgree(After(1 + s, Max(depth, d), Frame(hooked, depth, req, body.bad, w1, r1, n)), k, w)
              case Successful =>
                FrameAgree(After(1 + s, Max(depth, d), Frame(hooked, depth, req, body.ok, w1, r1, n)), k, w)
    decreases body, 0, 0, 0
  {
    if o.Done? && !o.result.PreparationStepFailed? {
      var rest := if o.result.Successful? then body.ok else body.bad;
      var f := Frame(hooked, depth, req, rest, o.world, o.resources, n);
      var c := Code(hooked, depth, req, rest, o.world, o.resources, n);
      FrameAgrees(hooked, depth, req, rest, o.world, o.resources, n);
      Resume(w, j.events, o.world, f, c, 1 + o.steps, Max(depth, o.deepest));
      LaterTwice(1, depth, o.steps, o.deepest, Then(j.events, c));
    }
  }

  lemma LaterTwice(s: nat, d: nat, s': nat, d': nat, j: Journal)
    ensures Later(s, d, Later(s', d', j)) == Later(s + s', Max(d, d'), j)
  {}

  /** The rest of a frame, after events it commits. */
  lemma {:induction false} Resume(w: World, es: seq<Event>, w1: World, o: Outcome, j: Journal, steps: nat, deepest: nat)
    requires Makes(w, es, w1) && FrameAgree(o, j, w1) && (o.Done? ==> !o.result.PreparationStepFailed?)
    ensures FrameAgree(After(steps, deepest, o), Later(steps, deepest, Then(es, j)), w)
  {
    Onward(w, es, w1, j);
  }

  lemma {:induction false} Onward(w: World, es: seq<Event>, w1: World, j: Journal)
    requires w1 == ApplyAll(w, es) && Legal(w, es) && (j.Closed? ==> Legal(w1, j.events))
    ensures j.Closed? ==> ApplyAll(w, es + j.events) == ApplyAll(w1, j.events) && Legal(w, es + j.events)
  {
    if j.Closed? { Joined(w, es, j.events); }
  }

  lemma {:induction false} CloseAgrees(w: World, es: seq<Event>, w1: World, req: Request, code: nat, acceptable: bool,
                                       cost: Resources, r: Resources, depth: nat)
    requires req.callee < |w1.codeLen| && w1 == ApplyAll(w, es) && Legal(w, es)
    ensures FrameAgree(Ended(Close(w1, req, code, acceptable, cost, r), depth),
                       Later(1, depth, Then(es, Deployed(req, code, acceptable, cost, r))), w)
  {
    var j := Deployed(req, code, acceptable, cost, r);
    if j.Closed? {
      Joined(w, es, j.events);
      Single(w1, Coded(req.callee, code));
    }
  }

  lemma {:induction false} DestructAgrees(w: World, req: Request, body: Body, r: Resources, depth: nat)
    requires |w.balance| == |w.nonce| == |w.codeLen| && req.caller < |w.balance| && req.callee < |w.balance|
    requires body.Destruct? && body.beneficiary < |w.balance|
    ensures FrameAgree(Ended(End(w, req, body, r), depth),
                       Later(1, depth, Destructed(req, body.beneficiary, body.deployCost, w, r)), w)
  {
    var self := Account(req);
    var o := Deconstruct(w, self, body.beneficiary, req.modifier.Constructor?);
    if !IsStatic(req.modifier) && o.Some? {
      var es := Leaving(w, self, body.beneficiary, req.modifier.Constructor?);
      LeavingAgrees(w, self, body.beneficiary, req.modifier.Constructor?);
      KeepsSize(w, es, |w.balance|);
      var (r1, c) := Funding(w, o.value, self, body.beneficiary, r);
      if c.Paid? { CloseAgrees(w, es, o.value, req, 0, true, body.deployCost, r1, depth); }
    }
  }

  lemma {:induction false} LeavingAgrees(w: World, self: Addr, beneficiary: Addr, constructing: bool)
    requires self < |w.balance| && beneficiary < |w.balance|
    requires Deconstruct(w, self, beneficiary, constructing).Some?
    ensures var es := Leaving(w, self, beneficiary, constructing);
            Legal(w, es) && Deconstruct(w, self, beneficiary, constructing).value == ApplyAll(w, es)
  {
    var final := constructing || self in w.deployed;
    var a := if final then [Doomed(self)] else [];
    var e := if self != beneficiary then Sent(self, beneficiary, w.balance[self]) else Burnt(self, w.balance[self]);
    var w1 := ApplyAll(w, a);
    Single(w, Doomed(self));
    Single(w1, e);
    Joined(w, a, [e]);
    assert a + [] == a;
  }

  //// What the events make

  /** The last value written to a slot. */
  function LastWrite(es: seq<Event>, a: Addr, slot: nat): (o: Option<nat>) {
    if es == [] then None
    else
      var e := es[|es| - 1];
      if e.Wrote? && e.a == a && e.slot == slot then Some(e.word) else LastWrite(es[..|es| - 1], a, slot)
  }

  /** The last code given to an account. */
  function LastCode(es: seq<Event>, a: Addr): (o: Option<nat>) {
    if es == [] then None
    else
      var e := es[|es| - 1];
      if e.Coded? && e.a == a then Some(e.code) else LastCode(es[..|es| - 1], a)
  }

  function Credit(es: seq<Event>, a: Addr): (v: nat) {
    if es == [] then 0
    else
      var e := es[|es| - 1];
      Credit(es[..|es| - 1], a) + if e.Sent? && e.target == a then e.value else 0
  }

  /** What an account sent away or had burned. */
  function Debit(es: seq<Event>, a: Addr): (v: nat) {
    if es == [] then 0
    else
      var e := es[|es| - 1];
      Debit(es[..|es| - 1], a) + if (e.Sent? && e.source == a) || (e.Burnt? && e.a == a) then e.value else 0
  }

  function Burns(es: seq<Event>): (v: nat) {
    if es == [] then 0
    else
      var e := es[|es| - 1];
      Burns(es[..|es| - 1]) + if e.Burnt? then e.value else 0
  }

  function Ups(es: seq<Event>, a: Addr): (k: nat) {
    if es == [] then 0 else Ups(es[..|es| - 1], a) + if es[|es| - 1] == NonceUp(a) then 1 else 0
  }

  lemma {:induction false} Snoc(w: World, es: seq<Event>)
    requires es != []
    ensures var (init, e) := (es[..|es| - 1], es[|es| - 1]);
            && ApplyAll(w, es) == Apply(ApplyAll(w, init), e)
            && (Legal(w, es) ==> Legal(w, init) && Fits(ApplyAll(w, init), e))
  {
    var init, e := es[..|es| - 1], es[|es| - 1];
    assert es == init + [e];
    Joined(w, init, [e]);
    Single(ApplyAll(w, init), e);
  }

  /** A slot of `w'` holds `o`, or else what it held in `w`. */
  ghost predicate Holds(w: World, w': World, key: (Addr, nat), o: Option<nat>) {
    if o.Some? then key in w'.storage && w'.storage[key] == o.value
    else (key in w'.storage <==> key in w.storage) && (key in w.storage ==> w'.storage[key] == w.storage[key])
  }

  lemma {:induction false} StorageExact(w: World, es: seq<Event>, a: Addr, slot: nat)
    ensures Holds(w, ApplyAll(w, es), (a, slot), LastWrite(es, a, slot))
    decreases |es|
  {
    if es != [] {
      Snoc(w, es);
      StorageExact(w, es[..|es| - 1], a, slot);
    }
  }

  /** What events make of one account's balance, nonce and code, and of what has been burned. */
  ghost predicate Accounts(w: World, w': World, es: seq<Event>, a: Addr)
    requires a < |w.balance| == |w'.balance| && a < |w.nonce| == |w'.nonce| && a < |w.codeLen| == |w'.codeLen|
  {
    && w'.balance[a] + Debit(es, a) == w.balance[a] + Credit(es, a)
    && w'.nonce[a] == w.nonce[a] + Ups(es, a)
    && w'.codeLen[a] == (var c := LastCode(es, a); if c.Some? then c.value else w.codeLen[a])
    && w'.burned == w.burned + Burns(es) && w'.limit == w.limit
    && (a in w'.deployed <==> a in w.deployed || LastCode(es, a).Some?)
    && (a in w'.destroyed <==> a in w.destroyed || Doomed(a) in es)
  }

  lemma {:induction false} AccountsNext(w: World, w1: World, es: seq<Event>, e: Event, a: Addr, n: nat)
    requires Sized(w, n) && Sized(w1, n) && a < n && Accounts(w, w1, es, a) && Fits(w1, e)
    ensures Accounts(w, Apply(w1, e), es + [e], a)
  {
    assert (es + [e])[..|es|] == es;
    match e
    case Sent(source, target, value) =>
    case _ =>
  }

  lemma {:induction false} AccountsExact(w: World, es: seq<Event>, a: Addr, n: nat)
    requires Sized(w, n) && a < n && Legal(w, es)
    ensures Sized(ApplyAll(w, es), n) && Accounts(w, ApplyAll(w, es), es, a)
    decreases |es|
  {
    if es != [] {
      var init, e := es[..|es| - 1], es[|es| - 1];
      assert es == init + [e];
      Snoc(w, es);
      AccountsExact(w, init, a, n);
      var w1 := ApplyAll(w, init);
      assert ApplyAll(w, es) == Apply(w1, e);
      AccountsNext(w, w1, init, e, a, n);
    }
  }

  /** The storage and every account after a call that did not end the transaction are those of before, with the
      committed writes, payments, creations and self-destructs and no others; a failed call commits at most a creator's
      nonce. */
  lemma {:induction false} CallCommits(hooked: set<Addr>, entry: bool, caller: Environment, depth: nat, req: Request,
                                       hook: Hook, body: Body, w: World, r: Resources, n: nat, a: Addr, slot: nat)
    requires Sized(w, n) && Addressed(req, hook, n) && Within(body, n)
    ensures var o := Handle(hooked, entry, caller, depth, req, hook, body, w, r, n);
            var j := Call(hooked, entry, caller, depth, req, hook, body, w, r, n);
            if o.Fatal? then j == Cut(o.internal, o.steps, o.deepest)
            else
              && j.Closed? && j.result == o.result && j.left == o.resources
              && j.steps == o.steps && j.deepest == o.deepest
              && Holds(w, o.world, (a, slot), LastWrite(j.events, a, slot))
              && (a < n ==> Accounts(w, o.world, j.events, a))
              && (!o.result.Successful? ==> AtMostNonce(j.events, req, depth))
  {
    CallAgrees(hooked, entry, caller, depth, req, hook, body, w, r, n);
    var j := Call(hooked, entry, caller, depth, req, hook, body, w, r, n);
    if j.Closed? {
      StorageExact(w, j.events, a, slot);
      if a < n { AccountsExact(w, j.events, a, n); }
      CallFails(hooked, entry, caller, depth, req, hook, body, w, r, n);
    }
  }

  lemma {:induction false} CallFails(hooked: set<Addr>, entry: bool, caller: Environment, depth: nat, req: Request,
                                     hook: Hook, body: Body, w: World, r: Resources, n: nat)
    requires Sized(w, n) && Addressed(req, hook, n) && Within(body, n)
    ensures var j := Call(hooked, entry, caller, depth, req, hook, body, w, r, n);
            j.Closed? && !j.result.Successful? ==> AtMostNonce(j.events, req, depth)
  {
    var p := Prepare(entry, req, CalleeOf(w, req.callee), r);
    if p.Prepared? { CheckedFails(hooked, caller, depth, req, hook, body, w, p.callee, n); }
  }

  lemma {:induction false} CheckedFails(hooked: set<Addr>, caller: Environment, depth: nat, req: Request, hook: Hook,
                                        body: Body, w: World, r: Resources, n: nat)
    requires Sized(w, n) && Addressed(req, hook, n) && Within(body, n)
    ensures var j := Checked(hooked, caller, depth, req, hook, body, w, r, n);
            j.Closed? && !j.result.Successful? ==> AtMostNonce(j.events, req, depth)
  {
    var c := Checks(w, depth, req, r);
    if c.Closed? { assert c.events + [] == c.events; }
  }
}
