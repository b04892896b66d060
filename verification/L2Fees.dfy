/** An L2 transaction: its fee is paid beforehand, then its body runs, then the fee is refunded and passed on. */
module L2Fees {
  import opened Options
  import opened Digits
  import opened ResourceCounters
  import opened CallSemantics
  import opened CallSupply
  import opened CallFaults
  import opened CallMachine
  import opened L1Transactions

  /** `get_gas_price`, outside simulation. */
  function GasPrice(baseFee: nat, maxFee: nat, maxPriority: Option<nat>, limit: nat): (p: Option<nat>)
    requires baseFee < limit && maxFee < limit
  {
    var priorityCap := if maxPriority.Some? then maxPriority.value else maxFee;
    if priorityCap > maxFee || baseFee > maxFee then None
    else
      var room := maxFee - baseFee;
      var priority := if priorityCap < room then priorityCap else room;
      var sum := if baseFee + priority >= limit then limit - 1 else baseFee + priority;
      Some(if sum < maxFee then sum else maxFee)
  }

  /** The price covers the base fee, never exceeds what was offered, and leaves the operator at most the priority
      fee: exactly that when the offer has room for it. */
  lemma PriceWithinOffer(baseFee: nat, maxFee: nat, maxPriority: Option<nat>, limit: nat)
    requires baseFee < limit && maxFee < limit
    ensures var p := GasPrice(baseFee, maxFee, maxPriority, limit);
      var cap := if maxPriority.Some? then maxPriority.value else maxFee;
      && (p.Some? <==> cap <= maxFee && baseFee <= maxFee)
      && (p.Some? ==> baseFee <= p.value <= maxFee && p.value - baseFee <= cap)
      && (p.Some? ==> p.value == baseFee + cap || (p.value == maxFee && maxFee < baseFee + cap))
  {}

  /** How a prepaid fee is divided; `burned` is what neither side gets when base fees are burned. */
  datatype Division = Division(refund: nat, operator: nat, burned: nat)

  function Divide(info: RefundInfo, gasPrice: nat, baseFee: nat, burn: bool): (d: Division)
    requires info.gasRefund >= 0 && (burn ==> baseFee <= gasPrice)
  {
    MulPos(info.gasRefund, gasPrice);
    MulPos(info.gasUsed, gasPrice - if burn then baseFee else 0);
    MulPos(info.gasUsed, if burn then baseFee else 0);
    Division(info.gasRefund * gasPrice, info.gasUsed * (gasPrice - if burn then baseFee else 0),
             info.gasUsed * if burn then baseFee else 0)
  }

  /** Refund, operator payment and burned fees are the prepaid fee, whatever was executed. */
  lemma DivisionExact(pubdataNative: nat, gasLimit: nat, nativePerGas: nat, r: Resources, counter: nat, gasPrice: nat,
                      baseFee: nat, burn: bool)
    requires r.ergs <= gasLimit * ERGS_PER_GAS && gasLimit <= U64_MAX / 2 && (burn ==> baseFee <= gasPrice)
    ensures var info := ComputeGasRefund(pubdataNative, gasLimit, nativePerGas, r, counter);
      && info.gasRefund >= 0
      && var d := Divide(info, gasPrice, baseFee, burn);
        d.refund + d.operator + d.burned == gasPrice * gasLimit
  {
    RefundExact(pubdataNative, gasLimit, nativePerGas, r, counter);
    var info := ComputeGasRefund(pubdataNative, gasLimit, nativePerGas, r, counter);
    var base := if burn then baseFee else 0;
    Distrib(gasPrice, base, info.gasUsed);
    Distrib(info.gasRefund, info.gasUsed, gasPrice);
  }

  //// Validation

  /** What an L2 transaction offers, at the prices it is charged, and its root call. */
  datatype L2Tx = L2Tx(gasLimit: nat, maxFee: nat, gasPrice: nat, nativePerGas: nat, nativePerPubdata: nat,
                       baseFee: nat, burn: bool, caller: Environment, req: Request)

  /** The price lies between the base fee and the offer, as `PriceWithinOffer` says it does. */
  ghost predicate Priced(tx: L2Tx) {
    tx.gasPrice <= tx.maxFee && tx.gasLimit <= U64_MAX / 2 && (tx.burn ==> tx.baseFee <= tx.gasPrice)
  }

  ghost predicate Placed(tx: L2Tx, e: Surroundings, n: nat) {
    Addressed(tx.req, e.hook, n) && Within(e.body, n) && e.coinbase < n
  }

  function Fee(tx: L2Tx): (f: nat) {
    MulPos(tx.gasPrice, tx.gasLimit);
    tx.gasPrice * tx.gasLimit
  }

  /** `required_balance`: the whole offer and the value. */
  function Required(tx: L2Tx): (f: nat)
    ensures f - tx.req.value == tx.maxFee * tx.gasLimit
    ensures tx.gasPrice <= tx.maxFee ==> Fee(tx) + tx.req.value <= f
  {
    MulPos(tx.maxFee, tx.gasLimit);
    if tx.gasPrice <= tx.maxFee then MulMono(tx.gasPrice, tx.maxFee, tx.gasLimit);
      tx.maxFee * tx.gasLimit + tx.req.value
    else tx.maxFee * tx.gasLimit + tx.req.value
  }

  /** The sender can pay for everything the transaction offers, and has a nonce left. */
  predicate Affordable(tx: L2Tx, w: World)
    requires tx.req.caller < |w.balance| && tx.req.caller < |w.nonce|
  {
    Required(tx) < w.limit && Required(tx) <= w.balance[tx.req.caller] && w.nonce[tx.req.caller] < U64_MAX
  }

  /** The world after the nonce moves and the whole fee is taken from the sender. */
  function Debited(w: World, from: Addr, fee: nat): (w': World)
    requires from < |w.balance| && from < |w.nonce| && fee <= w.balance[from]
    ensures |w'.balance| == |w.balance| && |w'.nonce| == |w.nonce| && w'.codeLen == w.codeLen
    ensures Sum(w'.balance) + fee == Sum(w.balance) && w'.limit == w.limit && w'.burned == w.burned
    ensures w'.balance[from] + fee == w.balance[from] && w'.nonce[from] == w.nonce[from] + 1
    ensures forall a :: 0 <= a < |w.balance| && a != from ==> w'.balance[a] == w.balance[a]
    ensures forall a :: 0 <= a < |w.nonce| && a != from ==> w'.nonce[a] == w.nonce[a]
    ensures w' == w.(balance := w'.balance, nonce := w'.nonce)
  {
    SumUpdate(w.balance, from, w.balance[from] - fee);
    w.(balance := w.balance[from := w.balance[from] - fee], nonce := w.nonce[from := w.nonce[from] + 1])
  }

  /** The parts of `validate` and `pay_for_transaction` that touch the sender's account. */
  method Charge(system: System, tx: L2Tx, ghost n: nat) returns (ok: bool)
    requires Sized(system.world, n) && tx.req.caller < n && Priced(tx)
    modifies system`world
    ensures ok <==> Affordable(tx, old(system.world))
    ensures system.world == if ok then Debited(old(system.world), tx.req.caller, Fee(tx)) else old(system.world)
  {
    var balance, nonce := system.world.balance[tx.req.caller], system.world.nonce[tx.req.caller];
    if Required(tx) >= system.world.limit || Required(tx) > balance || nonce >= U64_MAX { return false; }
    system.world := system.world.(nonce := system.world.nonce[tx.req.caller := nonce + 1]);
    system.world := system.world.(balance := system.world.balance[tx.req.caller := balance - Fee(tx)]);
    return true;
  }

  /** `charge_for_validation_pubdata_using_withheld`: withheld native first, then the main one. */
  function FromWithheld(main: nat, withheld: nat, cost: nat): (o: Option<(nat, nat)>)
    ensures o.Some? <==> cost <= main + withheld
    ensures o.Some? ==> o.value.0 + o.value.1 + cost == main + withheld && o.value.0 <= main && o.value.1 <= withheld
    ensures o.Some? && o.value.0 < main ==> o.value.1 == 0
  {
    if cost <= withheld then Some((main, withheld - cost))
    else if withheld == 0 then (if cost <= main then Some((main - cost, 0)) else None)
    else if cost - withheld <= main then Some((main - (cost - withheld), 0)) else None
  }

  //// Execution

  /** `get_resources_to_charge_for_pubdata` beyond what was there before; overflow is an internal error. */
  function NetPubdata(e: Surroundings, w: World, base: nat, nativePerPubdata: nat): (o: Option<nat>)
    ensures base >= e.pubdata(w) ==> o == Some(0)
    ensures PubdataNative(e, w, nativePerPubdata).Some? ==> o.Some?
    ensures base < e.pubdata(w) ==>
      (o.Some? <==> (e.pubdata(w) - base) * ToU64(nativePerPubdata) <= U64_MAX)
    ensures base < e.pubdata(w) && o.Some? ==> o.value == (e.pubdata(w) - base) * ToU64(nativePerPubdata)
  {
    var net := if e.pubdata(w) <= base then 0 else e.pubdata(w) - base;
    MulPos(net, ToU64(nativePerPubdata));
    MulMono(net, e.pubdata(w), ToU64(nativePerPubdata));
    if net * ToU64(nativePerPubdata) > U64_MAX then None else Some(net * ToU64(nativePerPubdata))
  }

  ghost predicate L2BurnFree(tx: L2Tx, e: Surroundings) {
    HookBurnFree(tx.req, e.hook) && BurnFree(e.body, Self(tx.req))
  }

  ghost function BodyOutcome(tx: L2Tx, e: Surroundings, w: World, r: Resources, n: nat): (o: Outcome)
    requires Sized(w, n) && Placed(tx, e, n)
  {
    Handle(e.hooked, true, tx.caller, 0, tx.req, e.hook, e.body, w, r, n)
  }

  /** `sem` is what the root call does, as a function of the world and the resources it starts from. */
  ghost predicate BodyMeans(sem: (World, Resources) -> Outcome, tx: L2Tx, e: Surroundings, n: nat)
    requires Placed(tx, e, n)
  {
    forall w, r {:trigger BodyOutcome(tx, e, w, r, n)} :: Sized(w, n) ==> sem(w, r) == BodyOutcome(tx, e, w, r, n)
  }

  method RunBodyCall(system: System, tx: L2Tx, e: Surroundings, r: Resources, ghost sem: (World, Resources) -> Outcome,
                     ghost n: nat)
    returns (reply: Reply)
    requires Sized(system.world, n) && Placed(tx, e, n) && BodyMeans(sem, tx, e, n)
    modifies system
    ensures old(system.saved) <= system.saved
    ensures var o := sem(old(system.world), r);
            && reply == (if o.Fatal? then Error(o.internal) else Completed(o.resources, o.result))
            && (reply != Error(true) ==>
                  system.world == if o.Done? && o.result.Successful? then o.world else old(system.world))
    ensures reply.Completed? ==> reply.resources.ergs <= r.ergs
    ensures reply != Error(true) ==>
      Sized(system.world, n) && Conserves(old(system.world), system.world, L2BurnFree(tx, e))
    ensures SoundRoot(tx.caller, tx.req, e.hook, e.body) && Bound(old(system.world)) ==> reply != Error(true)
  {
    assert sem(system.world, r) == BodyOutcome(tx, e, system.world, r, n);
    ghost var steps;
    reply, steps := RunTransaction(system, e.hooked, tx.caller, tx.req, r, e.hook, e.body, n);
  }

  /** The root call succeeds, and what it left with what was withheld pays for the pubdata it added. */
  ghost predicate BodySucceeds(e: Surroundings, price: nat, withheld: nat, base: nat, root: Outcome) {
    && root.Done? && root.result.Successful?
    && (base < e.pubdata(root.world) ==>
          && (e.pubdata(root.world) - base) * ToU64(price) <= U64_MAX
          && (e.pubdata(root.world) - base) * ToU64(price) <= root.resources.native + withheld)
  }

  /** How a body ends, by the outcome of its root call: without success it has no pubdata to pay. */
  ghost function L2End(e: Surroundings, r: Resources, price: nat, withheld: nat, base: nat,
                       root: Outcome): (x: Execution) {
    if root.Fatal? then (if root.internal then Broken else Ran(false, Resources(0, r.native + withheld), 0))
    else
      var left := Resources(root.resources.ergs, root.resources.native + withheld);
      if BodySucceeds(e, price, withheld, base, root) then Ran(true, left, NetPubdata(e, root.world, base, price).value)
      else if root.result.Successful? && NetPubdata(e, root.world, base, price).None? then Broken
      else Ran(false, left, 0)
  }

  /** `transaction_execution` under its snapshot: exhaustion, a revert, or pubdata that cannot be paid undoes everything,
      and then there is no pubdata to pay. */
  method RunBody(system: System, tx: L2Tx, e: Surroundings, r: Resources, withheld: nat, base: nat,
                 ghost sem: (World, Resources) -> Outcome, ghost n: nat)
    returns (o: Execution)
    requires Sized(system.world, n) && Placed(tx, e, n) && base == e.pubdata(system.world) && BodyMeans(sem, tx, e, n)
    modifies system
    ensures old(system.saved) <= system.saved
    ensures !o.Exhausted?
    ensures var root := sem(old(system.world), r);
            && o == L2End(e, r, tx.nativePerPubdata, withheld, base, root)
            && (o.Ran? && o.success <==> BodySucceeds(e, tx.nativePerPubdata, withheld, base, root))
            && (o.Ran? ==> system.world == if o.success then root.world else old(system.world))
    ensures o.Ran? ==> Sized(system.world, n) && o.resources.ergs <= r.ergs
    ensures o.Ran? ==> Conserves(old(system.world), system.world, !o.success || L2BurnFree(tx, e))
    ensures o.Ran? && !o.success ==> o.pubdataNative == 0
    ensures o.Ran? && o.success ==> o.pubdataNative <= o.resources.native
    ensures o.Ran? && o.success ==> NetPubdata(e, system.world, base, tx.nativePerPubdata) == Some(o.pubdataNative)
    ensures SoundRoot(tx.caller, tx.req, e.hook, e.body) && Bound(old(system.world)) ==>
      Chargeable(e, tx.nativePerPubdata) ==> o.Ran?
  {
    var handle := system.StartFrame();
    var reply := RunBodyCall(system, tx, e, r, sem, n);
    if reply == Error(true) { return Broken; }
    var success, left := false, r.(ergs := 0);
    if reply.Completed? {
      left := reply.resources;
      var cost := NetPubdata(e, system.world, base, tx.nativePerPubdata);
      if cost.None? {
        assert PubdataNative(e, system.world, tx.nativePerPubdata).None?;
        return Broken;
      }
      success := reply.result.Successful? && cost.value <= left.native + withheld;
      if success {
        system.FinishFrame(None);
        return Ran(true, left.(native := left.native + withheld), cost.value);
      }
    }
    system.FinishFrame(Some(handle));
    return Ran(false, left.(native := left.native + withheld), 0);
  }

  //// Settlement

  /** Every balance after settlement: the sender gets the unused gas back, the operator the price of the gas used. */
  ghost predicate Settled(tx: L2Tx, coinbase: Addr, executed: World, w: World, gasUsed: nat)
    requires tx.req.caller < |executed.balance| && coinbase < |executed.balance|
  {
    var refund, tip := (tx.gasLimit - gasUsed) * tx.gasPrice, gasUsed * (tx.gasPrice - if tx.burn then tx.baseFee else 0);
    refund >= 0 && tip >= 0 && w == Credited(Credited(executed, tx.req.caller, refund), coinbase, tip)
  }

  /** Refund and operator's pay fit the balances they go to. */
  ghost predicate Repayable(tx: L2Tx, e: Surroundings, w: World, gasUsed: nat) {
    && tx.req.caller < |w.balance| && e.coinbase < |w.balance|
    && var refund := (tx.gasLimit - gasUsed) * tx.gasPrice;
       var tip := gasUsed * (tx.gasPrice - if tx.burn then tx.baseFee else 0);
       && w.balance[tx.req.caller] + refund < w.limit
       && w.balance[e.coinbase] + (if e.coinbase == tx.req.caller then refund else 0) + tip < w.limit
  }

  /** `refund_transaction_and_pay_operator` */
  method PayBack(system: System, tx: L2Tx, e: Surroundings, pubdataNative: nat, left: Resources)
    returns (ok: bool, gasUsed: nat)
    requires tx.req.caller < |system.world.balance| && e.coinbase < |system.world.balance|
    requires left.ergs <= tx.gasLimit * ERGS_PER_GAS && Priced(tx)
    modifies system`world
    ensures Sum(old(system.world.balance)) + Fee(tx) < old(system.world.limit) ==> ok
    ensures gasUsed == ComputeGasRefund(pubdataNative, tx.gasLimit, tx.nativePerGas, left, e.refundCounter).gasUsed
    ensures ok <==> Repayable(tx, e, old(system.world), gasUsed)
    ensures ok ==> gasUsed <= tx.gasLimit && Settled(tx, e.coinbase, old(system.world), system.world, gasUsed)
    ensures ok ==> system.world.burned == old(system.world.burned) && system.world.limit == old(system.world.limit)
    ensures ok ==>
      Sum(system.world.balance) + gasUsed * (if tx.burn then tx.baseFee else 0) == Sum(old(system.world.balance)) + Fee(tx)
  {
    RefundExact(pubdataNative, tx.gasLimit, tx.nativePerGas, left, e.refundCounter);
    DivisionExact(pubdataNative, tx.gasLimit, tx.nativePerGas, left, e.refundCounter, tx.gasPrice, tx.baseFee, tx.burn);
    var info := ComputeGasRefund(pubdataNative, tx.gasLimit, tx.nativePerGas, left, e.refundCounter);
    var d := Divide(info, tx.gasPrice, tx.baseFee, tx.burn);
    gasUsed := info.gasUsed;
    ok := Mint(system, tx.req.caller, d.refund);
    if ok { ok := Mint(system, e.coinbase, d.operator); }
  }

  /** How a transaction ended: rejected by validation, with an internal error, or processed. */
  datatype L2Result = Rejected | Aborted | Processed(success: bool, gasUsed: nat)

  /** What the body of a transaction runs on once the fee is charged: native, what is withheld, and the pubdata so far,
      which validation pays for. */
  ghost function Validated(tx: L2Tx, e: Surroundings, w: World, main: nat, withheld: nat): (o: Option<(nat, nat)>) {
    var cost := PubdataNative(e, w, tx.nativePerPubdata);
    if cost.None? then None else FromWithheld(main, withheld, cost.value)
  }

  /** How the body of a charged transaction ends, given what it runs on. */
  ghost function BodyEnd(tx: L2Tx, e: Surroundings, charged: World, ergs: nat, native: nat, withheld: nat,
                         sem: (World, Resources) -> Outcome): (x: Execution)
  {
    var r := Resources(ergs, native);
    L2End(e, r, tx.nativePerPubdata, withheld, e.pubdata(charged), sem(charged, r))
  }

  /** A charged transaction is processed: its validation is paid for, its body does not break, and it can be settled.
      The world before settlement is the body's exactly when it succeeds; `RefundExact` says what gas it is charged. */
  ghost predicate Processes(tx: L2Tx, e: Surroundings, charged: World, main: Resources, withheld: nat,
                            sem: (World, Resources) -> Outcome, success: bool, gasUsed: nat, executed: World)
  {
    var paid := Validated(tx, e, charged, main.native, withheld);
    paid.Some?
    && var (m, h) := paid.value;
       var root, x := sem(charged, Resources(main.ergs, m)), BodyEnd(tx, e, charged, main.ergs, m, h, sem);
       && (success <==> BodySucceeds(e, tx.nativePerPubdata, h, e.pubdata(charged), root))
       && executed == (if success then root.world else charged)
       && x.Ran? && x.resources.ergs <= tx.gasLimit * ERGS_PER_GAS
       && gasUsed ==
            ComputeGasRefund(x.pubdataNative, tx.gasLimit, tx.nativePerGas, x.resources, e.refundCounter).gasUsed
       && Repayable(tx, e, executed, gasUsed)
  }

  /** Charge, validation pubdata, body and settlement of an L2 transaction. Over the whole transaction only the base fee
      of the gas used and what its body burns leave circulation, for every call tree; a failed body changes nothing but
      fee and nonce; and a sender that can pay is served, as long as there is no internal error in what it runs and the
      total supply fits a balance. `executed` is the world between execution and settlement, and `sem` the root call. */
  method ProcessL2Transaction(system: System, tx: L2Tx, e: Surroundings, main: Resources, withheld: nat,
                              ghost sem: (World, Resources) -> Outcome, ghost n: nat)
    returns (o: L2Result, ghost executed: World)
    requires Sized(system.world, n) && Placed(tx, e, n) && Priced(tx) && main.ergs <= tx.gasLimit * ERGS_PER_GAS
    requires BodyMeans(sem, tx, e, n)
    modifies system
    ensures old(system.saved) <= system.saved
    ensures !Affordable(tx, old(system.world)) ==> o.Rejected? && system.world == old(system.world)
    ensures o.Processed? ==> Affordable(tx, old(system.world)) && o.gasUsed <= tx.gasLimit
    ensures o.Processed? ==> Sized(executed, n) && Settled(tx, e.coinbase, executed, system.world, o.gasUsed)
    ensures Affordable(tx, old(system.world)) ==>
      var charged := Debited(old(system.world), tx.req.caller, Fee(tx));
      && (o.Processed? ==> Processes(tx, e, charged, main, withheld, sem, o.success, o.gasUsed, executed))
      && (o.Processed? <==> exists s, g, w :: Processes(tx, e, charged, main, withheld, sem, s, g, w))
      && (o.Rejected? <==> var cost := PubdataNative(e, charged, tx.nativePerPubdata);
                           cost.Some? && cost.value > main.native + withheld)
    ensures o.Processed? ==>
      Supply(system.world) + o.gasUsed * (if tx.burn then tx.baseFee else 0) == Supply(old(system.world))
    ensures o.Processed? ==> old(system.world.burned) <= system.world.burned
    ensures o.Processed? && (!o.success || L2BurnFree(tx, e)) ==> system.world.burned == old(system.world.burned)
    ensures Affordable(tx, old(system.world)) && Servable(tx, e, old(system.world), main.native + withheld) ==>
      o.Processed?
  {
    executed := system.world;
    var ok := Charge(system, tx, n);
    if !ok { return Rejected, executed; }
    ghost var charged := system.world;
    var cost := PubdataNative(e, system.world, tx.nativePerPubdata);
    if cost.None? { return Aborted, executed; }
    var split := FromWithheld(main.native, withheld, cost.value);
    if split.None? { return Rejected, executed; }
    var end := RunBody(system, tx, e, main.(native := split.value.0), split.value.1, e.pubdata(system.world), sem, n);
    if end.Broken? { return Aborted, executed; }
    executed := system.world;
    var gasUsed;
    ok, gasUsed := PayBack(system, tx, e, end.pubdataNative, end.resources);
    if !ok { return Aborted, executed; }
    return Processed(end.success, gasUsed), executed;
  }

  /** No internal error in what is run, the pubdata of validation can be paid, and neither its price nor the total
      supply overflows. */
  ghost predicate Servable(tx: L2Tx, e: Surroundings, w: World, native: nat)
    requires tx.req.caller < |w.balance| && tx.req.caller < |w.nonce| && Fee(tx) <= w.balance[tx.req.caller]
  {
    && SoundRoot(tx.caller, tx.req, e.hook, e.body) && Bound(w) && Chargeable(e, tx.nativePerPubdata)
    && PubdataNative(e, Debited(w, tx.req.caller, Fee(tx)), tx.nativePerPubdata).value <= native
  }
}
