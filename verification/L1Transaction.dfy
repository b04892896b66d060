/** Gas limits, refunds, and transactions deposited on L1. */
module L1Transactions {
  import opened Options
  import opened Digits
  import opened ResourceCounters
  import opened CallSemantics
  import opened CallProperties
  import opened CallSupply
  import opened CallFaults
  import opened CallMachine

  const CALLDATA_ZERO_BYTE_GAS_COST: nat := 4
  const CALLDATA_NON_ZERO_BYTE_GAS_COST: nat := 16
  const COPY_BYTE_NATIVE_COST: nat := 1
  const L1_TX_INTRINSIC_L2_GAS: nat := 21_000
  const L1_TX_INTRINSIC_NATIVE_COST: nat := 130_000
  const L1_TX_INTRINSIC_PUBDATA: nat := 88 + 32 + 33
  const L1_TX_NATIVE_PRICE: nat := 10
  const UPGRADE_TX_NATIVE_PER_GAS: nat := 10_000

  datatype TxError = Validation | Internal
  datatype Result<+T> = Ok(value: T) | Err(error: TxError)

  //// gas_helpers

  datatype ResourcesForTx = ResourcesForTx(main: Resources, withheld: Resources, charged: nat)

  function ToU64(x: nat): (r: nat)
    ensures r <= U64_MAX && (r == 0 <==> x == 0)
  {
    if x > U64_MAX then U64_MAX else x
  }

  function Zeros(calldata: seq<nat>): (n: nat)
    ensures n == multiset(calldata)[0] <= |calldata|
  {
    assert calldata == [] || calldata == [calldata[0]] + calldata[1..];
    if calldata == [] then 0 else Zeros(calldata[1..]) + if calldata[0] == 0 then 1 else 0
  }

  /** `cost_for_calldata` */
  function CostForCalldata(calldata: seq<nat>): (c: (nat, nat))
    ensures c.0 + 12 * multiset(calldata)[0] == 16 * |calldata| && c.0 >= 4 * |calldata| && c.1 == |calldata|
  {
    (Zeros(calldata) * CALLDATA_ZERO_BYTE_GAS_COST + (|calldata| - Zeros(calldata)) * CALLDATA_NON_ZERO_BYTE_GAS_COST,
     |calldata| * COPY_BYTE_NATIVE_COST)
  }

  /** Native bought by the gas limit; a zero price buys without limit. */
  function NativeLimit(gasLimit: nat, nativePerGas: nat): (n: nat) {
    if nativePerGas == 0 then U64_MAX else SaturatingMul(gasLimit, ToU64(nativePerGas))
  }

  /** A subtraction that an L1 transaction is allowed to exhaust. */
  function Deduct(from: nat, amount: nat, isL1: bool): (o: Option<nat>)
    ensures o.Some? <==> amount <= from || isL1
    ensures o.Some? ==> o.value == if amount <= from then from - amount else 0
  {
    if amount <= from then Some(from - amount) else if isL1 then Some(0) else None
  }

  /** `get_resources_for_tx` */
  function GetResourcesForTx(gasLimit: nat, nativePerPubdata: nat, nativePerGas: nat, calldata: seq<nat>,
                             intrinsicGas: nat, intrinsicPubdata: nat, intrinsicNative: nat,
                             isL1: bool): (r: Result<ResourcesForTx>)
  {
    var overhead := ToU64(nativePerPubdata) * intrinsicPubdata;
    if overhead > U64_MAX then Err(Internal) else
    var limit := Deduct(NativeLimit(gasLimit, nativePerGas),
                        (MulPos(ToU64(nativePerPubdata), intrinsicPubdata); overhead), isL1);
    if limit.None? then Err(Validation) else
    var computational := if limit.value <= MAX_NATIVE_COMPUTATIONAL then limit.value else MAX_NATIVE_COMPUTATIONAL;
    var (calldataGas, calldataNative) := CostForCalldata(calldata);
    var charged := calldataNative + intrinsicNative;
    if charged > U64_MAX then Err(Validation) else
    var native := Deduct(computational, charged, isL1);
    if native.None? then Err(Validation) else
    var gas := calldataGas + intrinsicGas;
    if gas > U64_MAX then Err(Internal)
    else if gas > gasLimit && !isL1 then Err(Validation)
    else
      var left := if gas <= gasLimit then gasLimit - gas else 0;
      if left * ERGS_PER_GAS > U64_MAX then Err(Internal)
      else Ok(ResourcesForTx(Resources(left * ERGS_PER_GAS, native.value), Resources(0, limit.value - computational), charged))
  }

  /** When a transaction gets resources at all: the sums fit 64 bits, and only an L1 transaction may be short. */
  lemma LimitsGranted(gasLimit: nat, npp: nat, npg: nat, calldata: seq<nat>, iGas: nat, iPub: nat, iNative: nat,
                      isL1: bool)
    ensures var overhead, gas := ToU64(npp) * iPub, CostForCalldata(calldata).0 + iGas;
            var full, charged := NativeLimit(gasLimit, npg), |calldata| + iNative;
            GetResourcesForTx(gasLimit, npp, npg, calldata, iGas, iPub, iNative, isL1).Ok? <==>
              && overhead <= U64_MAX && charged <= U64_MAX && gas <= U64_MAX
              && (gasLimit - gas) * ERGS_PER_GAS <= U64_MAX
              && (isL1 || (overhead + charged <= full && charged <= MAX_NATIVE_COMPUTATIONAL && gas <= gasLimit))
  {
    MulPos(ToU64(npp), iPub);
  }

  /** The limits are divided without loss: gas between intrinsic cost and execution, native between pubdata,
      intrinsic cost, execution and the part withheld for pubdata. An L1 transaction that is short gets nothing. */
  lemma LimitsDivided(gasLimit: nat, npp: nat, npg: nat, calldata: seq<nat>, iGas: nat, iPub: nat, iNative: nat,
                      isL1: bool)
    requires GetResourcesForTx(gasLimit, npp, npg, calldata, iGas, iPub, iNative, isL1).Ok?
    ensures var r := GetResourcesForTx(gasLimit, npp, npg, calldata, iGas, iPub, iNative, isL1).value;
            var overhead, gas := ToU64(npp) * iPub, CostForCalldata(calldata).0 + iGas;
            var full, computed := NativeLimit(gasLimit, npg), r.main.native + r.charged;
            && r.charged == |calldata| + iNative && r.withheld.ergs == 0
            && (if gas <= gasLimit then r.main.ergs + gas * ERGS_PER_GAS == gasLimit * ERGS_PER_GAS
                else r.main.ergs == 0)
            && (if overhead + r.charged <= full && r.charged <= MAX_NATIVE_COMPUTATIONAL
                then computed + r.withheld.native + overhead == full
                else
                  && r.main.native == 0
                  && (r.withheld.native == 0 || r.withheld.native + MAX_NATIVE_COMPUTATIONAL + overhead == full))
            && r.main.native <= MAX_NATIVE_COMPUTATIONAL
            && (r.withheld.native > 0 && r.main.native > 0 ==> computed == MAX_NATIVE_COMPUTATIONAL)
            && r.main.ergs <= gasLimit * ERGS_PER_GAS && r.main.native + r.withheld.native <= full
  {
    MulPos(ToU64(npp), iPub);
  }

  //// Refund

  datatype RefundInfo = RefundInfo(gasRefund: int, gasUsed: nat, evmRefund: nat, nativeUsed: nat)

  /** Wrapping subtraction and signed reading of 64-bit counters. */
  function WrapSub(a: nat, b: nat): (r: nat)
    ensures b <= a <= U64_MAX ==> r == a - b
  {
    (a - b) % (U64_MAX + 1)
  }

  function AsI64(x: nat): (r: int) { if x <= U64_MAX / 2 then x else x - (U64_MAX + 1) }

  /** `compute_gas_refund` */
  function ComputeGasRefund(pubdataNative: nat, gasLimit: nat, nativePerGas: nat, r: Resources,
                            counter: nat): (i: RefundInfo)
    requires r.ergs <= gasLimit * ERGS_PER_GAS
  {
    var native := WrapSub(r.native, pubdataNative);
    var beforeRefund := gasLimit - r.ergs / ERGS_PER_GAS;
    var evmRefund := if counter < beforeRefund / 5 then counter else beforeRefund / 5;
    var gasUsed := beforeRefund - evmRefund;
    var fullLimit := NativeLimit(gasLimit, nativePerGas);
    var nativeUsed := if native <= fullLimit then fullLimit - native else 0;
    var perGas := ToU64(nativePerGas);
    var delta := if perGas == 0 then 0 else AsI64(nativeUsed / perGas) - AsI64(gasUsed);
    var adjusted := if delta > 0 then gasUsed + delta else gasUsed;
    RefundInfo(gasLimit - adjusted, adjusted, evmRefund, nativeUsed)
  }

  /** The native bought is the limit at its price, as far as 64 bits go. */
  lemma NativeBought(gasLimit: nat, nativePerGas: nat)
    ensures var n := NativeLimit(gasLimit, nativePerGas);
            && n <= U64_MAX && (nativePerGas > 0 ==> n <= gasLimit * nativePerGas)
            && (n == U64_MAX || n == gasLimit * nativePerGas)
  {
    if nativePerGas > U64_MAX && gasLimit > 0 {
      MulMono(1, gasLimit, U64_MAX);
      MulMono(U64_MAX, nativePerGas, gasLimit);
    }
  }

  /** Native bought by the limit never prices above it. */
  lemma NativeWithinGas(gasLimit: nat, nativePerGas: nat, used: nat)
    requires nativePerGas > 0 && used <= NativeLimit(gasLimit, nativePerGas)
    ensures 0 <= used / ToU64(nativePerGas) <= gasLimit
  {
    var p := ToU64(nativePerGas);
    MulPos(gasLimit, p);
    DivModDef(used, p);
    if used / p > gasLimit { MulMono(gasLimit + 1, used / p, p); Distrib(gasLimit, 1, p); }
  }

  /** Used and refunded gas add up to the limit, the refund counter is paid out up to a fifth of the gas spent, native
      used and left after pubdata are what was bought, and native use beyond the gas accounted for is turned into gas. */
  lemma RefundExact(pubdataNative: nat, gasLimit: nat, nativePerGas: nat, r: Resources, counter: nat)
    requires r.ergs <= gasLimit * ERGS_PER_GAS && gasLimit <= U64_MAX / 2
    ensures var i := ComputeGasRefund(pubdataNative, gasLimit, nativePerGas, r, counter);
            var spent, full := gasLimit - r.ergs / ERGS_PER_GAS, NativeLimit(gasLimit, nativePerGas);
            var left := r.native - pubdataNative;
            && i.gasUsed + i.gasRefund == gasLimit && i.gasRefund >= 0
            && i.evmRefund <= counter && 5 * i.evmRefund <= spent
            && (i.evmRefund == counter || 5 * (i.evmRefund + 1) > spent)
            && i.nativeUsed <= full
            && (0 <= left <= full && r.native <= U64_MAX ==> i.nativeUsed + left == full)
            && (full < left && r.native <= U64_MAX ==> i.nativeUsed == 0)
            && spent - i.evmRefund <= i.gasUsed
            && (nativePerGas > 0 ==> i.gasUsed >= i.nativeUsed / ToU64(nativePerGas))
            && (i.gasUsed == spent - i.evmRefund
                || (nativePerGas > 0 && i.gasUsed == i.nativeUsed / ToU64(nativePerGas)))
  {
    var i := ComputeGasRefund(pubdataNative, gasLimit, nativePerGas, r, counter);
    if nativePerGas > 0 { NativeWithinGas(gasLimit, nativePerGas, i.nativeUsed); }
  }

  /** Pubdata that was charged for but not covered wraps around: what is taken for left is close to `2^64`. */
  lemma RefundWraps(pubdataNative: nat, gasLimit: nat, nativePerGas: nat, r: Resources, counter: nat)
    requires r.ergs <= gasLimit * ERGS_PER_GAS && r.native < pubdataNative <= U64_MAX
    ensures var i := ComputeGasRefund(pubdataNative, gasLimit, nativePerGas, r, counter);
            var left, full := r.native + U64_MAX + 1 - pubdataNative, NativeLimit(gasLimit, nativePerGas);
            i.nativeUsed == if left <= full then full - left else 0
  {
    assert WrapSub(r.native, pubdataNative) == r.native + U64_MAX + 1 - pubdataNative;
  }

  //// Deposits

  /** An L1 transaction with the native costs of the system operations around its execution. */
  datatype L1Tx = L1Tx(gasLimit: nat, gasPrice: nat, gasPerPubdata: nat, value: nat, deposited: nat, from: Addr,
                       to: Addr,
                       refundRecipient: Addr, calldata: seq<nat>, isPriority: bool,
                       hashNative: nat, mintNative: nat, readNative: nat, costs: Costs)

  /** What lies outside the transaction: the fee recipient, the pubdata meter, the refund counter, the hooks, and what
      the called code does. */
  datatype Surroundings = Surroundings(coinbase: Addr, pubdata: World -> nat, refundCounter: nat,
                                       hooked: set<Addr>, hook: Hook, body: Body)

  datatype TxResult = TxResult(success: bool, gasUsed: nat, paid: nat, refunded: nat)

  ghost predicate Located(tx: L1Tx, e: Surroundings, n: nat) {
    && Addressed(RootCall(tx, Resources(0, 0)), e.hook, n) && Within(e.body, n)
    && tx.refundRecipient < n && e.coinbase < n
  }

  /** `amount` was minted; whatever else left the balances was burned, and nothing if `free`. */
  ghost predicate Grew(w: World, w': World, amount: nat, free: bool) {
    && Supply(w') == Supply(w) + amount && w'.limit == w.limit && w.burned <= w'.burned
    && (free ==> w'.burned == w.burned)
  }

  /** The transaction cannot burn: it makes no withdrawal, and nothing it runs self-destructs to itself. */
  predicate TxBurnFree(tx: L1Tx, e: Surroundings) {
    HookBurnFree(RootCall(tx, Resources(0, 0)), e.hook) && BurnFree(e.body, tx.to)
  }

  predicate TxSound(e: Surroundings) { SoundHook(e.hook) && Sound(e.body) }

  /** The world after `amount` is added to the balance of `a`. */
  function Credited(w: World, a: Addr, amount: nat): (w': World)
    requires a < |w.balance|
    ensures Sum(w'.balance) == Sum(w.balance) + amount && w'.limit == w.limit && w'.burned == w.burned
    ensures |w'.balance| == |w.balance| && forall b :: 0 <= b < |w.balance| && b != a ==> w'.balance[b] == w.balance[b]
    ensures w'.balance[a] == w.balance[a] + amount && w' == w.(balance := w'.balance)
  {
    SumUpdate(w.balance, a, w.balance[a] + amount);
    w.(balance := w.balance[a := w.balance[a] + amount])
  }

  /** `mint_token`; a balance that would overflow is an error, which a bound on the total supply rules out. */
  method Mint(system: System, to: Addr, amount: nat) returns (ok: bool)
    requires to < |system.world.balance|
    modifies system`world
    ensures ok <==> old(system.world.balance[to]) + amount < old(system.world.limit)
    ensures old(Sum(system.world.balance)) + amount < old(system.world.limit) ==> ok
    ensures system.world == if ok then Credited(old(system.world), to, amount) else old(system.world)
  {
    BalanceBelowTotal(system.world.balance, to);
    ok := system.world.balance[to] + amount < system.world.limit;
    if ok {
      system.world := system.world.(balance := system.world.balance[to := system.world.balance[to] + amount]);
    }
  }

  /** How an execution ended: with an internal error, by exhausting native or memory, or with a call result. */
  datatype Execution =
    | Broken
    | Exhausted(resources: Resources)
    | Ran(success: bool, resources: Resources, pubdataNative: nat)

  /** Native to charge for the pubdata so far; overflow is an internal error. */
  function PubdataNative(e: Surroundings, w: World, nativePerPubdata: nat): (o: Option<nat>) {
    var native := e.pubdata(w) * ToU64(nativePerPubdata);
    MulPos(e.pubdata(w), ToU64(nativePerPubdata));
    if native > U64_MAX then None else Some(native)
  }

  /** The price of pubdata never overflows. */
  ghost predicate Chargeable(e: Surroundings, nativePerPubdata: nat) {
    forall w :: PubdataNative(e, w, nativePerPubdata).Some?
  }

  /** The execution cannot break: its code and hooks have no internal error, and neither supply nor price overflows. */
  ghost predicate Carries(tx: L1Tx, e: Surroundings, w: World, nativePerPubdata: nat) {
    TxSound(e) && Chargeable(e, nativePerPubdata) && Sum(w.balance) + tx.value < w.limit
  }

  /** The root call of a deposit: from the sender, with all the ergs there are. */
  function RootCall(tx: L1Tx, r: Resources): (req: Request) {
    Request(tx.from, tx.to, tx.value, NoModifier, r.ergs, tx.costs)
  }

  ghost function RootOutcome(tx: L1Tx, e: Surroundings, w: World, r: Resources, n: nat): (o: Outcome)
    requires Sized(w, n) && Located(tx, e, n)
  {
    Handle(e.hooked, true, if w.codeLen[tx.from] == 0 then NoEE else EVM, 0, RootCall(tx, r), e.hook, e.body, w, r, n)
  }

  /** `sem` is what the root call does, as a function of the world and the resources it starts from. */
  ghost predicate Means(sem: (World, Resources) -> Outcome, tx: L1Tx, e: Surroundings, n: nat)
    requires Located(tx, e, n)
  {
    forall w, r {:trigger RootOutcome(tx, e, w, r, n)} :: Sized(w, n) ==> sem(w, r) == RootOutcome(tx, e, w, r, n)
  }

  method RunRoot(system: System, tx: L1Tx, e: Surroundings, r: Resources, ghost sem: (World, Resources) -> Outcome,
                 ghost n: nat)
    returns (reply: Reply)
    requires Sized(system.world, n) && Located(tx, e, n) && Means(sem, tx, e, n)
    modifies system
    ensures old(system.saved) <= system.saved
    ensures Agrees(reply, system.world, sem(old(system.world), r))
    ensures reply.Completed? ==> reply.resources.ergs <= r.ergs
    ensures reply.Completed? ==> Sized(system.world, n) && Conserves(old(system.world), system.world, TxBurnFree(tx, e))
    ensures TxSound(e) && Bound(old(system.world)) ==> reply != Error(true)
  {
    var caller := if system.world.codeLen[tx.from] == 0 then NoEE else EVM;
    var req := RootCall(tx, r);
    var context := new Context(system, e.hooked);
    assert sem(system.world, r) == RootOutcome(tx, e, system.world, r, n);
    HandleBounded(e.hooked, true, caller, 0, req, e.hook, e.body, system.world, r, n);
    HandleConserves(e.hooked, true, caller, 0, req, e.hook, e.body, system.world, r, n);
    if TxSound(e) && Bound(system.world) {
      HandleSound(e.hooked, true, caller, 0, req, e.hook, e.body, system.world, r, n);
    }
    reply := context.HandleRequestedExternalCall(true, caller, req, r, e.hook, e.body, n);
  }

  /** The world that the root call starts from. */
  function Deposited(tx: L1Tx, w: World): (w': World)
    requires tx.from < |w.balance|
  {
    if tx.value > 0 then Credited(w, tx.from, tx.value) else w
  }

  /** Native paid before the root call: for minting a value, and for reading the sender. */
  function MintCost(tx: L1Tx): (n: nat) { if tx.value > 0 then tx.mintNative else 0 }

  predicate Mintable(tx: L1Tx, w: World)
    requires tx.from < |w.balance|
  {
    tx.value > 0 ==> w.balance[tx.from] + tx.value < w.limit
  }

  /** The resources of the root call. */
  function AtRoot(tx: L1Tx, r: Resources): (r': Resources) {
    var cost := MintCost(tx) + tx.readNative;
    Resources(r.ergs, if cost <= r.native then r.native - cost else 0)
  }

  /** How an execution from `w` ends, by the outcome of its root call. */
  function L1End(tx: L1Tx, e: Surroundings, w: World, r: Resources, withheld: nat, nativePerPubdata: nat, root: Outcome)
    : (x: Execution)
    requires tx.from < |w.balance|
  {
    if r.native < MintCost(tx) then Exhausted(Resources(r.ergs, 0))
    else if !Mintable(tx, w) then Broken
    else if r.native < MintCost(tx) + tx.readNative || (root.Fatal? && !root.internal) then
      Exhausted(Resources(r.ergs, r.native - MintCost(tx)))
    else if root.Fatal? then Broken
    else
      var total := Resources(root.resources.ergs, root.resources.native + withheld);
      var ok := root.result.Successful?;
      var cost := PubdataNative(e, if ok then root.world else w, nativePerPubdata);
      if cost.None? then Broken else Ran(ok && cost.value <= total.native, total, cost.value)
  }

  /** The mint and the reads are paid, the root call succeeds, and what is left with what was withheld pays for the
      pubdata. */
  ghost predicate Succeeds(tx: L1Tx, e: Surroundings, w: World, r: Resources, withheld: nat, nativePerPubdata: nat,
                           root: Outcome)
    requires tx.from < |w.balance|
  {
    && MintCost(tx) + tx.readNative <= r.native && Mintable(tx, w)
    && root.Done? && root.result.Successful?
    && e.pubdata(root.world) * ToU64(nativePerPubdata) <= U64_MAX
    && e.pubdata(root.world) * ToU64(nativePerPubdata) <= root.resources.native + withheld
  }

  /** Exactly then an execution is a success; it keeps what the root call left and what was withheld, and its pubdata is
      that of the root call's world. */
  lemma SuccessExact(tx: L1Tx, e: Surroundings, w: World, r: Resources, withheld: nat, nativePerPubdata: nat,
                     root: Outcome)
    requires tx.from < |w.balance|
    ensures var x := L1End(tx, e, w, r, withheld, nativePerPubdata, root);
            && (x.Ran? && x.success <==> Succeeds(tx, e, w, r, withheld, nativePerPubdata, root))
            && (x.Ran? ==>
                  && root.Done? && x.resources.ergs == root.resources.ergs
                  && x.resources.native == root.resources.native + withheld)
            && (x.Ran? && x.success ==> x.pubdataNative == e.pubdata(root.world) * ToU64(nativePerPubdata))
  {}

  /** The value can be minted and the root call is reached, but meets an internal error. */
  ghost predicate Faulty(tx: L1Tx, w: World, r: Resources, root: Outcome)
    requires tx.from < |w.balance|
  {
    MintCost(tx) + tx.readNative <= r.native && Mintable(tx, w) && root.Fatal? && root.internal
  }

  /** A deposit to a hook with an internal error meets it, however much it pays. */
  lemma FaultyDeposit(tx: L1Tx, e: Surroundings, w: World, r: Resources, n: nat)
    requires Sized(w, n) && Located(tx, e, n) && tx.to in e.hooked && e.hook == HookFault(true) && tx.value == 0
    ensures Faulty(tx, w, r, RootOutcome(tx, e, w, AtRoot(tx, r), n)) <==>
              tx.readNative + tx.costs.read.native <= r.native
  {
    var r1 := AtRoot(tx, r);
    FaultyHook(e.hooked, if w.codeLen[tx.from] == 0 then NoEE else EVM, RootCall(tx, r1), e.body, w, r1, n);
  }

  /** `execute_l1_transaction_and_notify_result`: minting the value is part of what a revert undoes. */
  method ExecuteL1(system: System, tx: L1Tx, e: Surroundings, r: Resources, withheld: Resources, nativePerPubdata: nat,
                   ghost sem: (World, Resources) -> Outcome, ghost n: nat)
    returns (o: Execution)
    requires Sized(system.world, n) && Located(tx, e, n) && withheld.ergs == 0 && Means(sem, tx, e, n)
    modifies system
    ensures old(system.saved) <= system.saved
    ensures var root := sem(Deposited(tx, old(system.world)), AtRoot(tx, r));
            && o == L1End(tx, e, old(system.world), r, withheld.native, nativePerPubdata, root)
            && (o.Ran? && o.success <==>
                  Succeeds(tx, e, old(system.world), r, withheld.native, nativePerPubdata, root))
            && (o.Ran? && o.success ==> system.world == root.world)
            && (Faulty(tx, old(system.world), r, root) ==> o.Broken?)
    ensures o.Ran? && o.success ==>
      Sized(system.world, n) && Grew(old(system.world), system.world, tx.value, TxBurnFree(tx, e))
    ensures o.Ran? || o.Exhausted? ==> o.resources.ergs <= r.ergs
    ensures Carries(tx, e, old(system.world), nativePerPubdata) ==> !o.Broken?
  {
    SuccessExact(tx, e, system.world, r, withheld.native, nativePerPubdata,
                 sem(Deposited(tx, system.world), AtRoot(tx, r)));
    var handle := system.StartFrame();
    var resources := r;
    if tx.value > 0 {
      var charged := ChargeNative(r, tx.mintNative);
      if charged.None? { return Exhausted(Resources(r.ergs, 0)); }
      resources := charged.value;
      var minted := Mint(system, tx.from, tx.value);
      if !minted { return Broken; }
    }
    var charged := ChargeNative(resources, tx.readNative);
    if charged.None? { return Exhausted(resources); }
    var reply := RunRoot(system, tx, e, charged.value, sem, n);
    if reply.Error? { return if reply.internal then Broken else Exhausted(resources); }
    var reverted := !reply.result.Successful?;
    system.FinishFrame(if reverted then Some(handle) else None);
    resources := Resources(reply.resources.ergs + withheld.ergs, reply.resources.native + withheld.native);
    var toCharge := PubdataNative(e, system.world, nativePerPubdata);
    if toCharge.None? { return Broken; }
    return Ran(!reverted && toCharge.value <= resources.native, resources, toCharge.value);
  }

  /** The resources an execution starts with, once the transaction has been hashed. */
  function Hashed(tx: L1Tx, main: Resources): (r: Resources) {
    Resources(main.ergs, if tx.hashNative <= main.native then main.native - tx.hashNative else 0)
  }

  /** The outcome of the root call of a deposit with these resources. */
  ghost function RootOf(tx: L1Tx, w: World, main: Resources, sem: (World, Resources) -> Outcome): (o: Outcome)
    requires tx.from < |w.balance|
  {
    sem(Deposited(tx, w), AtRoot(tx, Hashed(tx, main)))
  }

  /** The deposit can be hashed, and its execution succeeds. */
  ghost predicate DepositSucceeds(tx: L1Tx, e: Surroundings, w: World, res: ResourcesForTx, nativePerPubdata: nat,
                                  sem: (World, Resources) -> Outcome)
    requires tx.from < |w.balance|
  {
    tx.hashNative <= res.main.native
    && Succeeds(tx, e, w, Hashed(tx, res.main), res.withheld.native, nativePerPubdata, RootOf(tx, w, res.main, sem))
  }

  /** What a deposit has left and pays for pubdata: one that does not succeed pays for what was there before, and one
      that ran out of native has no ergs left. */
  ghost function Leaves(tx: L1Tx, e: Surroundings, w: World, res: ResourcesForTx, nativePerPubdata: nat,
                        sem: (World, Resources) -> Outcome): (x: Execution)
    requires tx.from < |w.balance|
  {
    var root := RootOf(tx, w, res.main, sem);
    var x := L1End(tx, e, w, Hashed(tx, res.main), res.withheld.native, nativePerPubdata, root);
    var before := PubdataNative(e, w, nativePerPubdata);
    if tx.hashNative <= res.main.native && (x.Broken? || (x.Ran? && x.success)) then x
    else if before.None? then Broken
    else if tx.hashNative > res.main.native then Ran(false, Resources(0, 0), before.value)
    else if x.Exhausted? then Ran(false, Resources(0, x.resources.native), before.value)
    else Ran(false, x.resources, before.value)
  }

  /** Hashes, then executes under the transaction's snapshot; what did not succeed is undone, and only a success says
      what its pubdata costs. */
  method RunUnderSnapshot(system: System, tx: L1Tx, e: Surroundings, res: ResourcesForTx, nativePerPubdata: nat,
                          ghost sem: (World, Resources) -> Outcome, ghost n: nat)
    returns (broken: bool, success: bool, left: Resources, pubdata: Option<nat>)
    requires Sized(system.world, n) && Located(tx, e, n) && res.withheld.ergs == 0 && Means(sem, tx, e, n)
    modifies system
    ensures old(system.saved) <= system.saved
    ensures !broken ==> Sized(system.world, n) && left.ergs <= res.main.ergs && (pubdata.Some? <==> success)
    ensures !broken ==> (success <==> DepositSucceeds(tx, e, old(system.world), res, nativePerPubdata, sem))
    ensures var x := Leaves(tx, e, old(system.world), res, nativePerPubdata, sem);
            && (broken ==> x.Broken?)
            && (!broken && x.Ran? ==> left == x.resources && (success ==> pubdata == Some(x.pubdataNative)))
            && (!broken && success ==> x.Ran?)
            && (!broken && x.Broken? ==> PubdataNative(e, old(system.world), nativePerPubdata).None?)
    ensures !broken && success ==> Grew(old(system.world), system.world, tx.value, TxBurnFree(tx, e))
    ensures !broken ==>
      system.world == if success then RootOf(tx, old(system.world), res.main, sem).world else old(system.world)
    ensures var root := RootOf(tx, old(system.world), res.main, sem);
            tx.hashNative <= res.main.native && Faulty(tx, old(system.world), Hashed(tx, res.main), root) ==> broken
    ensures Carries(tx, e, old(system.world), nativePerPubdata) ==> !broken
  {
    broken, success, left, pubdata := false, false, Resources(0, 0), None;
    var hashed := ChargeNative(res.main, tx.hashNative);
    if hashed.None? { return; }
    assert hashed.value == Hashed(tx, res.main);
    var handle := system.StartFrame();
    var x := ExecuteL1(system, tx, e, hashed.value, res.withheld, nativePerPubdata, sem, n);
    match x
    case Broken => broken := true;
    case Exhausted(r) =>
      left := r.(ergs := 0);
      system.FinishFrame(Some(handle));
    case Ran(ok, r, native) =>
      success, left := ok, r;
      if ok { pubdata := Some(native); }
      system.FinishFrame(if ok then None else Some(handle));
  }

  /** The outcome of the execution, with what its pubdata costs. */
  method Settle(system: System, tx: L1Tx, e: Surroundings, res: ResourcesForTx, nativePerPubdata: nat,
                ghost sem: (World, Resources) -> Outcome, ghost n: nat)
    returns (o: Execution)
    requires Sized(system.world, n) && Located(tx, e, n) && res.withheld.ergs == 0 && Means(sem, tx, e, n)
    modifies system
    ensures old(system.saved) <= system.saved
    ensures o == Leaves(tx, e, old(system.world), res, nativePerPubdata, sem) && !o.Exhausted?
    ensures o.Ran? ==> (o.success <==> DepositSucceeds(tx, e, old(system.world), res, nativePerPubdata, sem))
    ensures o.Ran? ==> Sized(system.world, n) && o.resources.ergs <= res.main.ergs
    ensures o.Ran? ==>
      Grew(old(system.world), system.world, if o.success then tx.value else 0, !o.success || TxBurnFree(tx, e))
    ensures o.Ran? ==>
      system.world == if o.success then RootOf(tx, old(system.world), res.main, sem).world else old(system.world)
    ensures Carries(tx, e, old(system.world), nativePerPubdata) ==> o.Ran?
  {
    var broken, success, left, pubdata := RunUnderSnapshot(system, tx, e, res, nativePerPubdata, sem, n);
    if broken { return Broken; }
    if pubdata.None? {
      pubdata := PubdataNative(e, system.world, nativePerPubdata);
      if pubdata.None? { return Broken; }
    }
    return Ran(success, left, pubdata.value);
  }

  /** The gas price in native, rounded up; upgrades have a price of their own. */
  function NativePerGas(tx: L1Tx): (p: nat)
    ensures tx.isPriority ==> tx.gasPrice <= 10 * p < tx.gasPrice + 10
    ensures !tx.isPriority ==> p == 10_000
  {
    if tx.isPriority then (tx.gasPrice + L1_TX_NATIVE_PRICE - 1) / L1_TX_NATIVE_PRICE else UPGRADE_TX_NATIVE_PER_GAS
  }

  function NativePerPubdata(tx: L1Tx): (p: nat) {
    MulPos(tx.gasPerPubdata, NativePerGas(tx));
    tx.gasPerPubdata * NativePerGas(tx)
  }

  /** The resources a deposit buys. */
  function Budget(tx: L1Tx): (r: Result<ResourcesForTx>) {
    GetResourcesForTx(tx.gasLimit, NativePerPubdata(tx), NativePerGas(tx), tx.calldata, L1_TX_INTRINSIC_L2_GAS,
                      L1_TX_INTRINSIC_PUBDATA, L1_TX_INTRINSIC_NATIVE_COST, true)
  }

  /** What a deposit must satisfy before it is executed: the amounts fit, and the deposit covers value and fee. */
  predicate Admissible(tx: L1Tx, limit: nat) {
    && NativePerPubdata(tx) < limit
    && tx.value + tx.gasPrice * tx.gasLimit < limit && tx.value + tx.gasPrice * tx.gasLimit <= tx.deposited
    && Budget(tx).Ok?
  }

  /** The checks before execution, and the resources they leave it. */
  method Admit(tx: L1Tx, limit: nat) returns (res: Result<ResourcesForTx>)
    requires |tx.calldata| < 0x1_0000_0000
    ensures res.Ok? <==> Admissible(tx, limit)
    ensures res.Ok? ==> res == Budget(tx)
    ensures res.Ok? ==> res.value.main.ergs <= tx.gasLimit * ERGS_PER_GAS && res.value.withheld.ergs == 0
    ensures res.Ok? ==> tx.gasLimit <= U64_MAX / 2
    ensures res.Ok? ==>
      tx.value + tx.gasPrice * tx.gasLimit < limit && tx.value + tx.gasPrice * tx.gasLimit <= tx.deposited
  {
    var nativePerGas := NativePerGas(tx);
    var nativePerPubdata := NativePerPubdata(tx);
    if nativePerPubdata >= limit { return Err(Internal); }
    res := GetResourcesForTx(tx.gasLimit, nativePerPubdata, nativePerGas, tx.calldata, L1_TX_INTRINSIC_L2_GAS,
                             L1_TX_INTRINSIC_PUBDATA, L1_TX_INTRINSIC_NATIVE_COST, true);
    if res.Err? { return; }
    LimitsDivided(tx.gasLimit, nativePerPubdata, nativePerGas, tx.calldata, L1_TX_INTRINSIC_L2_GAS,
                  L1_TX_INTRINSIC_PUBDATA, L1_TX_INTRINSIC_NATIVE_COST, true);
    var fee := tx.gasPrice * tx.gasLimit;
    if fee >= limit || tx.value + fee >= limit || tx.deposited < tx.value + fee { return Err(Internal); }
  }

  /** No internal error in code or hooks, and neither the price of pubdata nor the total supply overflows. */
  ghost predicate Completable(tx: L1Tx, e: Surroundings, w: World) {
    Carries(tx, e, w, NativePerPubdata(tx)) && Sum(w.balance) + tx.deposited < w.limit
  }

  /** The gas a deposit is charged, as `RefundExact` says of it. */
  function GasUsed(tx: L1Tx, e: Surroundings, x: Execution): (g: nat)
    requires x.Ran? && x.resources.ergs <= tx.gasLimit * ERGS_PER_GAS
  {
    ComputeGasRefund(x.pubdataNative, tx.gasLimit, NativePerGas(tx), x.resources, e.refundCounter).gasUsed
  }

  /** The operator's pay and the refund fit the balances they go to; only a priority transaction may have failed. */
  ghost predicate Payable(tx: L1Tx, e: Surroundings, w: World, x: Execution) {
    && e.coinbase < |w.balance| && tx.refundRecipient < |w.balance|
    && x.Ran? && x.resources.ergs <= tx.gasLimit * ERGS_PER_GAS && (x.success || tx.isPriority)
    && var paid := GasUsed(tx, e, x) * tx.gasPrice;
       var refund := tx.deposited - paid - (if x.success then tx.value else 0);
       var received := if tx.refundRecipient == e.coinbase then paid else 0;
       && w.balance[e.coinbase] + paid < w.limit
       && (refund > 0 ==> w.balance[tx.refundRecipient] + received + refund < w.limit)
  }

  /** Pays the operator for the gas used and refunds the rest of the deposit. */
  method PayOut(system: System, tx: L1Tx, e: Surroundings, x: Execution) returns (r: Result<TxResult>)
    requires x.Ran? && x.resources.ergs <= tx.gasLimit * ERGS_PER_GAS && tx.gasLimit <= U64_MAX / 2
    requires e.coinbase < |system.world.balance| && tx.refundRecipient < |system.world.balance|
    requires tx.value + tx.gasPrice * tx.gasLimit < system.world.limit
    requires tx.value + tx.gasPrice * tx.gasLimit <= tx.deposited
    modifies system`world
    ensures r.Ok? ==> r.value.success == x.success && (tx.isPriority || x.success)
    ensures r.Ok? ==> r.value.gasUsed <= tx.gasLimit && r.value.paid == r.value.gasUsed * tx.gasPrice
    ensures r.Ok? ==> r.value.gasUsed == GasUsed(tx, e, x)
    ensures r.Ok? <==> Payable(tx, e, old(system.world), x)
    ensures r.Ok? ==> (if x.success then tx.value else 0) + r.value.paid + r.value.refunded == tx.deposited
    ensures r.Ok? ==> Grew(old(system.world), system.world, r.value.paid + r.value.refunded, true)
    ensures r.Ok? ==>
      system.world == Credited(Credited(old(system.world), e.coinbase, r.value.paid), tx.refundRecipient, r.value.refunded)
    ensures var total := Sum(old(system.world.balance)) - (if x.success then tx.value else 0);
      tx.isPriority && total + tx.deposited < old(system.world.limit) ==> r.Ok?
  {
    var nativePerGas := NativePerGas(tx);
    RefundExact(x.pubdataNative, tx.gasLimit, nativePerGas, x.resources, e.refundCounter);
    var info := ComputeGasRefund(x.pubdataNative, tx.gasLimit, nativePerGas, x.resources, e.refundCounter);
    var pay := info.gasUsed * tx.gasPrice;
    MulMono(info.gasUsed, tx.gasLimit, tx.gasPrice);
    MulPos(info.gasUsed, tx.gasPrice);
    Commute(tx.gasPrice, tx.gasLimit);
    assert pay < system.world.limit && tx.value + pay < system.world.limit;
    var minted := Mint(system, e.coinbase, pay);
    if !minted { return Err(Internal); }
    if !x.success && !tx.isPriority { return Err(Internal); }
    var spent := if x.success then tx.value + pay else pay;
    assert spent <= tx.deposited;
    var refund := tx.deposited - spent;
    if refund > 0 {
      minted := Mint(system, tx.refundRecipient, refund);
      if !minted { return Err(Internal); }
    }
    return Ok(TxResult(x.success, info.gasUsed, pay, refund));
  }

  /** The world between execution and settlement: that of the root call, exactly when the deposit succeeds. */
  ghost function Between(tx: L1Tx, e: Surroundings, w: World, res: ResourcesForTx, sem: (World, Resources) -> Outcome)
    : (w': World)
    requires tx.from < |w.balance|
  {
    if DepositSucceeds(tx, e, w, res, NativePerPubdata(tx), sem) then RootOf(tx, w, res.main, sem).world else w
  }

  /** The execution does not break, and can be settled. */
  ghost predicate Completes(tx: L1Tx, e: Surroundings, w: World, res: ResourcesForTx,
                            sem: (World, Resources) -> Outcome)
    requires tx.from < |w.balance|
  {
    Payable(tx, e, Between(tx, e, w, res, sem), Leaves(tx, e, w, res, NativePerPubdata(tx), sem))
  }

  /** The report of a completed deposit, and the world it leaves. */
  ghost predicate Reported(tx: L1Tx, e: Surroundings, w: World, res: ResourcesForTx, sem: (World, Resources) -> Outcome,
                           t: TxResult, w': World)
    requires tx.from < |w.balance| && Completes(tx, e, w, res, sem)
  {
    && (t.success <==> DepositSucceeds(tx, e, w, res, NativePerPubdata(tx), sem))
    && t.gasUsed == GasUsed(tx, e, Leaves(tx, e, w, res, NativePerPubdata(tx), sem))
    && t.paid == t.gasUsed * tx.gasPrice
    && (if t.success then tx.value else 0) + t.paid + t.refunded == tx.deposited
    && w' == Credited(Credited(Between(tx, e, w, res, sem), e.coinbase, t.paid), tx.refundRecipient, t.refunded)
  }

  /** Execution and settlement of an admitted deposit. */
  method RunAdmitted(system: System, tx: L1Tx, e: Surroundings, res: ResourcesForTx,
                     ghost sem: (World, Resources) -> Outcome, ghost n: nat)
    returns (r: Result<TxResult>)
    requires Sized(system.world, n) && Located(tx, e, n) && res.withheld.ergs == 0 && Means(sem, tx, e, n)
    requires res.main.ergs <= tx.gasLimit * ERGS_PER_GAS && tx.gasLimit <= U64_MAX / 2
    requires tx.value + tx.gasPrice * tx.gasLimit < system.world.limit
    requires tx.value + tx.gasPrice * tx.gasLimit <= tx.deposited
    modifies system
    ensures old(system.saved) <= system.saved
    ensures r.Ok? ==> Grew(old(system.world), system.world, tx.deposited, !r.value.success || TxBurnFree(tx, e))
    ensures r.Ok? ==> r.value.gasUsed <= tx.gasLimit
    ensures r.Ok? && !tx.isPriority ==> r.value.success
    ensures r.Ok? <==> Completes(tx, e, old(system.world), res, sem)
    ensures r.Ok? ==> Sized(system.world, n) && Reported(tx, e, old(system.world), res, sem, r.value, system.world)
    ensures tx.isPriority && Completable(tx, e, old(system.world)) ==> r.Ok?
  {
    var x := Settle(system, tx, e, res, NativePerPubdata(tx), sem, n);
    if !x.Ran? { return Err(Internal); }
    r := PayOut(system, tx, e, x);
  }

  /** `process_l1_transaction`: a transaction that completes mints exactly its deposit, and an admissible priority
      transaction completes whatever it executes, as long as there is no internal error in what it runs and the total
      supply fits a balance. `sem` is the root call. */
  method ProcessL1Transaction(system: System, tx: L1Tx, e: Surroundings, ghost sem: (World, Resources) -> Outcome,
                              ghost n: nat)
    returns (r: Result<TxResult>)
    requires Sized(system.world, n) && Located(tx, e, n) && |tx.calldata| < 0x1_0000_0000 && Means(sem, tx, e, n)
    modifies system
    ensures old(system.saved) <= system.saved
    ensures r.Ok? ==> Grew(old(system.world), system.world, tx.deposited, !r.value.success || TxBurnFree(tx, e))
    ensures r.Ok? ==> r.value.gasUsed <= tx.gasLimit <= U64_MAX / 2
    ensures r.Ok? && !tx.isPriority ==> r.value.success
    ensures r.Ok? <==>
      && Admissible(tx, old(system.world.limit))
      && Completes(tx, e, old(system.world), Budget(tx).value, sem)
    ensures r.Ok? ==>
      && Sized(system.world, n)
      && Reported(tx, e, old(system.world), Budget(tx).value, sem, r.value, system.world)
    ensures tx.isPriority && Admissible(tx, old(system.world.limit)) && Completable(tx, e, old(system.world)) ==> r.Ok?
  {
    var res := Admit(tx, system.world.limit);
    if res.Err? { return Err(res.error); }
    r := RunAdmitted(system, tx, e, res.value, sem, n);
  }
}
