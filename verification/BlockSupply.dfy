/** A block of deposits and L2 transactions: what it does to the supply of tokens and to the gas counter. */
module BlockSupply {
  import opened Options
  import opened ResourceCounters
  import opened CallSemantics
  import opened CallSupply
  import opened CallMachine
  import opened L1Transactions
  import opened L2Fees
  import BlockLoop

  datatype Item =
    | FromL1(deposit: L1Tx, e: Surroundings)
    | FromL2(tx: L2Tx, e: Surroundings, main: Resources, withheld: nat)

  /** Every address exists, and what the source checks before has been checked. */
  ghost predicate Formed(item: Item, n: nat) {
    match item
    case FromL1(deposit, e) => Located(deposit, e, n) && |deposit.calldata| < 0x1_0000_0000
    case FromL2(tx, e, main, _) => Placed(tx, e, n) && Priced(tx) && main.ergs <= tx.gasLimit * ERGS_PER_GAS
  }

  /** A processed deposit adds to the supply; of an L2 transaction the burned base fee leaves it. */
  function Gain(item: Item, gasUsed: nat): (g: int) {
    match item
    case FromL1(deposit, _) => deposit.deposited
    case FromL2(tx, _, _, _) => -(gasUsed * if tx.burn then tx.baseFee else 0)
  }

  /** `sem` is what the root call of the transaction does. */
  ghost predicate Meant(sem: (World, Resources) -> Outcome, item: Item, n: nat)
    requires Formed(item, n)
  {
    match item
    case FromL1(deposit, e) => Means(sem, deposit, e, n)
    case FromL2(tx, e, _, _) => BodyMeans(sem, tx, e, n)
  }

  /** Processing the transaction in `w` uses `gas` and leaves `w'`. */
  ghost predicate Serves(item: Item, w: World, sem: (World, Resources) -> Outcome, gas: nat, w': World) {
    match item
    case FromL1(deposit, e) =>
      && deposit.from < |w.balance| && Admissible(deposit, w.limit)
      && Completes(deposit, e, w, Budget(deposit).value, sem)
      && exists t: TxResult :: t.gasUsed == gas && Reported(deposit, e, w, Budget(deposit).value, sem, t, w')
    case FromL2(tx, e, main, withheld) =>
      && tx.req.caller < |w.balance| && tx.req.caller < |w.nonce| && tx.gasPrice <= tx.maxFee && Affordable(tx, w)
      && var charged := Debited(w, tx.req.caller, Fee(tx));
         exists s, executed ::
           && Processes(tx, e, charged, main, withheld, sem, s, gas, executed)
           && Settled(tx, e.coinbase, executed, w', gas)
  }

  /** There is one way to be processed. */
  lemma ServesOnce(item: Item, w: World, sem: (World, Resources) -> Outcome, g1: nat, w1: World, g2: nat, w2: World)
    requires Serves(item, w, sem, g1, w1) && Serves(item, w, sem, g2, w2)
    ensures g1 == g2 && w1 == w2
  {}

  datatype Verdict = Valid(gasUsed: nat) | Invalid | Broken

  method Process(system: System, item: Item, ghost sem: (World, Resources) -> Outcome, ghost n: nat)
    returns (v: Verdict)
    requires Sized(system.world, n) && Formed(item, n) && Meant(sem, item, n)
    modifies system
    ensures old(system.saved) <= system.saved
    ensures v.Valid? ==> Serves(item, old(system.world), sem, v.gasUsed, system.world)
    ensures v.Valid? <==> exists g, w' :: Serves(item, old(system.world), sem, g, w')
    ensures v.Valid? ==> Sized(system.world, n) && v.gasUsed <= U64_MAX / 2
    ensures v.Valid? ==> Supply(system.world) == Supply(old(system.world)) + Gain(item, v.gasUsed)
    ensures v.Valid? ==> old(system.world.burned) <= system.world.burned
  {
    match item
    case FromL1(deposit, e) =>
      var r := ProcessL1Transaction(system, deposit, e, sem, n);
      if r.Ok? {
        assert Serves(item, old(system.world), sem, r.value.gasUsed, system.world);
        return Valid(r.value.gasUsed);
      }
      return if r.error.Validation? then Invalid else Verdict.Broken;
    case FromL2(tx, e, main, withheld) =>
      var o, _ := ProcessL2Transaction(system, tx, e, main, withheld, sem, n);
      match o
      case Processed(_, gasUsed) =>
        assert Serves(item, old(system.world), sem, gasUsed, system.world);
        return Valid(gasUsed);
      case Rejected => return Invalid;
      case Aborted => return Verdict.Broken;
  }

  /** The gains and the gas of the kept transactions. */
  ghost function Gains(items: seq<Item>, kept: seq<Option<nat>>): (g: int)
    requires |items| == |kept|
  {
    if items == [] then 0
    else
      var n := |items| - 1;
      Gains(items[..n], kept[..n]) + if kept[n].Some? then Gain(items[n], kept[n].value) else 0
  }

  lemma GainsNext(items: seq<Item>, kept: seq<Option<nat>>, item: Item, entry: Option<nat>)
    requires |items| == |kept|
    ensures Gains(items + [item], kept + [entry]) ==
      Gains(items, kept) + if entry.Some? then Gain(item, entry.value) else 0
    ensures GasOf(kept + [entry]) == GasOf(kept) + if entry.Some? then entry.value else 0
  {
    assert (items + [item])[..|items|] == items && (kept + [entry])[..|kept|] == kept;
  }

  ghost function GasOf(kept: seq<Option<nat>>): (g: nat) {
    if kept == [] then 0
    else GasOf(kept[..|kept| - 1]) + if kept[|kept| - 1].Some? then kept[|kept| - 1].value else 0
  }

  /** One turn of the loop: the transaction is kept exactly when it is processed and its gas fits, and then accounts are
      cleared; otherwise nothing changes. */
  ghost predicate Turn(item: Item, sem: (World, Resources) -> Outcome, w: World, gas: nat, gasLimit: nat,
                       entry: Option<nat>, w1: World)
  {
    && (entry.Some? <==> exists g, w' :: Serves(item, w, sem, g, w') && gas + g <= gasLimit)
    && (entry.Some? ==> exists w' :: Serves(item, w, sem, entry.value, w') && w1 == FinishTx(w'))
    && (entry.None? ==> w1 == w)
  }

  /** `worlds` are the states between the turns of a block that keeps `kept` of these transactions. */
  ghost predicate Turns(items: seq<Item>, sems: seq<(World, Resources) -> Outcome>, gasLimit: nat,
                        kept: seq<Option<nat>>, worlds: seq<World>)
    requires |items| <= |sems|
  {
    && |kept| == |items| && |worlds| == |items| + 1
    && forall i :: 0 <= i < |items| ==>
         Turn(items[i], sems[i], worlds[i], GasOf(kept[..i]), gasLimit, kept[i], worlds[i + 1])
  }

  lemma TurnsNext(items: seq<Item>, sems: seq<(World, Resources) -> Outcome>, gasLimit: nat, kept: seq<Option<nat>>,
                  worlds: seq<World>, item: Item, entry: Option<nat>, w: World)
    requires |items| < |sems| && Turns(items, sems, gasLimit, kept, worlds)
    requires Turn(item, sems[|items|], worlds[|items|], GasOf(kept), gasLimit, entry, w)
    ensures Turns(items + [item], sems, gasLimit, kept + [entry], worlds + [w])
  {
    var items', kept', worlds' := items + [item], kept + [entry], worlds + [w];
    forall i | 0 <= i < |items'|
      ensures Turn(items'[i], sems[i], worlds'[i], GasOf(kept'[..i]), gasLimit, kept'[i], worlds'[i + 1])
    {
      if i < |items| {
        assert kept'[..i] == kept[..i];
        assert Turn(items[i], sems[i], worlds[i], GasOf(kept[..i]), gasLimit, kept[i], worlds[i + 1]);
      } else {
        assert kept'[..i] == kept;
      }
    }
  }

  /** One transaction of a block, under its snapshot. */
  method Take(system: System, item: Item, gas: nat, gasLimit: nat, ghost sem: (World, Resources) -> Outcome,
              ghost n: nat)
    returns (ok: bool, gas': nat, entry: Option<nat>)
    requires Sized(system.world, n) && Formed(item, n) && Meant(sem, item, n)
    requires gas <= gasLimit <= U64_MAX / ERGS_PER_GAS && system.world.destroyed == {}
    modifies system
    ensures ok ==> Turn(item, sem, old(system.world), gas, gasLimit, entry, system.world)
    ensures ok ==> gas' == gas + (if entry.Some? then entry.value else 0) <= gasLimit
    ensures ok ==>
      Supply(system.world) == Supply(old(system.world)) + if entry.Some? then Gain(item, entry.value) else 0
    ensures ok ==>
      Sized(system.world, n) && system.world.destroyed == {} && old(system.world.burned) <= system.world.burned
  {
    gas', entry := gas, None;
    var handle := system.StartFrame();
    ghost var before := system.world;
    var v := Process(system, item, sem, n);
    if v.Broken? { return false, gas', entry; }
    if v.Valid? {
      forall g, w' | Serves(item, before, sem, g, w') ensures g == v.gasUsed {
        ServesOnce(item, before, sem, g, w', v.gasUsed, system.world);
      }
      var next := BlockLoop.Wrap64(gas + v.gasUsed);
      if next <= gasLimit { gas', entry := next, Some(v.gasUsed); }
    }
    system.FinishFrame(if entry.Some? then None else Some(handle));
    if entry.Some? { system.FinishValidTx(); }
    ok := true;
  }

  /** The block loop over concrete transactions, with its snapshots and its 64-bit gas counter. Whatever they execute,
      the supply changes by the deposits and the burned base fees of the kept ones alone, the counter is the gas they
      used, and a block that does not fail ends with no account left to clear. `worlds` are the states between turns. */
  method RunBlock(system: System, items: seq<Item>, gasLimit: nat, ghost sems: seq<(World, Resources) -> Outcome>,
                  ghost n: nat)
    returns (ok: bool, gas: nat, kept: seq<Option<nat>>, ghost worlds: seq<World>)
    requires Sized(system.world, n) && |sems| == |items|
    requires forall i :: 0 <= i < |items| ==> Formed(items[i], n) && Meant(sems[i], items[i], n)
    requires gasLimit <= U64_MAX / ERGS_PER_GAS && system.world.destroyed == {}
    modifies system
    ensures ok ==> |kept| == |items| && gas == GasOf(kept) <= gasLimit
    ensures ok ==> Turns(items, sems, gasLimit, kept, worlds)
    ensures ok ==> worlds[0] == old(system.world) && worlds[|items|] == system.world
    ensures ok ==> Supply(system.world) == Supply(old(system.world)) + Gains(items, kept)
    ensures ok ==>
      Sized(system.world, n) && system.world.destroyed == {} && old(system.world.burned) <= system.world.burned
  {
    gas, kept, worlds := 0, [], [system.world];
    for i := 0 to |items|
      invariant |kept| == i && gas == GasOf(kept) <= gasLimit && Sized(system.world, n) && system.world.destroyed == {}
      invariant Turns(items[..i], sems, gasLimit, kept, worlds)
      invariant worlds[0] == old(system.world) && worlds[i] == system.world
      invariant Supply(system.world) == Supply(old(system.world)) + Gains(items[..i], kept)
      invariant old(system.world.burned) <= system.world.burned
    {
      assert items[..i + 1] == items[..i] + [items[i]];
      var entry: Option<nat>;
      ok, gas, entry := Take(system, items[i], gas, gasLimit, sems[i], n);
      if !ok { return; }
      TurnsNext(items[..i], sems, gasLimit, kept, worlds, items[i], entry, system.world);
      GainsNext(items[..i], kept, items[i], entry);
      kept, worlds := kept + [entry], worlds + [system.world];
    }
    assert items[..|items|] == items;
    ok := true;
  }
}
