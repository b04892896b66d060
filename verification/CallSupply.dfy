/** Where tokens go: every call tree moves or burns them, and creates none. */
module CallSupply {
  import opened Options
  import opened ResourceCounters
  import opened CallSemantics
  import opened CallProperties

  /** What was ever in circulation. */
  ghost function Supply(w: World): (t: nat) { Sum(w.balance) + w.burned }

  /** Balances and burned tokens account for each other; `free` rules out burning altogether. */
  ghost predicate Conserves(w: World, w': World, free: bool) {
    && Supply(w') == Supply(w) && w'.limit == w.limit && w.burned <= w'.burned
    && (free ==> w'.burned == w.burned)
  }

  //// Single steps

  lemma {:induction false} SumUpdate(s: seq<nat>, i: nat, v: nat)
    requires i < |s|
    ensures Sum(s[i := v]) == Sum(s) - s[i] + v
  {
    var n := |s| - 1;
    if i == n {
      assert s[i := v][..n] == s[..n];
    } else {
      assert s[i := v][..n] == s[..n][i := v];
      SumUpdate(s[..n], i, v);
    }
  }

  lemma BalanceBelowTotal(balance: seq<nat>, a: Addr)
    requires a < |balance|
    ensures balance[a] <= Sum(balance)
  {
    SumUpdate(balance, a, 0);
  }

  /** Two accounts together hold no more than everyone. */
  lemma PairBelowTotal(balance: seq<nat>, a: Addr, b: Addr)
    requires a < |balance| && b < |balance| && a != b
    ensures balance[a] + balance[b] <= Sum(balance)
  {
    SumUpdate(balance, a, 0);
    BalanceBelowTotal(balance[a := 0], b);
  }

  lemma MoveConserves(b: seq<nat>, source: Addr, target: Addr, value: nat)
    requires source < |b| && target < |b| && value <= b[source]
    ensures Sum(Move(b, source, target, value)) == Sum(b)
  {
    var paid := b[source := b[source] - value];
    SumUpdate(b, source, b[source] - value);
    SumUpdate(paid, target, paid[target] + value);
  }

  lemma TransferConserves(w: World, caller: Environment, req: Request, r: Resources)
    requires req.caller < |w.balance| && req.callee < |w.balance|
    ensures var c := Transfer(w, caller, req, r); !c.CheckFatal? ==> Conserves(w, c.world, true)
  {
    if req.value <= w.balance[req.caller] {
      MoveConserves(w.balance, req.caller, if IsCallcode(req.modifier) then req.caller else req.callee, req.value);
    }
  }

  lemma AffectConserves(w: World, req: Request, effect: Effect)
    requires req.callee < |w.balance| && (effect.ForceDeploy? ==> effect.at < |w.codeLen|)
    ensures var o := Affect(w, req, effect);
      o.Some? ==> Conserves(w, o.value, !effect.Withdraw? || req.value == 0)
  {
    if effect.Withdraw? && req.value <= w.balance[req.callee] {
      SumUpdate(w.balance, req.callee, w.balance[req.callee] - req.value);
    }
  }

  /** A self-destruct burns exactly what a marked account leaves to itself. */
  lemma DeconstructConserves(w: World, self: Addr, beneficiary: Addr, inConstructor: bool)
    requires self < |w.balance| && beneficiary < |w.balance|
    ensures var o := Deconstruct(w, self, beneficiary, inConstructor);
      o.Some? ==> Conserves(w, o.value, self != beneficiary)
  {
    if self == beneficiary { SumUpdate(w.balance, self, 0); }
    else { MoveConserves(w.balance, self, beneficiary, w.balance[self]); }
  }

  lemma EndConserves(w: World, req: Request, body: Body, r: Resources, n: nat)
    requires (body.Finish? || body.Throw? || body.Destruct?) && Within(body, n) && Sized(w, n) && req.caller < n
    requires req.callee < n
    ensures var c := End(w, req, body, r);
      !c.CheckFatal? ==> Conserves(w, c.world, BurnFree(body, Self(req)))
  {
    if body.Destruct? { DeconstructConserves(w, Self(req), body.beneficiary, req.modifier.Constructor?); }
  }

  //// Call trees

  predicate HookBurnFree(req: Request, hook: Hook) {
    hook.Intercepted? && hook.effect.Withdraw? ==> req.value == 0
  }

  /** No withdrawal and no self-destruct to oneself anywhere in the code of a frame that runs as `self`. */
  predicate BurnFree(body: Body, self: Addr) {
    match body
    case Destruct(_, beneficiary, _) => beneficiary != self
    case Compute(_, _, _, next) => BurnFree(next, self)
    case Invoke(_, req, hook, callee, ok, bad) =>
      HookBurnFree(req, hook) && BurnFree(callee, Self(req)) && BurnFree(ok, self) && BurnFree(bad, self)
    case _ => true
  }

  /** Every call tree conserves the supply: what leaves the balances is burned, and without withdrawals and
      self-destructs to oneself nothing is. */
  lemma {:induction false} HandleConserves(hooked: set<Addr>, entry: bool, caller: Environment, depth: nat,
                                           req: Request, hook: Hook, body: Body, w: World, r: Resources, n: nat)
    requires Sized(w, n) && Addressed(req, hook, n) && Within(body, n)
    ensures var o := Handle(hooked, entry, caller, depth, req, hook, body, w, r, n);
      o.Done? ==> Conserves(w, o.world, HookBurnFree(req, hook) && BurnFree(body, Self(req)))
    decreases body, 3
  {
    var callee := CalleeOf(w, req.callee);
    match Prepare(entry, req, callee, r)
    case Prepared(kept, given) =>
      ExecuteConserves(hooked, caller, depth, req, callee, hook, body, w, given, n);
    case _ =>
  }

  lemma {:induction false} ExecuteConserves(hooked: set<Addr>, caller: Environment, depth: nat, req: Request,
                                            callee: Callee, hook: Hook, body: Body, w: World, r: Resources, n: nat)
    requires Sized(w, n) && Addressed(req, hook, n) && Within(body, n)
    ensures var o := Execute(hooked, caller, depth, req, callee, hook, body, w, r, n);
      o.Done? ==> Conserves(w, o.world, HookBurnFree(req, hook) && BurnFree(body, Self(req)))
    decreases body, 2
  {
    var c := PreCheck(w, depth, req, callee, r);
    ChecksKeep(w, depth, req, callee, r);
    if c.Passed? {
      TransferConserves(c.world, caller, req, c.resources);
      var t := Transfer(c.world, caller, req, c.resources);
      if t.Passed? { EnterConserves(hooked, caller, depth, req, callee, hook, body, c.world, t.world, t.resources, n); }
    }
  }

  lemma {:induction false} EnterConserves(hooked: set<Addr>, caller: Environment, depth: nat, req: Request,
                                          callee: Callee, hook: Hook, body: Body, before: World, w: World, r: Resources,
                                          n: nat)
    requires Sized(before, n) && Sized(w, n) && Addressed(req, hook, n) && Within(body, n) && Conserves(before, w, true)
    ensures var o := Enter(hooked, caller, depth, req, callee, hook, body, before, w, r, n);
      o.Done? ==> Conserves(before, o.world, HookBurnFree(req, hook) && BurnFree(body, Self(req)))
    decreases body, 1
  {
    if req.callee in hooked {
      if hook.Intercepted? { AffectConserves(w, req, hook.effect); }
    } else {
      var s := Start(w, req, r);
      if s.Passed? { FrameConserves(hooked, depth, req, body, s.world, s.resources, n); }
    }
  }

  lemma {:induction false} FrameConserves(hooked: set<Addr>, depth: nat, req: Request, body: Body, w: World,
                                          r: Resources, n: nat)
    requires Sized(w, n) && req.caller < n && req.callee < n && Within(body, n)
    ensures var o := Frame(hooked, depth, req, body, w, r, n);
      o.Done? ==> Conserves(w, o.world, BurnFree(body, Self(req)))
    decreases body, 0
  {
    if !body.Fault? && StepCost(r, body.cost).1.Paid? {
      var r1 := StepCost(r, body.cost).0;
      match body
      case Compute(_, slot, word, next) =>
        FrameConserves(hooked, depth, req, next, Store(w, Self(req), slot, word), r1, n);
      case Invoke(_, request, hook, callee, ok, bad) =>
        HandleConserves(hooked, false, EVM, depth + 1, request, hook, callee, w, r1, n);
        var o := Handle(hooked, false, EVM, depth + 1, request, hook, callee, w, r1, n);
        if o.Done? && !o.result.PreparationStepFailed? {
          FrameConserves(hooked, depth, req, if o.result.Successful? then ok else bad, o.world, o.resources, n);
        }
      case _ => EndConserves(w, req, body, r1, n);
    }
  }

  //// When tokens are burned

  /** What a caller can check before sending `req.value` to the base token's hook at top level. */
  predicate CanWithdraw(req: Request, cost: Resources, w: World, r: Resources)
    requires req.caller < |w.balance| && req.callee < |w.balance|
  {
    && 0 < req.value <= w.balance[req.caller]
    && (req.caller == req.callee || w.balance[req.callee] + req.value < w.limit)
    && req.costs.read.native + req.costs.balance + req.costs.transfer + cost.native <= r.native && cost.ergs <= r.ergs
  }

  /** A withdrawal burns its value if and only if the balances and the resources allow it, and burns nothing else. */
  lemma WithdrawalBurns(hooked: set<Addr>, caller: Environment, req: Request, cost: Resources, body: Body, w: World,
                        r: Resources, n: nat)
    requires Sized(w, n) && req.caller < n && req.callee < n && Within(body, n) && req.callee in hooked
    requires req.modifier.NoModifier?
    ensures var o := Handle(hooked, true, caller, 0, req, Intercepted(cost, Withdraw, false), body, w, r, n);
      && (o.Done? && o.world.burned != w.burned <==> CanWithdraw(req, cost, w, r))
      && (CanWithdraw(req, cost, w, r) ==>
            o.result.Successful? && o.world.burned == w.burned + req.value && Sum(o.world.balance) + req.value == Sum(w.balance))
  {
    var hook := Intercepted(cost, Withdraw, false);
    HandleConserves(hooked, true, caller, 0, req, hook, body, w, r, n);
    HandleAtTop(hooked, caller, req, hook, body, w, r, n);
  }

  /** A self-destruct that ends its frame burns if and only if a marked account leaves something to itself. */
  lemma DestructBurns(w: World, req: Request, body: Body, r: Resources, n: nat)
    requires body.Destruct? && Within(body, n) && Sized(w, n) && req.caller < n && req.callee < n
    requires End(w, req, body, r).Passed?
    ensures var self := Self(req);
      End(w, req, body, r).world.burned != w.burned
      <==> body.beneficiary == self && (req.modifier.Constructor? || self in w.deployed) && w.balance[self] > 0
  {}

  lemma {:induction false} SplitSum(a: seq<nat>, b: seq<nat>, c: seq<nat>)
    requires |a| == |b| == |c| && forall i :: 0 <= i < |a| ==> a[i] == b[i] + c[i]
    ensures Sum(a) == Sum(b) + Sum(c)
  {
    if a != [] {
      var n := |a| - 1;
      SplitSum(a[..n], b[..n], c[..n]);
    }
  }

  lemma {:induction false} SumZero(s: seq<nat>)
    ensures Sum(s) == 0 <==> forall i :: 0 <= i < |s| ==> s[i] == 0
  {
    if s != [] {
      var n := |s| - 1;
      SumZero(s[..n]);
      assert forall i :: 0 <= i < n ==> s[..n][i] == s[i];
    }
  }

  /** A marked account is cleared altogether, any other keeps all it has, and no mark is left. */
  lemma FinishClears(w: World, n: nat, a: Addr, slot: nat)
    requires Sized(w, n) && a < n
    ensures var w' := FinishTx(w);
            && Sized(w', n) && w'.limit == w.limit && w'.deployed == {} && w'.destroyed == {}
            && (if a in w.destroyed
                then w'.balance[a] == w'.nonce[a] == w'.codeLen[a] == 0 && (a, slot) !in w'.storage
                else
                  && w'.balance[a] == w.balance[a] && w'.nonce[a] == w.nonce[a] && w'.codeLen[a] == w.codeLen[a]
                  && ((a, slot) in w'.storage <==> (a, slot) in w.storage)
                  && ((a, slot) in w.storage ==> w'.storage[(a, slot)] == w.storage[(a, slot)]))
  {}

  /** Clearing marked accounts conserves the supply, and burns nothing if and only if they are empty. */
  lemma FinishConserves(w: World)
    ensures var w' := FinishTx(w);
      && Conserves(w, w', false) && w'.destroyed == {}
      && (w'.burned == w.burned <==> forall a :: a in w.destroyed && a < |w.balance| ==> w.balance[a] == 0)
  {
    SplitSum(w.balance, FinishTx(w).balance, Marked(w));
    SumZero(Marked(w));
    if forall i :: 0 <= i < |Marked(w)| ==> Marked(w)[i] == 0 {
      forall a | a in w.destroyed && a < |w.balance| ensures w.balance[a] == 0 { assert Marked(w)[a] == 0; }
    }
  }
}
