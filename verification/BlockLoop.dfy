/** The block loop: transactions are processed one after another and kept only within the block's limits. */
module BlockLoop {
  import opened Options
  import opened ResourceCounters

  const MAX_NUMBER_OF_LOGS: nat := 16_384

  datatype Kind = Upgrade | FromL1 | FromL2

  /** What a processed transaction reports. */
  datatype Summary = Summary(gasUsed: nat, nativeUsed: nat, pubdataUsed: nat, hash: nat)

  /** Processing may leave the state anywhere when it fails. */
  datatype Processing<W> = InternalError(world: W) | Invalid(world: W) | Processed(world: W, summary: Summary)

  datatype Tx<!W(!new)> = Undecodable | Tx(kind: Kind, process: W -> Processing<W>)

  /** Block limits, the log counter of a state, what the end of a valid transaction does to it, and one step of the
      rolling hash. */
  datatype Config<!W(!new)> = Config(gasLimit: nat, pubdataLimit: nat, logs: W -> nat, finish: W -> W,
                                     hash: (nat, nat) -> nat)

  /** `process_transaction`: an upgrade is invalid unless nothing was accepted before. */
  function Process<W(!new)>(tx: Tx<W>, w: W, first: bool): (p: Processing<W>)
    requires tx.Tx?
  {
    if tx.kind.Upgrade? && !first then Invalid(w) else tx.process(w)
  }

  /** Everything the loop accumulates. */
  datatype Totals = Totals(gas: nat, native: nat, pubdata: nat, rolling: nat, l1Hashes: seq<nat>, upgradeHash: nat,
                           count: nat)

  /** The sum of two 64-bit counters, which wraps. */
  function Wrap64(x: nat): (r: nat)
    ensures x <= 2 * U64_MAX + 1 ==> r <= U64_MAX && (r == x || r + U64_MAX + 1 == x)
  {
    if x <= U64_MAX then x else x - (U64_MAX + 1)
  }

  function Add<W(!new)>(c: Config<W>, t: Totals, kind: Kind, s: Summary): (t': Totals) {
    Totals(Wrap64(t.gas + s.gasUsed), Wrap64(t.native + s.nativeUsed), Wrap64(t.pubdata + s.pubdataUsed),
           c.hash(t.rolling, s.hash),
           if kind.FromL1? then t.l1Hashes + [s.hash] else t.l1Hashes,
           if kind.Upgrade? then s.hash else t.upgradeHash, t.count + 1)
  }

  /** `check_for_block_limits` */
  predicate WithinLimits<W(!new)>(c: Config<W>, t: Totals, w: W) {
    && t.gas <= c.gasLimit && t.native <= MAX_NATIVE_COMPUTATIONAL && t.pubdata <= c.pubdataLimit
    && c.logs(w) <= MAX_NUMBER_OF_LOGS
  }

  //// The fold over accepted transactions

  /** State and totals after a list of transactions, if each of them can be processed and kept in turn. */
  ghost function Fold<W(!new)>(c: Config<W>, w: W, txs: seq<Tx<W>>): (r: Option<(W, Totals)>) {
    if txs == [] then Some((w, Totals(0, 0, 0, 0, [], 0, 0)))
    else
      var n := |txs| - 1;
      match Fold(c, w, txs[..n])
      case None => None
      case Some((w1, t1)) => if txs[n].Undecodable? then None else Keep(c, t1, txs[n].kind, Process(txs[n], w1, n == 0))
  }

  /** A processed transaction is kept if the block stays within its limits. */
  function Keep<W(!new)>(c: Config<W>, t: Totals, kind: Kind, p: Processing<W>): (r: Option<(W, Totals)>) {
    if p.Processed? && WithinLimits(c, Add(c, t, kind, p.summary), p.world)
    then Some((c.finish(p.world), Add(c, t, kind, p.summary)))
    else None
  }

  /** The block takes the transaction: it can be processed, upgrades come first, and no limit is passed. */
  ghost predicate Admits<W(!new)>(c: Config<W>, t: Totals, tx: Tx<W>, w: W, first: bool) {
    && tx.Tx? && (tx.kind.Upgrade? ==> first) && tx.process(w).Processed?
    && var p := tx.process(w);
       && Wrap64(t.gas + p.summary.gasUsed) <= c.gasLimit
       && Wrap64(t.native + p.summary.nativeUsed) <= MAX_NATIVE_COMPUTATIONAL
       && Wrap64(t.pubdata + p.summary.pubdataUsed) <= c.pubdataLimit
       && c.logs(p.world) <= 16_384
  }

  lemma KeepAdmits<W(!new)>(c: Config<W>, t: Totals, tx: Tx<W>, w: W, first: bool)
    requires tx.Tx?
    ensures Keep(c, t, tx.kind, Process(tx, w, first)).Some? <==> Admits(c, t, tx, w, first)
  {}

  lemma FoldNext<W(!new)>(c: Config<W>, w: W, txs: seq<Tx<W>>, tx: Tx<W>)
    requires Fold(c, w, txs).Some? && tx.Tx?
    ensures var (w1, t1) := Fold(c, w, txs).value;
      Fold(c, w, txs + [tx]) == Keep(c, t1, tx.kind, Process(tx, w1, txs == []))
  {
    assert (txs + [tx])[..|txs|] == txs;
  }

  lemma {:induction false} FoldPrefix<W(!new)>(c: Config<W>, w: W, txs: seq<Tx<W>>, i: nat)
    requires Fold(c, w, txs).Some? && i <= |txs|
    ensures Fold(c, w, txs[..i]).Some?
  {
    if i < |txs| {
      var n := |txs| - 1;
      FoldPrefix(c, w, txs[..n], i);
      assert txs[..n][..i] == txs[..i];
    } else {
      assert txs[..i] == txs;
    }
  }

  /** The end of a transaction adds no logs. */
  ghost predicate Steady<W(!new)>(c: Config<W>) { forall w :: c.logs(c.finish(w)) == c.logs(w) }

  /** The transactions whose flag is set, in order. */
  ghost function Selected<T>(txs: seq<T>, flags: seq<bool>): (s: seq<T>)
    requires |txs| == |flags|
  {
    if txs == [] then [] else
    var n := |txs| - 1;
    Selected(txs[..n], flags[..n]) + if flags[n] then [txs[n]] else []
  }

  //// What the totals are

  /** The state after the last of the processed transactions. */
  ghost function Reached<W(!new)>(c: Config<W>, w: W, rs: seq<(W, Summary)>): (w': W) {
    if rs == [] then w else c.finish(rs[|rs| - 1].0)
  }

  /** Runs the transactions one after another, whatever the limits, and collects what each leaves and reports; `None` if
      one of them cannot be processed. Only the first may be an upgrade. */
  ghost function Replay<W(!new)>(c: Config<W>, w: W, txs: seq<Tx<W>>): (o: Option<seq<(W, Summary)>>)
    ensures o.Some? ==> |o.value| == |txs|
  {
    if txs == [] then Some([])
    else
      var n := |txs| - 1;
      var before := Replay(c, w, txs[..n]);
      if before.None? || txs[n].Undecodable? || (txs[n].kind.Upgrade? && n > 0) then None
      else match txs[n].process(Reached(c, w, before.value))
        case Processed(w', summary) => Some(before.value + [(w', summary)])
        case _ => None
  }

  /** A 64-bit counter over a column of numbers. */
  ghost function Tally(xs: seq<nat>): (t: nat) {
    if xs == [] then 0 else Wrap64(Tally(xs[..|xs| - 1]) + xs[|xs| - 1])
  }

  /** The rolling hash over a list of hashes, from 0. */
  ghost function Chain(hash: (nat, nat) -> nat, xs: seq<nat>): (h: nat) {
    if xs == [] then 0 else hash(Chain(hash, xs[..|xs| - 1]), xs[|xs| - 1])
  }

  ghost function Column<W(!new)>(rs: seq<(W, Summary)>, of: Summary -> nat): (xs: seq<nat>)
    ensures |xs| == |rs|
  {
    seq<nat>(|rs|, i requires 0 <= i < |rs| => of(rs[i].1))
  }

  ghost function GasColumn<W(!new)>(rs: seq<(W, Summary)>): (xs: seq<nat>) {
    Column(rs, (s: Summary) => s.gasUsed)
  }

  ghost function NativeColumn<W(!new)>(rs: seq<(W, Summary)>): (xs: seq<nat>) {
    Column(rs, (s: Summary) => s.nativeUsed)
  }

  ghost function PubdataColumn<W(!new)>(rs: seq<(W, Summary)>): (xs: seq<nat>) {
    Column(rs, (s: Summary) => s.pubdataUsed)
  }

  ghost function Hashes<W(!new)>(rs: seq<(W, Summary)>): (xs: seq<nat>)
    ensures |xs| == |rs|
  {
    Column(rs, (s: Summary) => s.hash)
  }

  /** Which of the transactions come from L1. */
  ghost function Deposits<W(!new)>(txs: seq<Tx<W>>): (flags: seq<bool>)
    ensures |flags| == |txs|
  {
    seq(|txs|, i requires 0 <= i < |txs| => txs[i].Tx? && txs[i].kind.FromL1?)
  }

  /** Counters and hashes of a list of processed transactions. */
  ghost predicate Ledger<W(!new)>(c: Config<W>, txs: seq<Tx<W>>, rs: seq<(W, Summary)>, t: Totals)
    requires |rs| == |txs|
  {
    && t.gas == Tally(GasColumn(rs)) && t.native == Tally(NativeColumn(rs)) && t.pubdata == Tally(PubdataColumn(rs))
    && t.rolling == Chain(c.hash, Hashes(rs))
    && t.l1Hashes == Selected(Hashes(rs), Deposits(txs))
    && t.upgradeHash == (if txs != [] && txs[0].Tx? && txs[0].kind.Upgrade? then rs[0].1.hash else 0)
    && t.count == |txs|
  }

  /** After these transactions the block is within its limits. */
  ghost predicate Fits<W(!new)>(c: Config<W>, rs: seq<(W, Summary)>)
    requires rs != []
  {
    && Tally(GasColumn(rs)) <= c.gasLimit && Tally(NativeColumn(rs)) <= MAX_NATIVE_COMPUTATIONAL
    && Tally(PubdataColumn(rs)) <= c.pubdataLimit && c.logs(rs[|rs| - 1].0) <= 16_384
  }

  lemma ColumnNext<W(!new)>(rs: seq<(W, Summary)>, r: (W, Summary), of: Summary -> nat)
    ensures Column(rs + [r], of)[..|rs|] == Column(rs, of) && Column(rs + [r], of)[|rs|] == of(r.1)
  {}

  /** One more processed transaction. */
  lemma LedgerNext<W(!new)>(c: Config<W>, txs: seq<Tx<W>>, rs: seq<(W, Summary)>, t: Totals, tx: Tx<W>, r: (W, Summary))
    requires |rs| == |txs| && Ledger(c, txs, rs, t) && tx.Tx? && (tx.kind.Upgrade? ==> txs == [])
    ensures Ledger(c, txs + [tx], rs + [r], Add(c, t, tx.kind, r.1))
    ensures WithinLimits(c, Add(c, t, tx.kind, r.1), r.0) <==> Fits(c, rs + [r])
  {
    ColumnNext(rs, r, (s: Summary) => s.gasUsed);
    ColumnNext(rs, r, (s: Summary) => s.nativeUsed);
    ColumnNext(rs, r, (s: Summary) => s.pubdataUsed);
    ColumnNext(rs, r, (s: Summary) => s.hash);
    assert Hashes(rs + [r])[..|rs|] == Hashes(rs);
    assert Deposits(txs + [tx])[..|txs|] == Deposits(txs);
  }

  /** Every prefix stays within the limits. */
  ghost predicate AllFit<W(!new)>(c: Config<W>, rs: seq<(W, Summary)>) {
    forall i :: 0 < i <= |rs| ==> Fits(c, rs[..i])
  }

  lemma AllFitNext<W(!new)>(c: Config<W>, rs: seq<(W, Summary)>, r: (W, Summary))
    ensures AllFit(c, rs + [r]) <==> AllFit(c, rs) && Fits(c, rs + [r])
  {
    assert forall i :: 0 < i <= |rs| ==> (rs + [r])[..i] == rs[..i];
    assert (rs + [r])[..|rs| + 1] == rs + [r];
    if AllFit(c, rs + [r]) {
      forall i | 0 < i <= |rs| ensures Fits(c, rs[..i]) { assert Fits(c, (rs + [r])[..i]); }
    }
  }

  lemma FoldStep<W(!new)>(c: Config<W>, w: W, txs: seq<Tx<W>>, before: seq<(W, Summary)>, w1: W, t1: Totals)
    requires txs != [] && Fold(c, w, txs[..|txs| - 1]) == Some((w1, t1))
    requires Replay(c, w, txs[..|txs| - 1]) == Some(before) && Replay(c, w, txs).Some?
    requires w1 == Reached(c, w, before) && Ledger(c, txs[..|txs| - 1], before, t1)
    ensures var (f, rs) := (Fold(c, w, txs), Replay(c, w, txs).value);
            && (f.Some? <==> Fits(c, rs))
            && (f.Some? ==> f.value.0 == Reached(c, w, rs) && Ledger(c, txs, rs, f.value.1))
  {
    var n := |txs| - 1;
    var r := Replay(c, w, txs).value[n];
    assert txs[..n] + [txs[n]] == txs;
    LedgerNext(c, txs[..n], before, t1, txs[n], r);
  }

  /** A list of transactions is kept exactly when all of it can be processed and every prefix stays within the limits.
      State, counters, rolling hash, L1 hashes and upgrade hash are then those of what was processed. */
  lemma {:induction false} FoldExact<W(!new)>(c: Config<W>, w: W, txs: seq<Tx<W>>)
    ensures var (f, o) := (Fold(c, w, txs), Replay(c, w, txs));
            && (f.Some? <==> o.Some? && AllFit(c, o.value))
            && (f.Some? ==> f.value.0 == Reached(c, w, o.value) && Ledger(c, txs, o.value, f.value.1))
  {
    if txs == [] {
      assert Deposits(txs) == [];
    } else {
      var n := |txs| - 1;
      FoldExact(c, w, txs[..n]);
      var before, o := Replay(c, w, txs[..n]), Replay(c, w, txs);
      if o.Some? {
        assert o.value == before.value + [o.value[n]];
        AllFitNext(c, before.value, o.value[n]);
        if AllFit(c, before.value) {
          var (w1, t1) := Fold(c, w, txs[..n]).value;
          FoldStep(c, w, txs, before.value, w1, t1);
        }
      }
    }
  }

  //// The counters do not wrap

  /** A summary that cannot wrap counters within the block's limits. */
  ghost predicate Modest<W(!new)>(c: Config<W>, s: Summary) {
    && s.gasUsed + c.gasLimit <= U64_MAX && s.nativeUsed + MAX_NATIVE_COMPUTATIONAL <= U64_MAX
    && s.pubdataUsed + c.pubdataLimit <= U64_MAX
  }

  /** Every summary the transaction can report is modest. */
  ghost predicate Reports<W(!new)>(c: Config<W>, tx: Tx<W>) {
    tx.Tx? ==> forall w: W :: tx.process(w).Processed? ==> Modest(c, tx.process(w).summary)
  }

  /** What the kept transactions used, added up without a bound. */
  ghost function Used<W(!new)>(c: Config<W>, w: W, txs: seq<Tx<W>>): (u: (nat, nat, nat))
    requires Fold(c, w, txs).Some?
  {
    if txs == [] then (0, 0, 0)
    else
      var n := |txs| - 1;
      var u := Used(c, w, txs[..n]);
      var s := Process(txs[n], Fold(c, w, txs[..n]).value.0, n == 0).summary;
      (u.0 + s.gasUsed, u.1 + s.nativeUsed, u.2 + s.pubdataUsed)
  }

  /** The counters are true sums within the limits. */
  ghost predicate Exact<W(!new)>(c: Config<W>, u: (nat, nat, nat), t: Totals) {
    && u == (t.gas, t.native, t.pubdata)
    && t.gas <= c.gasLimit && t.native <= MAX_NATIVE_COMPUTATIONAL && t.pubdata <= c.pubdataLimit
  }

  lemma KeepExact<W(!new)>(c: Config<W>, u: (nat, nat, nat), t: Totals, kind: Kind, p: Processing<W>)
    requires Exact(c, u, t) && Keep(c, t, kind, p).Some? && Modest(c, p.summary)
    ensures var s := p.summary;
      Exact(c, (u.0 + s.gasUsed, u.1 + s.nativeUsed, u.2 + s.pubdataUsed), Keep(c, t, kind, p).value.1)
  {}

  /** Over every block of modest transactions the 64-bit counters are the true sums, and those are within the limits. */
  lemma {:induction false} TotalsExact<W(!new)>(c: Config<W>, w: W, txs: seq<Tx<W>>)
    requires Fold(c, w, txs).Some? && forall i :: 0 <= i < |txs| ==> Reports(c, txs[i])
    ensures Exact(c, Used(c, w, txs), Fold(c, w, txs).value.1)
  {
    if txs != [] {
      var n := |txs| - 1;
      TotalsExact(c, w, txs[..n]);
      assert Reports(c, txs[n]);
      var before := Fold(c, w, txs[..n]).value;
      KeepExact(c, Used(c, w, txs[..n]), before.1, txs[n].kind, Process(txs[n], before.0, n == 0));
    }
  }

  class Block<W(!new)> {
    const config: Config<W>
    var world: W
    var saved: seq<W>
    var totals: Totals
    var firstTx: bool
    var accepted: seq<bool>
    ghost const start: W
    ghost var kept: seq<Tx<W>>

    constructor (config: Config<W>, w: W)
      requires config.logs(w) <= MAX_NUMBER_OF_LOGS
      ensures Valid() && start == w && this.config == config && kept == [] && accepted == []
    {
      this.config := config;
      world := w;
      start := w;
      saved := [];
      totals := Totals(0, 0, 0, 0, [], 0, 0);
      firstTx := true;
      accepted := [];
      kept := [];
    }

    /** State, totals and rolling hash are those of the kept transactions alone, within the limits. */
    ghost predicate Valid()
      reads this
    {
      && Fold(config, start, kept) == Some((world, totals))
      && WithinLimits(config, totals, world) && firstTx == (kept == [])
      && forall i :: 0 < i < |kept| ==> kept[i].Tx? && !kept[i].kind.Upgrade?
    }

    /** One turn of the loop; an internal error ends the block. */
    method Next(tx: Tx<W>) returns (ok: bool)
      requires Valid() && Steady(config)
      modifies this
      ensures ok ==> Valid() && |accepted| == |old(accepted)| + 1 && accepted[..|old(accepted)|] == old(accepted)
      ensures ok && accepted[|old(accepted)|] ==> kept == old(kept) + [tx]
      ensures Fold(config, start, old(kept) + [tx]).Some? <==> ok && accepted[|old(accepted)|]
      ensures ok && accepted[|old(accepted)|] <==> Admits(config, old(totals), tx, old(world), old(kept) == [])
      ensures !ok <==> tx.Tx? && (tx.kind.Upgrade? ==> old(kept) == []) && tx.process(old(world)).InternalError?
      ensures ok && !accepted[|old(accepted)|] ==>
        kept == old(kept) && world == old(world) && totals == old(totals) && firstTx == old(firstTx)
    {
      if tx.Undecodable? {
        assert (kept + [tx])[..|kept|] == kept;
        accepted := accepted + [false];
        return true;
      }
      FoldNext(config, start, kept, tx);
      KeepAdmits(config, totals, tx, world, firstTx);
      var handle := |saved|;
      saved := saved + [world];
      var result := Process(tx, world, firstTx);
      world := result.world;
      match result
      case InternalError(_) => return false;
      case Invalid(_) =>
        world := saved[handle];
        accepted := accepted + [false];
        return true;
      case Processed(_, summary) =>
        var next := Add(config, totals, tx.kind, summary);
        if !WithinLimits(config, next, world) {
          world := saved[handle];
          accepted := accepted + [false];
        } else {
          totals := next;
          firstTx := false;
          accepted := accepted + [true];
          kept := kept + [tx];
          world := config.finish(world);
        }
        return true;
    }

    /** `run_prepared`'s loop over every transaction sequence. Kept transactions alone would all be kept again. */
    method Run(txs: seq<Tx<W>>) returns (ok: bool)
      requires Valid() && Steady(config) && kept == [] && accepted == []
      modifies this
      ensures ok ==> Valid() && |accepted| == |txs| && kept == Selected(txs, accepted)
      ensures ok ==> var o := Replay(config, start, kept);
        && o.Some? && world == Reached(config, start, o.value) && Ledger(config, kept, o.value, totals)
        && AllFit(config, o.value)
      ensures Fold(config, start, txs).Some? ==> ok && kept == txs
    {
      for i := 0 to |txs|
        invariant Valid() && |accepted| == i && kept == Selected(txs[..i], accepted)
        invariant Fold(config, start, txs).Some? ==> kept == txs[..i]
      {
        ghost var before := accepted;
        if Fold(config, start, txs).Some? { FoldPrefix(config, start, txs, i + 1); }
        assert txs[..i] + [txs[i]] == txs[..i + 1];
        ok := Next(txs[i]);
        if !ok { return; }
        assert txs[..i + 1][..i] == txs[..i] && accepted[..i] == before;
      }
      assert txs[..|txs|] == txs;
      FoldExact(config, start, kept);
      ok := true;
    }
  }
}
