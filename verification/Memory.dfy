/** Heap growth and its gas. */
module MemoryGas {
  import opened Digits
  import opened ResourceCounters

  const MEMORY: nat := 3
  const HEAP_EXPANSION_BASE_NATIVE_COST: nat := 35
  const HEAP_EXPANSION_PER_BYTE_NATIVE_COST: nat := 1
  const MAX_OFFSET: nat := 0xffff_ffff - 31

  datatype Exit = Running | OutOfGas | NativeExhausted | MemoryLimit

  /** The memory cost of `w` words, `C_mem` in appendix H of the Yellow Paper. */
  ghost function Cmem(w: nat): (c: nat) {
    MulPos(w, w);
    3 * w + w * w / 512
  }

  lemma CmemMono(v: nat, w: nat)
    requires v <= w
    ensures Cmem(v) <= Cmem(w)
  {
    MulMono(v, w, v);
    MulMono(v, w, w);
  }

  lemma CmemFits(w: nat)
    requires w <= 0x800_0000
    ensures w * w <= U64_MAX && Cmem(w) <= U64_MAX / ERGS_PER_GAS && 0 <= w * w
  {
    MulPos(w, w);
    MulMono(w, 0x800_0000, w);
    MulMono(w, 0x800_0000, 0x800_0000);
  }

  /** The words that cover the first `n` bytes. */
  function WordsFor(n: nat): (w: nat)
    ensures n <= 32 * w && (w > 0 ==> 32 * (w - 1) < n)
  {
    (n + 31) / 32
  }

  /** The gas counter and heap of a frame. */
  class Frame {
    var resources: Resources
    var paidForHeap: nat
    var heap: seq<nat>

    constructor (r: Resources)
      ensures Valid() && resources == r && heap == []
    {
      resources := r;
      paidForHeap := 0;
      heap := [];
    }

    /** The heap is whole words, all of them paid for. */
    ghost predicate Valid()
      reads this
    {
      |heap| % 32 == 0 && |heap| <= MAX_OFFSET && paidForHeap == Cmem(|heap| / 32)
    }

    /** `spend_gas_and_native` */
    method Spend(gas: nat, native: nat) returns (exit: Exit)
      modifies this`resources
      ensures exit.Running? <==> Affords(old(resources), gas, native)
      ensures exit.Running? ==>
        resources == Resources(old(resources.ergs) - gas * ERGS_PER_GAS, old(resources.native) - native)
      ensures resources.ergs <= old(resources.ergs) && resources.native <= old(resources.native) && exit != MemoryLimit
    {
      var (r, c) := SpendGas(resources, gas, native);
      resources := r;
      exit := match c case Paid => Running case OutOfErgs => OutOfGas case OutOfNative => NativeExhausted;
    }

    /** `pay_for_memory_growth`: the subtraction never underflows and nothing saturates. */
    method PayForGrowth(current: nat, new_: nat) returns (exit: Exit)
      requires current % 32 == 0 && new_ % 32 == 0 && current < new_ <= MAX_OFFSET + 31
      requires paidForHeap == Cmem(current / 32)
      modifies this`resources, this`paidForHeap
      ensures exit.Running? <==> Covers(old(resources), current, new_)
      ensures exit.Running? ==> paidForHeap == Cmem(new_ / 32)
      ensures exit.Running? ==>
        resources.ergs + (Cmem(new_ / 32) - Cmem(current / 32)) * ERGS_PER_GAS == old(resources.ergs)
      ensures exit.Running? ==> resources.native + 35 + (new_ - current) == old(resources.native)
      ensures !exit.Running? ==> paidForHeap == old(paidForHeap)
      ensures resources.ergs <= old(resources.ergs) && resources.native <= old(resources.native) && exit != MemoryLimit
    {
      var words := new_ / 32;
      CmemFits(words);
      CmemMono(current / 32, words);
      var endCost := SaturatingAdd(SaturatingMul(MEMORY, words), SaturatingMul(words, words) / 512);
      assert endCost == Cmem(words);
      var net := endCost - paidForHeap;
      var netNative := SaturatingAdd(HEAP_EXPANSION_BASE_NATIVE_COST,
                                     SaturatingMul(HEAP_EXPANSION_PER_BYTE_NATIVE_COST, new_ - current));
      exit := Spend(net, netNative);
      if exit.Running? { paidForHeap := endCost; }
    }

    /** `resize_heap_implementation`; `capacity` is the room left for the frame's heap. */
    method ResizeHeap(offset: nat, len: nat, capacity: nat) returns (exit: Exit)
      requires Valid() && offset <= U64_MAX && len <= U64_MAX
      modifies this
      ensures exit.Running? ==> Valid()
      ensures exit.Running? <==>
        && offset + len <= MAX_OFFSET
        && var size := 32 * WordsFor(offset + len);
          size > old(|heap|) ==> size <= capacity && Covers(old(resources), old(|heap|), size)
      ensures exit.Running? ==> |heap| / 32 == Max(old(|heap|) / 32, WordsFor(offset + len))
      ensures exit.Running? ==> heap[..old(|heap|)] == old(heap) && forall i :: old(|heap|) <= i < |heap| ==> heap[i] == 0
      ensures exit.Running? ==>
        resources.ergs + Cmem(|heap| / 32) * ERGS_PER_GAS == old(resources.ergs) + Cmem(old(|heap|) / 32) * ERGS_PER_GAS
      ensures exit == MemoryLimit <==> offset + len > MAX_OFFSET
      ensures !exit.Running? ==> heap == old(heap)
    {
      var maxOffset := SaturatingAdd(offset, len);
      if maxOffset > MAX_OFFSET { return MemoryLimit; }
      var size := 32 * WordsFor(maxOffset);
      var current := |heap|;
      if size > current {
        exit := PayForGrowth(current, size);
        if !exit.Running? { return; }
        if size > capacity { return OutOfGas; }
        heap := heap + seq(size - current, _ => 0);
      } else {
        exit := Running;
      }
    }

    /** A run of heap accesses that all succeed: only the furthest word decides what was paid. */
    method AccessAll(accesses: seq<(nat, nat)>, capacity: nat) returns (exit: Exit)
      requires Valid() && forall i :: 0 <= i < |accesses| ==> accesses[i].0 <= U64_MAX && accesses[i].1 <= U64_MAX
      modifies this
      ensures exit.Running? ==> Valid()
      ensures exit.Running? ==> |heap| / 32 == Furthest(old(|heap|) / 32, accesses)
      ensures exit.Running? ==>
        resources.ergs + Cmem(|heap| / 32) * ERGS_PER_GAS == old(resources.ergs) + Cmem(old(|heap|) / 32) * ERGS_PER_GAS
    {
      exit := Running;
      ghost var w := |heap| / 32;
      for i := 0 to |accesses|
        invariant exit.Running? && Valid() && |heap| / 32 == Furthest(w, accesses[..i])
        invariant resources.ergs + Cmem(|heap| / 32) * ERGS_PER_GAS == old(resources.ergs) + Cmem(w) * ERGS_PER_GAS
      {
        exit := ResizeHeap(accesses[i].0, accesses[i].1, capacity);
        if !exit.Running? { return; }
        assert accesses[..i + 1][..i] == accesses[..i];
      }
      assert accesses[..|accesses|] == accesses;
    }
  }

  /** The counters cover growing the heap from `current` to `new_` bytes. */
  ghost predicate Covers(r: Resources, current: nat, new_: nat) {
    && (Cmem(new_ / 32) - Cmem(current / 32)) * ERGS_PER_GAS <= r.ergs
    && HEAP_EXPANSION_BASE_NATIVE_COST + (new_ - current) * HEAP_EXPANSION_PER_BYTE_NATIVE_COST <= r.native
  }

  /** The furthest word any access needs. */
  ghost function Furthest(w: nat, accesses: seq<(nat, nat)>): (m: nat) {
    if accesses == [] then w
    else Max(Furthest(w, accesses[..|accesses| - 1]), WordsFor(accesses[|accesses| - 1].0 + accesses[|accesses| - 1].1))
  }

  lemma {:induction false} FurthestCovers(w: nat, a: seq<(nat, nat)>)
    ensures w <= Furthest(w, a)
    ensures forall i :: 0 <= i < |a| ==> WordsFor(a[i].0 + a[i].1) <= Furthest(w, a)
    ensures Furthest(w, a) == w || exists i :: 0 <= i < |a| && Furthest(w, a) == WordsFor(a[i].0 + a[i].1)
  {
    if a != [] {
      var n := |a| - 1;
      FurthestCovers(w, a[..n]);
      assert forall i :: 0 <= i < n ==> a[..n][i] == a[i];
      if Furthest(w, a) == Furthest(w, a[..n]) && Furthest(w, a) != w {
        var i :| 0 <= i < |a[..n]| && Furthest(w, a[..n]) == WordsFor(a[..n][i].0 + a[..n][i].1);
        assert Furthest(w, a) == WordsFor(a[i].0 + a[i].1);
      }
    }
  }

  /** Two ways through the heap that need the same words cost the same. */
  lemma PathIndependent(w: nat, a: seq<(nat, nat)>, b: seq<(nat, nat)>)
    requires forall x :: x in a <==> x in b
    ensures Cmem(Furthest(w, a)) == Cmem(Furthest(w, b))
  {
    FurthestCovers(w, a);
    FurthestCovers(w, b);
    OneSided(w, a, b);
    OneSided(w, b, a);
  }

  lemma OneSided(w: nat, a: seq<(nat, nat)>, b: seq<(nat, nat)>)
    requires forall x :: x in a ==> x in b
    ensures Furthest(w, a) <= Furthest(w, b)
  {
    FurthestCovers(w, a);
    FurthestCovers(w, b);
    if Furthest(w, a) != w {
      var i :| 0 <= i < |a| && Furthest(w, a) == WordsFor(a[i].0 + a[i].1);
      assert a[i] in b;
    }
  }
}
