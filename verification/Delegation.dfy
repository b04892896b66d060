/** The coprocessor operations on 256-bit words: each overwrites its first operand and returns a flag.
    The radix `w` of a word, `2^256` in the system, is a parameter. */
module Delegation {
  import opened Digits

  /** A word in memory, addressed by reference. */
  class Reg {
    var v: nat

    constructor (x: nat)
      ensures v == x
    {
      v := x;
    }

    ghost predicate Fits(w: nat)
      reads this
    {
      v < w
    }
  }

  /** The weight of a carry or borrow out of a word. */
  function Over(w: nat, f: bool): (d: nat) { if f then w else 0 }

  function Unit(f: bool): (d: nat) { if f then 1 else 0 }

  /** Low and high halves of a product. */
  lemma Halves(w: nat, x: nat, y: nat)
    requires x < w && y < w
    ensures 0 <= (x * y) % w < w && 0 <= (x * y) / w && (x * y) / w < w
    ensures (x * y) / w <= x && (x > 0 ==> (x * y) / w < x)
    ensures (x * y) / w <= y && (y > 0 ==> (x * y) / w < y)
    ensures (x * y) % w + w * ((x * y) / w) == x * y
  {
    MulPos(x, y);
    DivModDef(x * y, w);
    var q := (x * y) / w;
    Commute(q, w);
    HighHalf(w, x, y, q);
    Commute(x, y);
    HighHalf(w, y, x, q);
  }

  /** The high half is below either factor. */
  lemma HighHalf(w: nat, x: nat, y: nat, q: nat)
    requires y < w && q * w <= x * y
    ensures q <= x && (x > 0 ==> q < x)
  {
    MulMono(y, w - 1, x);
    Distrib(w, 1, x);
    Commute(w, x);
    if x > 0 && q >= x { MulMono(x, q, w); }
    if x == 0 && q > 0 { MulMonoStrict(0, q, w); }
  }

  /** `a := a + b + carry`, returning the carry out. */
  method Add(w: nat, a: Reg, b: Reg, carry: bool := false) returns (out: bool)
    requires a != b && a.Fits(w) && b.Fits(w)
    modifies a
    ensures a.Fits(w) && a.v + Over(w, out) == old(a.v) + b.v + Unit(carry)
  {
    var t := a.v + b.v;
    var of0 := t >= w;
    var u := (if of0 then t - w else t) + Unit(carry);
    var of1 := u >= w;
    a.v := if of1 then u - w else u;
    out := of0 || of1;
  }

  /** `a := a - b - borrow`, returning the borrow out. */
  method Sub(w: nat, a: Reg, b: Reg, borrow: bool := false) returns (out: bool)
    requires a != b && a.Fits(w) && b.Fits(w)
    modifies a
    ensures a.Fits(w) && a.v - Over(w, out) == old(a.v) - b.v - Unit(borrow)
  {
    var t := a.v - b.v;
    var of0 := t < 0;
    var u := (if of0 then t + w else t) - Unit(borrow);
    var of1 := u < 0;
    a.v := if of1 then u + w else u;
    out := of0 || of1;
  }

  /** `a := b - a - borrow`, returning the borrow out. */
  method SubAndNegate(w: nat, a: Reg, b: Reg, borrow: bool := false) returns (out: bool)
    requires a != b && a.Fits(w) && b.Fits(w)
    modifies a
    ensures a.Fits(w) && a.v - Over(w, out) == b.v - old(a.v) - Unit(borrow)
  {
    var t := b.v - a.v;
    var of0 := t < 0;
    var u := (if of0 then t + w else t) - Unit(borrow);
    var of1 := u < 0;
    a.v := if of1 then u + w else u;
    out := of0 || of1;
  }

  /** The low word of the product. */
  method MulLow(w: nat, a: Reg, b: Reg)
    requires a != b && a.Fits(w) && b.Fits(w)
    modifies a
    ensures a.Fits(w) && a.v == (old(a.v) * b.v) % w
  {
    Halves(w, a.v, b.v);
    a.v := (a.v * b.v) % w;
  }

  /** The high word of the product. */
  method MulHigh(w: nat, a: Reg, b: Reg)
    requires a != b && a.Fits(w) && b.Fits(w)
    modifies a
    ensures a.Fits(w) && a.v == (old(a.v) * b.v) / w
  {
    Halves(w, a.v, b.v);
    a.v := (a.v * b.v) / w;
  }

  /** Two copies of a word become the low and high word of its product with `b`. */
  method MulWide(w: nat, lo: Reg, hi: Reg, b: Reg)
    requires lo != hi && lo != b && hi != b && lo.v == hi.v && lo.Fits(w) && b.Fits(w)
    modifies lo, hi
    ensures lo.Fits(w) && hi.Fits(w) && lo.v + w * hi.v == old(lo.v) * b.v
    ensures hi.v <= old(lo.v) && (old(lo.v) > 0 ==> hi.v < old(lo.v))
    ensures hi.v <= b.v && (b.v > 0 ==> hi.v < b.v)
  {
    Halves(w, lo.v, b.v);
    MulLow(w, lo, b);
    MulHigh(w, hi, b);
  }

  method Equal(a: Reg, b: Reg) returns (eq: bool)
    requires a != b
    ensures eq <==> a.v == b.v
  {
    eq := a.v == b.v;
  }

  method MemCpy(a: Reg, b: Reg)
    requires a != b
    modifies a
    ensures a.v == b.v
  {
    a.v := b.v;
  }
}
