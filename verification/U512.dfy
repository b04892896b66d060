/** Two-word modular arithmetic over a small set of reused scratch words. */
module TwoLimb {
  import opened Digits
  import opened Delegation
  import OneLimb

  const LIMB: nat := 0x1_0000_0000_0000_0000

  /** A two-word number; the coprocessor addresses its halves separately. */
  class Double {
    const low: Reg
    const high: Reg

    constructor (x: nat, y: nat)
      ensures low.v == x && high.v == y && low != high && fresh(low) && fresh(high)
    {
      low := new Reg(x);
      high := new Reg(y);
    }

    ghost predicate Fits(w: nat)
      reads this, low, high
    {
      low != high && low.Fits(w) && high.Fits(w)
    }

    ghost function Value(w: nat): (n: nat)
      reads this, low, high
    {
      low.v + w * high.v
    }
  }

  class Scratch {
    const w: nat
    const copy: Double
    const place0: Reg
    const place1: Reg
    const place2: Reg
    const place3: Reg
    const place4: Reg
    const place5: Reg
    const lowWord: Reg
    const one: Reg
    const zero: Reg

    ghost predicate Valid()
      reads this, copy, copy.low, copy.high, lowWord, one, zero
    {
      && place0 !in {place1, place2, place3, place4, place5, lowWord, one, zero}
      && place1 !in {place2, place3, place4, place5, lowWord, one, zero}
      && place2 !in {place3, place4, place5, lowWord, one, zero}
      && place3 !in {place4, place5, lowWord, one, zero}
      && place4 !in {place5, lowWord, one, zero}
      && place5 !in {lowWord, one, zero}
      && lowWord !in {one, zero} && one != zero
      && Operand(copy.low) && Operand(copy.high) && copy.Fits(w)
      && one.v == 1 && zero.v == 0 && lowWord.v < LIMB <= w
    }

    /** A word that the multiplication uses as none of its scratch words. */
    ghost predicate Operand(r: Reg) {
      r !in {place0, place1, place2, place3, place4, place5, lowWord, one, zero}
    }

    ghost predicate Distinct(a: Double, b: Double) {
      a.low !in {b.low, b.high} && a.high !in {b.low, b.high}
    }

    constructor (w: nat)
      requires w >= LIMB
      ensures Valid() && this.w == w
    {
      this.w := w;
      copy := new Double(0, 0);
      place0 := new Reg(0);
      place1 := new Reg(0);
      place2 := new Reg(0);
      place3 := new Reg(0);
      place4 := new Reg(0);
      place5 := new Reg(0);
      lowWord := new Reg(0);
      one := new Reg(1);
      zero := new Reg(0);
    }

    /** `lo + w*hi := src * b` */
    method Product(lo: Reg, hi: Reg, src: Reg, b: Reg)
      requires lo !in {hi, src, b} && hi !in {src, b} && src.Fits(w) && b.Fits(w)
      modifies lo, hi
      ensures lo.Fits(w) && hi.Fits(w) && lo.v + w * hi.v == src.v * b.v
    {
      MemCpy(lo, src);
      MemCpy(hi, lo);
      MulWide(w, lo, hi, b);
    }

    /** `lo + w*hi := src * b + c`, with the carry of the low words moved into `hi`. */
    method MulAdd(lo: Reg, hi: Reg, src: Reg, b: Reg, c: Reg)
      requires lo !in {hi, src, b, c, one} && hi !in {src, b, c, one} && one.v == 1
      requires src.Fits(w) && b.Fits(w) && c.Fits(w) && w > 1
      modifies lo, hi
      ensures lo.Fits(w) && hi.Fits(w) && lo.v + w * hi.v == src.v * b.v + c.v
    {
      MemCpy(lo, src);
      MemCpy(hi, lo);
      Halves(w, src.v, b.v);
      MulLow(w, lo, b);
      ghost var l, h := lo.v, (src.v * b.v) / w;
      var carry := Add(w, lo, c);
      MulHigh(w, hi, b);
      Room(w, src.v, b.v, l, h, c.v, 0, lo.v, Unit(carry));
      if carry { var _ := Add(w, hi, one); }
    }

    /** `lo + w*carry := src * b + c + carry`: the incoming carry word receives the outgoing one. */
    method MulAddCarry(lo: Reg, carry: Reg, src: Reg, b: Reg, c: Reg)
      requires lo !in {carry, src, b, c, lowWord} && carry !in {src, b, c, lowWord}
      requires src != lowWord && b != lowWord && c != lowWord && lowWord.v < LIMB <= w
      requires src.Fits(w) && b.Fits(w) && c.Fits(w) && carry.Fits(w)
      modifies lo, carry, lowWord
      ensures lo.Fits(w) && carry.Fits(w) && lowWord.v < LIMB
      ensures lo.v + w * carry.v == src.v * b.v + c.v + old(carry.v)
    {
      ghost var d := carry.v;
      MemCpy(lo, src);
      Halves(w, src.v, b.v);
      MulLow(w, lo, b);
      ghost var l, h := lo.v, (src.v * b.v) / w;
      var of0 := Add(w, lo, c);
      var of1 := Add(w, lo, carry);
      MemCpy(carry, src);
      MulHigh(w, carry, b);
      Room(w, src.v, b.v, l, h, c.v, d, lo.v, Unit(of0) + Unit(of1));
      AddCarries(carry, of0, of1);
    }

    /** `lo + w*src := src * b + c + d`: the factor itself receives the high word. */
    method MulAddInto(lo: Reg, src: Reg, b: Reg, c: Reg, d: Reg)
      requires lo !in {src, b, c, d, lowWord} && src !in {b, c, d, lowWord}
      requires b != lowWord && c != lowWord && d != lowWord && lowWord.v < LIMB <= w
      requires src.Fits(w) && b.Fits(w) && c.Fits(w) && d.Fits(w)
      modifies lo, src, lowWord
      ensures lo.Fits(w) && src.Fits(w) && lowWord.v < LIMB
      ensures lo.v + w * src.v == old(src.v) * b.v + c.v + d.v
    {
      ghost var x := src.v;
      MemCpy(lo, src);
      Halves(w, src.v, b.v);
      MulLow(w, lo, b);
      ghost var l, h := lo.v, (src.v * b.v) / w;
      var of0 := Add(w, lo, c);
      var of1 := Add(w, lo, d);
      MulHigh(w, src, b);
      Room(w, x, b.v, l, h, c.v, d.v, lo.v, Unit(of0) + Unit(of1));
      AddCarries(src, of0, of1);
    }

    /** Two carry flags reach a word through the scratch word whose upper limbs stay zero. */
    method AddCarries(hi: Reg, of0: bool, of1: bool)
      requires hi != lowWord && hi.Fits(w) && lowWord.v < LIMB <= w && hi.v + Unit(of0) + Unit(of1) < w
      modifies hi, lowWord
      ensures hi.v == old(hi.v) + Unit(of0) + Unit(of1) && lowWord.v < LIMB
    {
      if of0 || of1 {
        lowWord.v := lowWord.v - lowWord.v % LIMB + Unit(of0) + Unit(of1);
        var _ := Add(w, hi, lowWord);
      }
    }

    /** Chooses `k` so that `p*k` clears `r`, leaving the carry of the cleared word in `c`. */
    method ReduceLow(r: Reg, k: Reg, cleared: Reg, c: Reg, p: Reg, rc: Reg)
      requires r !in {k, cleared, c} && k !in {cleared, c, p, rc, one} && cleared !in {c, p, rc, one}
      requires c !in {p, rc, one}
      requires r.Fits(w) && p.Fits(w) && rc.Fits(w) && one.v == 1 && w > 1 && (p.v * rc.v + 1) % w == 0
      modifies k, cleared, c
      ensures k.Fits(w) && c.Fits(w) && w * c.v == p.v * k.v + r.v && cleared.v == 0
    {
      MemCpy(k, r);
      MulLow(w, k, rc);
      OneLimb.ReductionClears(w, p.v, rc.v, r.v, k.v);
      MemCpy(cleared, p);
      Halves(w, p.v, k.v);
      MulLow(w, cleared, k);
      ghost var l, h := cleared.v, (p.v * k.v) / w;
      var carry := Add(w, cleared, r);
      MemCpy(c, p);
      MulHigh(w, c, k);
      Commute(p.v, k.v);
      OneLimb.LowWordVanishes(w, r.v, l, p.v * k.v, h, carry, cleared.v);
      Room(w, p.v, k.v, l, h, r.v, 0, cleared.v, Unit(carry));
      if carry { var _ := Add(w, c, one); }
    }

    /** Operands, modulus and reduction constant of a multiplication. */
    ghost predicate Ready(a: Double, p: Double, rc: Reg)
      reads this, copy, copy.low, copy.high, lowWord, one, zero, a, a.low, a.high, p, p.low, p.high, rc
    {
      && Valid() && a.Fits(w) && p.Fits(w) && rc.Fits(w) && Distinct(a, p) && rc !in {a.low, a.high}
      && Operand(a.low) && Operand(a.high) && Operand(p.low) && Operand(p.high) && Operand(rc)
      && (p.low.v * rc.v + 1) % w == 0 && 0 < 4 * p.Value(w) <= w * w
    }

    /** The first row: `a * b0` plus the multiple of `p` that clears its low word, in `place1` and `place5`.
        The carry out of its last addition is returned; the caller drops it. */
    method FirstRow(a: Double, b: Reg, p: Double, rc: Reg) returns (carry: bool, ghost k: nat)
      requires Ready(a, p, rc) && Operand(b) && b.Fits(w)
      modifies place0, place1, place2, place3, place4, place5, lowWord
      ensures Valid() && place1.Fits(w) && place5.Fits(w) && k < w
      ensures w * (place1.v + w * (place5.v + Over(w, carry))) == a.Value(w) * b.v + p.Value(w) * k
    {
      Product(place0, place1, a.low, b);
      ghost var x0, c1 := place0.v, place1.v;
      ReduceLow(place0, place2, place3, place4, p.low, rc);
      k := place2.v;
      ghost var c2 := place4.v;
      MulAdd(place3, place5, a.high, b, place1);
      ghost var x1, n1 := place3.v, place5.v;
      MulAddCarry(place1, place4, p.high, place2, place3);
      RowIdentity(w, a.low.v, a.high.v, b.v, p.low.v, p.high.v, k, 0, 0, x0, c1, c2, x1, n1, place1.v, place4.v);
      carry := Add(w, place5, place4);
    }

    /** The second row: adds `a * b1` and a clearing multiple of `p` to the first row, into `a`.
        The carry out of its last addition is returned; the caller drops it. */
    method SecondRow(a: Double, b: Reg, p: Double, rc: Reg) returns (carry: bool, ghost k: nat)
      requires Ready(a, p, rc) && Operand(b) && b !in {a.low, a.high} && b.Fits(w)
      requires place1.Fits(w) && place5.Fits(w)
      modifies a.low, a.high, place0, place1, place2, place3, place4, place5, lowWord
      ensures Valid() && a.Fits(w) && k < w
      ensures w * (a.low.v + w * (a.high.v + Over(w, carry)))
           == old(place1.v + w * place5.v) + old(a.Value(w)) * b.v + p.Value(w) * k
    {
      ghost var a0, a1, t0, t1 := a.low.v, a.high.v, place1.v, place5.v;
      MulAdd(place0, place2, a.low, b, place1);
      ghost var x0, c1 := place0.v, place2.v;
      ReduceLow(place0, place1, place3, place4, p.low, rc);
      k := place1.v;
      ghost var c2 := place4.v;
      MulAddInto(place3, a.high, b, place2, place5);
      ghost var x1, n1 := place3.v, a.high.v;
      MulAddCarry(a.low, place4, p.high, place1, place3);
      RowIdentity(w, a0, a1, b.v, p.low.v, p.high.v, k, t0, t1, x0, c1, c2, x1, n1, a.low.v, place4.v);
      carry := Add(w, a.high, place4);
    }

    /** `mul_assign_montgomery`: `r` below `2p` with `r * w^2` congruent to `a * b`, for `a`, `b` below `2p`. */
    method MulMontgomery(a: Double, b: Double, p: Double, rc: Reg)
      requires Valid() && a.Fits(w) && b.Fits(w) && p.Fits(w) && rc.Fits(w)
      requires Operand(a.low) && Operand(a.high) && Operand(b.low) && Operand(b.high)
      requires Operand(p.low) && Operand(p.high) && Operand(rc)
      requires Distinct(a, b) && Distinct(a, p) && rc !in {a.low, a.high}
      requires 0 < 4 * p.Value(w) <= w * w && (p.Value(w) * rc.v + 1) % w == 0
      requires a.Value(w) < 2 * p.Value(w) && b.Value(w) < 2 * p.Value(w)
      modifies a.low, a.high, place0, place1, place2, place3, place4, place5, lowWord
      ensures Valid() && a.Fits(w)
      ensures a.Value(w) < 2 * p.Value(w)
      ensures (a.Value(w) * (w * w)) % p.Value(w) == (old(a.Value(w)) * b.Value(w)) % p.Value(w)
      ensures forall h: nat :: HalfRoom(w, h, p.Value(w)) ==> a.high.v < h
    {
      LowWordInverse(w, p.low.v, p.high.v, rc.v);
      ghost var k0 := FirstHalf(a, b.low, p, rc);
      SecondHalf(a, b, p, rc, a.Value(w), p.Value(w), k0, place1.v + w * place5.v);
      UpperHalves(w, p.Value(w), a.low.v, a.high.v);
    }

    /** The first row, whose last carry is zero. */
    method FirstHalf(a: Double, b: Reg, p: Double, rc: Reg) returns (ghost k: nat)
      requires Ready(a, p, rc) && Operand(b) && b.Fits(w) && a.Value(w) < 2 * p.Value(w)
      modifies place0, place1, place2, place3, place4, place5, lowWord
      ensures Valid() && place1.Fits(w) && place5.Fits(w) && k < w
      ensures w * (place1.v + w * place5.v) == a.Value(w) * b.v + p.Value(w) * k
      ensures forall h: nat :: HalfRoom(w, h, p.Value(w)) ==> place5.v < h
    {
      ghost var A, P := a.Value(w), p.Value(w);
      var carry;
      carry, k := FirstRow(a, b, p, rc);
      FirstRowRoom(w, A, b.v, P, k, place1.v, place5.v + Over(w, carry));
      UpperHalves(w, P, place1.v, place5.v);
    }

    /** The second row and the bound that both rows together satisfy. */
    method SecondHalf(a: Double, b: Double, p: Double, rc: Reg, ghost A: nat, ghost P: nat, ghost k0: nat, ghost t: nat)
      requires Ready(a, p, rc) && Operand(b.low) && Operand(b.high) && b.Fits(w)
      requires place1.Fits(w) && place5.Fits(w) && t == place1.v + w * place5.v && A == a.Value(w) && P == p.Value(w)
      requires A < 2 * P && b.Value(w) < 2 * P && k0 < w && w * t == A * b.low.v + P * k0
      requires Distinct(a, b)
      modifies a.low, a.high, place0, place1, place2, place3, place4, place5, lowWord
      ensures Valid() && a.Fits(w) && a.Value(w) < 2 * P && (a.Value(w) * (w * w)) % P == (A * b.Value(w)) % P
    {
      var carry, k1 := SecondRow(a, b.high, p, rc);
      BothRows(w, A, b.low.v, b.high.v, P, k0, k1, t, a.low.v, a.high.v + Over(w, carry));
    }

    /** `square_assign_montgomery` */
    method SquareMontgomery(a: Double, p: Double, rc: Reg)
      requires Valid() && a.Fits(w) && p.Fits(w) && rc.Fits(w)
      requires Operand(a.low) && Operand(a.high) && Operand(p.low) && Operand(p.high) && Operand(rc)
      requires Distinct(a, copy) && Distinct(p, copy) && rc !in {copy.low, copy.high}
      requires Distinct(a, p) && rc !in {a.low, a.high}
      requires 0 < 4 * p.Value(w) <= w * w && (p.Value(w) * rc.v + 1) % w == 0 && a.Value(w) < 2 * p.Value(w)
      modifies a.low, a.high, copy.low, copy.high, place0, place1, place2, place3, place4, place5, lowWord
      ensures Valid() && a.Fits(w)
      ensures a.Value(w) < 2 * p.Value(w)
      ensures (a.Value(w) * (w * w)) % p.Value(w) == (old(a.Value(w)) * old(a.Value(w))) % p.Value(w)
      ensures forall h: nat :: HalfRoom(w, h, p.Value(w)) ==> a.high.v < h
    {
      MemCpy(copy.low, a.low);
      MemCpy(copy.high, a.high);
      MulMontgomery(a, copy, p, rc);
    }
  }

  /** The reduction constant for `p` is the one for its low word. */
  lemma LowWordInverse(w: nat, p0: nat, p1: nat, rc: nat)
    requires w > 0 && ((p0 + w * p1) * rc + 1) % w == 0
    ensures (p0 * rc + 1) % w == 0
  {
    Distrib(p0, w * p1, rc);
    Assoc(w, p1, rc);
    Commute(w, p1 * rc);
    CongIntro((p0 + w * p1) * rc + 1, p0 * rc + 1, p1 * rc, w);
  }

  /** One row of the two-word product-and-reduce scheme, from its four word-level equations. */
  lemma RowIdentity(w: int, a0: int, a1: int, b: int, p0: int, p1: int, k: int, t0: int, t1: int, x0: int, c1: int,
                    c2: int, x1: int, n1: int, y0: int, n2: int)
    requires x0 + w * c1 == a0 * b + t0
    requires w * c2 == p0 * k + x0
    requires x1 + w * n1 == a1 * b + c1 + t1
    requires y0 + w * n2 == p1 * k + x1 + c2
    ensures w * (y0 + w * (n1 + n2)) == (t0 + w * t1) + (a0 + w * a1) * b + (p0 + w * p1) * k
  {
    var s := p1 * k + a1 * b + c1 + c2 + t1;
    assert y0 + w * (n1 + n2) == s by { Distrib(n1, n2, w); }
    assert w * s == w * (p1 * k) + w * (a1 * b) + w * c1 + w * c2 + w * t1 by {
      Distrib(p1 * k + a1 * b + c1 + c2, t1, w);
      Distrib(p1 * k + a1 * b + c1, c2, w);
      Distrib(p1 * k + a1 * b, c1, w);
      Distrib(p1 * k, a1 * b, w);
    }
    assert (a0 + w * a1) * b == a0 * b + w * (a1 * b) by { Distrib(a0, w * a1, b); Assoc(w, a1, b); }
    assert (p0 + w * p1) * k == p0 * k + w * (p1 * k) by { Distrib(p0, w * p1, k); Assoc(w, p1, k); }
  }

  /** A row that is at most `w * bound` fits its two words. */
  lemma RowRoom(w: nat, y0: nat, n: nat, bound: nat)
    requires w > 0 && bound < w * w && w * (y0 + w * n) <= w * bound
    ensures n < w
  {
    if y0 + w * n > bound { MulMonoStrict(bound, y0 + w * n, w); }
    if n >= w { MulMono(w, n, w); }
  }

  lemma FirstRowRoom(w: nat, a: nat, b: nat, p: nat, k: nat, y0: nat, n: nat)
    requires a < 2 * p && b < w && k < w && 4 * p <= w * w && w * (y0 + w * n) == a * b + p * k
    ensures n < w && y0 + w * n <= 3 * p
  {
    MulMono(a, 2 * p, b);
    MulMono(b, w, 2 * p);
    MulMono(k, w, p);
    assert (2 * p) * w + p * w == w * (3 * p) by { Distrib(2 * p, p, w); Commute(3 * p, w); }
    Commute(p, k);
    RowRoom(w, y0, n, 3 * p);
    if y0 + w * n > 3 * p { MulMonoStrict(3 * p, y0 + w * n, w); }
  }

  /** Three times the modulus leaves room above `h` in the high word: with `h = 2^128`, in its upper half. */
  ghost predicate HalfRoom(w: nat, h: nat, p: nat) { 3 * p < w * h }

  /** Both rows stay at or below `3p`, so the part of their high word above such an `h` is zero. */
  lemma UpperHalves(w: nat, p: nat, y0: nat, n: nat)
    requires y0 + w * n <= 3 * p
    ensures forall h: nat :: HalfRoom(w, h, p) ==> n < h
  {
    forall h: nat | HalfRoom(w, h, p) ensures n < h {
      if n >= h { MulMono(h, n, w); Commute(h, w); Commute(n, w); }
    }
  }

  /** Both rows together: the result is below `2p`, so its last carry is zero. */
  lemma BothRows(w: nat, a: nat, b0: nat, b1: nat, p: nat, k0: nat, k1: nat, t: nat, y0: nat, n: nat)
    requires a < 2 * p && b0 + w * b1 < 2 * p && k0 < w && k1 < w && 0 < 4 * p <= w * w
    requires w * t == a * b0 + p * k0 && w * (y0 + w * n) == t + a * b1 + p * k1
    ensures n < w && y0 + w * n < 2 * p
    ensures ((y0 + w * n) * (w * w)) % p == (a * (b0 + w * b1)) % p
  {
    var y, b, k := y0 + w * n, b0 + w * b1, k0 + w * k1;
    Combine(w, a, b0, b1, p, k0, k1, t, y);
    assert k < w * w by { MulMono(k1, w - 1, w); Distrib(w, 1, w); }
    BelowTwice(w * w, a, b, p, k, y);
    if n >= w { MulMono(w, n, w); }
    Commute(w * w, y);
    Commute(p, k);
    CongIntro(y * (w * w), a * b, k, p);
  }

  lemma Combine(w: int, a: int, b0: int, b1: int, p: int, k0: int, k1: int, t: int, y: int)
    requires w * t == a * b0 + p * k0 && w * y == t + a * b1 + p * k1
    ensures (w * w) * y == a * (b0 + w * b1) + p * (k0 + w * k1)
  {
    Assoc(w, w, y);
    Distrib(t + a * b1, p * k1, w);
    Distrib(t, a * b1, w);
    Swap(w, a, b1);
    Swap(w, p, k1);
    Distrib(b0, w * b1, a);
    Distrib(k0, w * k1, p);
  }

  lemma BelowTwice(r: nat, a: nat, b: nat, p: nat, k: nat, y: nat)
    requires a < 2 * p && b < 2 * p && 4 * p <= r && k < r && r * y == a * b + p * k
    ensures y < 2 * p
  {
    assert a * b <= (2 * p) * (2 * p) by { MulMono(a, 2 * p, b); MulMono(b, 2 * p, 2 * p); }
    assert (2 * p) * (2 * p) == p * (4 * p);
    MulMono(4 * p, r, p);
    MulMonoStrict(k, r, p);
    assert y * r < (2 * p) * r by { Commute(r, y); Commute(p, r); Distrib(p, p, r); }
    MulCancelLt(y, 2 * p, r);
  }

  /** Adding at most two words to a product of words never overflows two words. */
  lemma Room(w: nat, x: nat, y: nat, l: nat, h: nat, c: nat, d: nat, sum: nat, n: nat)
    requires x < w && y < w && c < w && d < w && l + w * h == x * y
    requires n <= 2 && sum + (if n == 0 then 0 else if n == 1 then w else 2 * w) == l + c + d
    ensures sum + w * (h + n) == x * y + c + d && h + n < w
  {
    assert w * n == (if n == 0 then 0 else if n == 1 then w else 2 * w);
    Distrib(h, n, w);
    assert x * y <= (w - 1) * (w - 1) by { MulMono(x, w - 1, y); MulMono(y, w - 1, w - 1); }
    assert (w - 1) * (w - 1) == w * w - 2 * w + 1;
    if h + n >= w { MulMono(w, h + n, w); }
  }

  //// Addition, subtraction and negation

  lemma PairBound(w: nat, x: nat, y: nat)
    requires x < w && y < w
    ensures x + w * y < w * w
  {
    MulMono(y, w - 1, w);
    Distrib(w, 1, w);
  }

  /** A carry or borrow between the words and one out of them, as one carry or borrow out of the pair. */
  lemma PairCarry(w: nat, y: int, z: int, u: int, inner: bool, outer: bool)
    requires u + Over(w, outer) == y + z + Unit(inner)
    ensures w * u + Over(w * w, outer) == w * y + w * z + Over(w, inner)
  {
    Distrib(u, Over(w, outer), w);
    Distrib(y + z, Unit(inner), w);
    Distrib(y, z, w);
  }

  lemma PairBorrow(w: nat, y: int, z: int, u: int, inner: bool, outer: bool)
    requires u - Over(w, outer) == y - z - Unit(inner)
    ensures w * u - Over(w * w, outer) == w * y - w * z - Over(w, inner)
  {
    Distrib(u, Over(w, outer), w);
    Distrib(y - z, Unit(inner), w);
    Distrib(y, z, w);
  }

  /** Word-by-word addition with a rippled carry. */
  method AddPair(w: nat, a: Double, b: Double) returns (carry: bool)
    requires a.Fits(w) && b.Fits(w) && a.low !in {b.low, b.high} && a.high !in {b.low, b.high}
    modifies a.low, a.high
    ensures a.Fits(w) && a.Value(w) + Over(w * w, carry) == old(a.Value(w)) + b.Value(w)
  {
    ghost var y := a.high.v;
    var inner := Add(w, a.low, b.low);
    carry := Add(w, a.high, b.high, inner);
    PairCarry(w, y, b.high.v, a.high.v, inner, carry);
  }

  /** Word-by-word subtraction with a rippled borrow. */
  method SubPair(w: nat, a: Double, b: Double) returns (borrow: bool)
    requires a.Fits(w) && b.Fits(w) && a.low !in {b.low, b.high} && a.high !in {b.low, b.high}
    modifies a.low, a.high
    ensures a.Fits(w) && a.Value(w) - Over(w * w, borrow) == old(a.Value(w)) - b.Value(w)
  {
    ghost var y := a.high.v;
    var inner := Sub(w, a.low, b.low);
    borrow := Sub(w, a.high, b.high, inner);
    PairBorrow(w, y, b.high.v, a.high.v, inner, borrow);
  }

  /** `sub_mod_with_carry` */
  method SubModWithCarry(w: nat, a: Double, m: Double, carry: bool)
    requires a.Fits(w) && m.Fits(w) && a.low !in {m.low, m.high} && a.high !in {m.low, m.high}
    requires a.Value(w) + Over(w * w, carry) < 2 * m.Value(w)
    modifies a.low, a.high
    ensures a.Fits(w) && a.Value(w) == (old(a.Value(w)) + Over(w * w, carry)) % m.Value(w)
  {
    ghost var x, M := a.Value(w) + Over(w * w, carry), m.Value(w);
    if x >= M { DivModUnique(x, M, 1, x - M); } else { ModSmall(x, M); }
    PairBound(w, m.low.v, m.high.v);
    PairBound(w, a.low.v, a.high.v);
    var borrow := SubPair(w, a, m);
    PairBound(w, a.low.v, a.high.v);
    if borrow && !carry {
      var _ := AddPair(w, a, m);
      PairBound(w, a.low.v, a.high.v);
    }
  }

  /** `add_mod_assign` */
  method AddMod(w: nat, a: Double, b: Double, m: Double)
    requires a.Fits(w) && b.Fits(w) && m.Fits(w) && a.Value(w) + b.Value(w) < 2 * m.Value(w)
    requires a.low !in {m.low, m.high, b.low, b.high} && a.high !in {m.low, m.high, b.low, b.high}
    modifies a.low, a.high
    ensures a.Fits(w) && a.Value(w) == (old(a.Value(w)) + b.Value(w)) % m.Value(w)
  {
    var carry := AddPair(w, a, b);
    SubModWithCarry(w, a, m, carry);
  }

  /** `sub_mod_assign` */
  method SubMod(w: nat, a: Double, b: Double, m: Double)
    requires a.Fits(w) && b.Fits(w) && m.Fits(w) && a.Value(w) < m.Value(w) && b.Value(w) <= m.Value(w)
    requires a.low !in {m.low, m.high, b.low, b.high} && a.high !in {m.low, m.high, b.low, b.high}
    modifies a.low, a.high
    ensures a.Fits(w) && a.Value(w) == (old(a.Value(w)) - b.Value(w)) % m.Value(w)
  {
    ghost var x, M := a.Value(w) - b.Value(w), m.Value(w);
    if x < 0 { DivModUnique(x, M, -1, x + M); } else { ModSmall(x, M); }
    PairBound(w, m.low.v, m.high.v);
    var borrow := SubPair(w, a, b);
    PairBound(w, a.low.v, a.high.v);
    if borrow {
      var _ := AddPair(w, a, m);
      PairBound(w, a.low.v, a.high.v);
    }
  }

  /** The value `neg_mod_assign` leaves: the guard skips the subtraction when either word is zero. */
  function Negated(w: nat, low: nat, high: nat, p: nat): (r: int) {
    if low != 0 && high != 0 then p - (low + w * high) else low + w * high
  }

  /** `neg_mod_assign` */
  method NegMod(w: nat, a: Double, m: Double)
    requires a.Fits(w) && m.Fits(w) && a.Value(w) <= m.Value(w)
    requires a.low !in {m.low, m.high} && a.high !in {m.low, m.high}
    modifies a.low, a.high
    ensures a.Fits(w) && a.Value(w) == Negated(w, old(a.low.v), old(a.high.v), m.Value(w))
  {
    if a.low.v != 0 && a.high.v != 0 {
      ghost var y := a.high.v;
      PairBound(w, m.low.v, m.high.v);
      var inner := SubAndNegate(w, a.low, m.low);
      var outer := SubAndNegate(w, a.high, m.high, inner);
      PairBorrow(w, m.high.v, y, a.high.v, inner, outer);
      PairBound(w, a.low.v, a.high.v);
    }
  }

  /** Negation as documented holds exactly when the value is zero or neither of its words is. */
  lemma NegModExact(w: nat, low: nat, high: nat, p: nat)
    requires low + w * high < p && p % 2 == 1 && w > 0
    ensures Negated(w, low, high, p) == (-(low + w * high)) % p
       <==> (low == 0 && high == 0) || (low != 0 && high != 0)
  {
    var x := low + w * high;
    if x == 0 {
      if high > 0 { MulMonoStrict(0, high, w); }
      ModSmall(0, p);
    } else {
      DivModUnique(-x, p, -1, p - x);
    }
  }

  /** The guard's failing family in one input: one is left unchanged modulo three. */
  lemma NegModSkipsOne(w: nat)
    requires w > 0
    ensures Negated(w, 1, 0, 3) != (-1) % 3
  {
    NegModExact(w, 1, 0, 3);
  }
}
