/** Modular arithmetic on one word, written as sequences of coprocessor operations. */
module OneLimb {
  import opened Digits
  import opened Delegation

  /** The static scratch words. No operand may be one of the words an operation overwrites. */
  class Statics {
    const w: nat
    const place0: Reg
    const place1: Reg
    const place2: Reg
    const place3: Reg
    const one: Reg
    const zero: Reg

    ghost predicate Valid()
      reads this, place0, place1, place2, place3, one, zero
    {
      && place0 != place1 && place0 != place2 && place0 != place3 && place0 != one && place0 != zero
      && place1 != place2 && place1 != place3 && place1 != one && place1 != zero
      && place2 != place3 && place2 != one && place2 != zero
      && place3 != one && place3 != zero && one != zero
      && one.v == 1 && zero.v == 0 && w > 1
      && place0.Fits(w) && place1.Fits(w) && place2.Fits(w) && place3.Fits(w)
    }

    constructor (w: nat)
      requires w > 1
      ensures Valid() && this.w == w
    {
      this.w := w;
      place0 := new Reg(0);
      place1 := new Reg(0);
      place2 := new Reg(0);
      place3 := new Reg(0);
      one := new Reg(1);
      zero := new Reg(0);
    }

    /** A word that none of the multiplications overwrites. */
    ghost predicate Operand(r: Reg)
      reads r
    {
      r != place1 && r != place2 && r != place3 && r.Fits(w)
    }

    /** `double_mod_assign` */
    method DoubleMod(a: Reg, m: Reg)
      requires Valid() && a.Fits(w) && m.Fits(w) && a.v < m.v
      requires a != m && a != place0 && m != place0 && a != one && a != zero
      modifies a, place0
      ensures Valid() && a.v == (2 * old(a.v)) % m.v
    {
      MemCpy(place0, a);
      var carry := Add(w, a, place0);
      SubModWithCarry(w, a, m, carry);
    }

    /** `neg_mod_assign`: zero stays zero. */
    method NegMod(a: Reg, m: Reg)
      requires Valid() && a.Fits(w) && m.Fits(w) && a.v < m.v && a != m && a != one && a != zero
      modifies a
      ensures a.v == (-(old(a.v) as int)) % m.v
    {
      ModSmall(0, m.v);
      if a.v > 0 { DivModUnique(-(a.v as int), m.v, -1, m.v - a.v); }
      var isZero := Equal(a, zero);
      if !isZero { var _ := SubAndNegate(w, a, m); }
    }

    /** `lt`: a borrow from a scratch copy decides the order. */
    method LessThan(a: Reg, b: Reg) returns (less: bool)
      requires Valid() && a.Fits(w) && b.Fits(w) && a != place0 && b != place0
      modifies place0
      ensures Valid() && (less <==> a.v < b.v)
    {
      MemCpy(place0, a);
      less := Sub(w, place0, b);
    }

    /** `leq` */
    method LessOrEqual(a: Reg, b: Reg) returns (leq: bool)
      requires Valid() && a.Fits(w) && b.Fits(w) && a != place0 && b != place0
      modifies place0
      ensures Valid() && (leq <==> a.v <= b.v)
    {
      MemCpy(place0, a);
      leq := Equal(place0, b);
      if !leq { leq := Sub(w, place0, b); }
    }

    /** `mul_assign_montgomery`: the fully reduced `a*b/w mod m`, for every modulus with reduction constant
        `-1/m mod w` and every pair of operands with `a*b < m*w`. */
    method MulMontgomery(a: Reg, b: Reg, m: Reg, rc: Reg)
      requires Valid() && Operand(a) && Operand(b) && Operand(m) && Operand(rc)
      requires a != b && a != m && a != rc && a != one && a != zero
      requires (m.v * rc.v + 1) % w == 0 && a.v * b.v < m.v * w
      modifies a, place1, place2, place3
      ensures Valid()
      ensures a.v < m.v
      ensures (a.v * w) % m.v == (old(a.v) * b.v) % m.v
    {
      ghost var P := a.v * b.v;
      MemCpy(place1, a);
      MulWide(w, place1, a, b);
      ghost var lo, hi := place1.v, a.v;
      ghost var k := ReduceLow(m, rc);
      ghost var t := place2.v;
      MontgomeryBound(w, P, m.v, k, lo, hi, t);
      var carry := Add(w, a, place2);
      SubModWithCarry(w, a, m, carry);
      MontgomeryResidue(w, P, m.v, k, hi + t, a.v);
    }

    /** The reduction of the low word in `place1`: a multiple of `m` clears it and carries into `place2`. */
    method ReduceLow(m: Reg, rc: Reg) returns (ghost k: nat)
      requires Valid() && Operand(m) && Operand(rc) && (m.v * rc.v + 1) % w == 0
      modifies place2, place3
      ensures Valid() && k < w && w * place2.v == k * m.v + place1.v
    {
      MemCpy(place2, place1);
      MulLow(w, place2, rc);
      k := place2.v;
      ReductionClears(w, m.v, rc.v, place1.v, k);
      MemCpy(place3, place2);
      MulWide(w, place3, place2, m);
      ghost var klo, khi := place3.v, place2.v;
      var carry := Add(w, place3, place1);
      LowWordVanishes(w, place1.v, klo, k * m.v, khi, carry, place3.v);
      if carry { var _ := Add(w, place2, one); }
    }

    /** `square_assign_montgomery` */
    method SquareMontgomery(a: Reg, m: Reg, rc: Reg)
      requires Valid() && Operand(a) && Operand(m) && Operand(rc)
      requires a != place0 && m != place0 && rc != place0 && a != m && a != rc && a != one && a != zero
      requires (m.v * rc.v + 1) % w == 0 && a.v * a.v < m.v * w
      modifies a, place0, place1, place2, place3
      ensures Valid()
      ensures a.v < m.v && (a.v * w) % m.v == (old(a.v) * old(a.v)) % m.v
    {
      MemCpy(place0, a);
      MulMontgomery(a, place0, m, rc);
    }

    /** `mul_assign_barret`: exactly `a*b mod m` for all operands, when `c = w - m` is small. */
    method MulBarrett(a: Reg, b: Reg, m: Reg, negM: Reg)
      requires Valid() && Operand(a) && Operand(b) && Operand(m) && Operand(negM)
      requires a != b && a != m && a != negM && a != one && a != zero
      requires negM.v == w - m.v && negM.v * (negM.v + 1) <= m.v
      modifies a, place1, place2
      ensures Valid()
      ensures a.v == (old(a.v) * b.v) % m.v
    {
      ghost var P, c := a.v * b.v, negM.v;
      MemCpy(place1, a);
      MulWide(w, a, place1, b);
      ghost var lo, hi := a.v, place1.v;
      FoldHigh(a, negM);
      ghost var a1, t := a.v, place1.v;
      BarrettSecond(w, t, c, m.v);
      BarrettCong(w, P, m.v, c, lo, hi, a1, t);
      MulLow(w, place1, negM);
      var carry := Add(w, a, place1);
      SubModWithCarry(w, a, m, carry);
    }

    /** Replaces the high word in `place1` by its product with `negM`, added to `a`. */
    method FoldHigh(a: Reg, negM: Reg)
      requires Valid() && Operand(a) && Operand(negM) && a != negM && a != one && a != zero && negM.v > 0
      modifies a, place1, place2
      ensures Valid() && Operand(a) && place1.v <= negM.v
      ensures a.v + w * place1.v == old(a.v) + old(place1.v) * negM.v
    {
      MemCpy(place2, place1);
      MulWide(w, place2, place1, negM);
      Distrib(place1.v, 1, w);
      var carry := Add(w, a, place2);
      if carry { var _ := Add(w, place1, one); }
    }

    /** `square_assign_barret` */
    method SquareBarrett(a: Reg, m: Reg, negM: Reg)
      requires Valid() && Operand(a) && Operand(m) && Operand(negM)
      requires a != place0 && m != place0 && negM != place0 && a != m && a != negM && a != one && a != zero
      requires negM.v == w - m.v && negM.v * (negM.v + 1) <= m.v
      modifies a, place0, place1, place2
      ensures Valid() && a.v == (old(a.v) * old(a.v)) % m.v
    {
      MemCpy(place0, a);
      MulBarrett(a, place0, m, negM);
    }
  }

  /** `sub_mod_with_carry`: reduces a value below `2m` whose top bit is in `carry`. */
  method SubModWithCarry(w: nat, a: Reg, m: Reg, carry: bool)
    requires a != m && a.Fits(w) && m.Fits(w) && a.v + Over(w, carry) < 2 * m.v
    modifies a
    ensures a.Fits(w) && a.v == (old(a.v) + Over(w, carry)) % m.v
  {
    ghost var x := a.v + Over(w, carry);
    if x >= m.v { DivModUnique(x, m.v, 1, x - m.v); } else { ModSmall(x, m.v); }
    var borrow := Sub(w, a, m);
    if borrow && !carry { var _ := Add(w, a, m); }
  }

  /** `add_mod_assign` */
  method AddMod(w: nat, a: Reg, b: Reg, m: Reg)
    requires a != b && a != m && a.Fits(w) && b.Fits(w) && m.Fits(w) && a.v + b.v < 2 * m.v
    modifies a
    ensures a.Fits(w) && a.v == (old(a.v) + b.v) % m.v
  {
    var carry := Add(w, a, b);
    SubModWithCarry(w, a, m, carry);
  }

  /** `sub_mod_assign` */
  method SubMod(w: nat, a: Reg, b: Reg, m: Reg)
    requires a != b && a != m && m.Fits(w) && a.v < m.v && b.v <= m.v
    modifies a
    ensures a.Fits(w) && a.v == (old(a.v) - b.v) % m.v
  {
    ghost var x := a.v - b.v;
    if x < 0 { DivModUnique(x, m.v, -1, x + m.v); } else { ModSmall(x, m.v); }
    var borrow := Sub(w, a, b);
    if borrow { var _ := Add(w, a, m); }
  }

  //// Montgomery

  /** With `k = lo * rc mod w`, the low word of `k*m + lo` is zero. */
  lemma ReductionClears(w: int, m: int, rc: int, lo: int, k: int)
    requires w > 0 && (m * rc + 1) % w == 0 && k == (lo * rc) % w
    ensures (k * m + lo) % w == 0
  {
    ModMod(lo * rc, w);
    CongMul(k, lo * rc, m, m, w);
    CongAdd(k * m, (lo * rc) * m, lo, lo, w);
    ModSmall(0, w);
    CongMul(lo, lo, m * rc + 1, 0, w);
    Assoc(lo, rc, m);
    Commute(rc, m);
    Distrib(m * rc, 1, lo);
  }

  /** Adding the low words then leaves zero, so the carry holds their whole sum. */
  lemma LowWordVanishes(w: nat, lo: nat, klo: nat, km: int, khi: int, carry: bool, sum: nat)
    requires klo + w * khi == km && w > 0 && (km + lo) % w == 0 && sum < w && sum + Over(w, carry) == klo + lo
    ensures sum == 0 && w * (khi + Unit(carry)) == km + lo
  {
    Distrib(khi, Unit(carry), w);
    Commute(khi, w);
    DivModUnique(km + lo, w, khi + Unit(carry), sum);
  }

  lemma MontgomeryBound(w: nat, P: int, m: nat, k: nat, lo: nat, hi: nat, t: nat)
    requires k < w && m > 0 && lo + w * hi == P && P < m * w && w * t == k * m + lo
    ensures w * (hi + t) == P + k * m && hi + t < 2 * m
  {
    Distrib(hi, t, w);
    MulMonoStrict(k, w, m);
    Commute(w, m);
    assert w * (hi + t) < w * (2 * m) by { Assoc(2, m, w); Commute(w, 2 * m); }
    MulCancelLt(hi + t, 2 * m, w);
  }

  lemma MontgomeryResidue(w: int, P: int, m: int, k: int, x: int, r: int)
    requires m > 0 && w * x == P + k * m && r == x % m
    ensures (r * w) % m == P % m
  {
    ModMod(x, m);
    CongMul(r, x, w, w, m);
    Commute(x, w);
    CongIntro(x * w, P, k, m);
  }

  //// Barrett

  lemma BarrettSecond(w: nat, t: nat, c: nat, m: nat)
    requires t <= c && c * (c + 1) <= m && m == w - c && w > 1
    ensures 0 <= t * c < w && (t * c) % w == t * c && t * c <= c * c
    ensures w + c * c <= 2 * m && m > 0
  {
    MulMono(t, c, c);
    MulPos(t, c);
    Distrib(c, 1, c);
    MulPos(c, c);
    ModSmall(t * c, w);
  }

  /** Replacing `w` by `c` twice keeps the residue and lands below `2m`. */
  lemma BarrettCong(w: nat, P: int, m: int, c: int, lo: int, hi: int, a1: int, t: int)
    requires m > 0 && m == w - c && P == lo + w * hi && a1 + w * t == lo + hi * c
    requires a1 < w && t * c <= c * c && w + c * c <= 2 * m
    ensures a1 + t * c < 2 * m && (a1 + t * c) % m == P % m
  {
    assert P == a1 + t * c + (hi + t) * m by {
      Distrib(m, c, hi);
      Distrib(m, c, t);
      Distrib(hi, t, m);
    }
    CongIntro(P, a1 + t * c, hi + t, m);
  }
}
