/** The endomorphism split of a secp256k1 scalar into two short ones. */
module K1Scalars {
  import opened Digits
  import opened GlvDecomposition
  import opened Wnaf
  import opened EcMultiply

  /** Constants of the split; `t` is the scale `2^384` of `g1` and `g2`. */
  datatype Params = Params(order: nat, minusLambda: nat, minusB1: nat, minusB2: nat, g1: nat, g2: nat, t: nat)

  function Lambda(p: Params): (l: int) { p.order - p.minusLambda }

  /** `mul_shift_384_vartime`: the product over `t`, rounded to nearest. */
  function MulShift(p: Params, k: nat, c: nat): (r: nat)
    requires p.t > 0 && p.order > 0
  {
    MulPos(k, c);
    DivModDef(k * c, p.t);
    DivModDef((k * c) / p.t + 1, p.order);
    var high := (k * c) / p.t;
    if 2 * ((k * c) % p.t) >= p.t then (high + 1) % p.order else high
  }

  /** `decompose` */
  function Split(p: Params, k: nat): (r: (int, int))
    requires p.t > 0 && p.order > 0
  {
    var c1 := (MulShift(p, k, p.g1) * p.minusB1) % p.order;
    var c2 := (MulShift(p, k, p.g2) * p.minusB2) % p.order;
    var r2 := (c1 + c2) % p.order;
    ((r2 * p.minusLambda % p.order + k) % p.order, r2)
  }

  /** `(a1, b1)` and `(a2, b2)` are a basis whose scaled quotients are `g1` and `g2`, short enough for halves
      below `m`. */
  ghost predicate Good(p: Params, a1: int, b1: int, a2: int, b2: int, m: nat) {
    && p.order > 0 && p.t > 0 && m + 1 < p.order
    && (a1 + Lambda(p) * b1) % p.order == 0 && (a2 + Lambda(p) * b2) % p.order == 0
    && a1 * b2 - b1 * a2 == p.order
    && p.minusB1 % p.order == (-b1) % p.order && p.minusB2 % p.order == (-b2) % p.order
    && b1 <= 0 <= b2 && Nearest(p, p.g1, b2, m) && Nearest(p, p.g2, -b1, m)
    && (Abs(a1) + Abs(a2)) * (p.t + p.order) <= 2 * p.t * m
    && (Abs(b1) + Abs(b2)) * (p.t + p.order) <= 2 * p.t * m
  }

  /** `g` is `x * t / order` rounded, and multiplying a scalar by it shifts to at most `m`. */
  ghost predicate Nearest(p: Params, g: nat, x: int, m: nat) {
    2 * Abs(p.t * x - p.order * g) <= p.order && p.order * g <= p.t * m
  }

  /** The rounded product is within half a unit, and a little, of the exact quotient. */
  lemma MulShiftError(p: Params, k: nat, g: nat, x: int, m: nat)
    requires p.t > 0 && k < p.order && m + 1 < p.order && Nearest(p, g, x, m)
    ensures 2 * p.t * Abs(k * x - p.order * MulShift(p, k, g)) <= p.order * (p.t + k)
  {
    var t, r := p.t, p.order;
    MulPos(k, g);
    DivModDef(k * g, t);
    var h, l := (k * g) / t, (k * g) % t;
    assert h <= m by {
      MulMono(k, r, g);
      if h > m { MulMono(m + 1, h, t); Distrib(m, 1, t); Commute(t, m); }
    }
    ModSmall(h + 1, r);
    var c := MulShift(p, k, g);
    assert c == (if 2 * l >= t then h + 1 else h);
    assert 2 * Abs(k * g - t * c) <= t by { Distrib(h, 1, t); Commute(t, c); }
    ErrorBound(t, r, k, x, g, c);
  }

  lemma ErrorBound(t: nat, r: nat, k: nat, x: int, g: int, c: int)
    requires 2 * Abs(k * g - t * c) <= t && 2 * Abs(t * x - r * g) <= r
    ensures 2 * t * Abs(k * x - r * c) <= r * (t + k)
  {
    var e, rho, d := k * g - t * c, t * x - r * g, k * x - r * c;
    ErrorIdentity(t, r, k, x, g, c);
    MulAbs(t, d);
    MulAbs(r, e);
    MulAbs(k, rho);
    assert 2 * (r * Abs(e)) <= r * t by { Swap(2, r, Abs(e)); MulMono(2 * Abs(e), t, r); }
    assert 2 * (k * Abs(rho)) <= r * k by { Swap(2, k, Abs(rho)); MulMono(2 * Abs(rho), r, k); Commute(k, r); }
    Distrib(t, k, r);
    Assoc(2, t, Abs(d));
  }

  lemma ErrorIdentity(t: int, r: int, k: int, x: int, g: int, c: int)
    ensures t * (k * x - r * c) == r * (k * g - t * c) + k * (t * x - r * g)
  {
    Distrib(k * x, r * c, t);
    Distrib(k * g, t * c, r);
    Distrib(t * x, r * g, k);
    Swap(t, k, x);
    Swap(t, r, c);
    Swap(r, k, g);
  }

  /** A residue of a number of magnitude below `m`. */
  ghost predicate Near(order: nat, m: nat, r: int) {
    0 <= r < order && (r < m || order - r < m)
  }

  lemma NearResidue(order: nat, m: nat, x: int)
    requires order > 0 && Abs(x) < m < order
    ensures Near(order, m, x % order)
  {
    if x >= 0 { ModSmall(x, order); } else { DivModUnique(x, order, -1, x + order); }
  }

  lemma BelowBound(t: nat, x: nat, s: nat, r: nat, k: nat, m: nat)
    requires t > 0 && 2 * t * x <= s * (t + k) && k < r && s * (t + r) <= 2 * t * m && (s > 0 || m > 0)
    ensures x < m
  {
    if s > 0 { MulMonoStrict(t + k, t + r, s); }
    if x >= m { MulMono(m, x, 2 * t); }
    if s == 0 && x < m {} else if s == 0 { MulMonoStrict(0, m, 2 * t); }
  }

  /** The two halves recombine to the scalar and are both short, up to sign. */
  lemma SplitCorrect(p: Params, k: nat, a1: int, b1: int, a2: int, b2: int, m: nat)
    requires Good(p, a1, b1, a2, b2, m) && k < p.order && m > 0
    ensures var (r1, r2) := Split(p, k);
      && (r1 + Lambda(p) * r2) % p.order == k % p.order
      && Near(p.order, m, r1) && Near(p.order, m, r2)
  {
    var n, t := p.order, p.t;
    var q1, q2 := MulShift(p, k, p.g1), MulShift(p, k, p.g2);
    MulShiftError(p, k, p.g1, b2, m);
    MulShiftError(p, k, p.g2, -b1, m);
    var k1, k2 := k - (q1 * a1 + q2 * a2), -(q1 * b1 + q2 * b2);
    RemainderFirst(k, q1, q2, a1, b1, a2, b2, n);
    RemainderSecond(k, q1, q2, b1, b2, n);
    ColumnBound(2 * t, n, k1, a1, a2, k * b2 - n * q1, k * -b1 - n * q2, t + k);
    ColumnBound(2 * t, n, k2, b1, b2, k * b2 - n * q1, k * -b1 - n * q2, t + k);
    BelowBound(t, Abs(k1), Abs(a1) + Abs(a2), n, k, m);
    BelowBound(t, Abs(k2), Abs(b1) + Abs(b2), n, k, m);
    CombinationCongruent(k, q1, q2, a1, b1, a2, b2, n, Lambda(p));
    var (r1, r2) := Split(p, k);
    SecondHalf(n, q1, q2, p.minusB1, p.minusB2, b1, b2);
    assert r2 == k2 % n;
    FirstHalf(n, p.minusLambda, k, k1, k2, r2);
    assert r1 == k1 % n;
    NearResidue(n, m, k1);
    NearResidue(n, m, k2);
    ModMod(k1, n);
    ModMod(k2, n);
    CongMul(Lambda(p), Lambda(p), r2, k2, n);
    CongAdd(r1, k1, Lambda(p) * r2, Lambda(p) * k2, n);
  }

  lemma SecondHalf(n: nat, q1: nat, q2: nat, mb1: int, mb2: int, b1: int, b2: int)
    requires n > 0 && mb1 % n == (-b1) % n && mb2 % n == (-b2) % n
    ensures ((q1 * mb1) % n + (q2 * mb2) % n) % n == (-(q1 * b1 + q2 * b2)) % n
  {
    CongMul(q1, q1, mb1, -b1, n);
    CongMul(q2, q2, mb2, -b2, n);
    ModMod(q1 * mb1, n);
    ModMod(q2 * mb2, n);
    CongAdd((q1 * mb1) % n, q1 * -b1, (q2 * mb2) % n, q2 * -b2, n);
    NegMul(b1, q1);
    NegMul(b2, q2);
  }

  lemma FirstHalf(n: nat, ml: int, k: int, k1: int, k2: int, r2: int)
    requires n > 0 && r2 == k2 % n && (k1 + (n - ml) * k2) % n == k % n
    ensures (r2 * ml % n + k) % n == k1 % n
  {
    ModMod(k2, n);
    CongMul(r2, k2, ml, ml, n);
    ModMod(r2 * ml, n);
    CongAdd(r2 * ml % n, k2 * ml, k, k1 + (n - ml) * k2, n);
    Distrib(n, ml, k2);
    Commute(ml, k2);
    Commute(n, k2);
    assert k2 * ml + (k1 + (n - ml) * k2) == k1 + k2 * n;
    CongIntro(k1 + k2 * n, k1, k2, n);
  }

  /** A near residue is short for digits that cover `m`. */
  lemma NearIsShort(order: nat, m: nat, r: nat, top: nat, len: nat)
    requires len > 0 && m == Pow(2, len - 1) && m <= Pow(2, top) <= order - m && order < Pow(2, top + 1)
    requires Near(order, m, r)
    ensures Short(r, order, top, len)
  {
    PowEven(top + 1);
    BitsExtend(r, top, 1);
    ModSmall(r, Pow(2, top + 1));
    DivModDef(r, Pow(2, top));
    if r < m { ModSmall(r, Pow(2, top)); TopClear(r, Pow(2, top), Bits(r, top, 1)); }
    else { TopSet(r, Pow(2, top), Bits(r, top, 1)); }
  }

  lemma TopClear(r: nat, h: nat, bit: nat)
    requires r < h && r == r % h + bit * h
    ensures bit == 0
  {
    ModSmall(r, h);
    if bit > 0 { MulMonoStrict(0, bit, h); }
  }

  lemma TopSet(r: nat, h: nat, bit: nat)
    requires h > 0 && r >= h && r == r % h + bit * h
    ensures bit > 0
  {
    DivModDef(r, h);
  }

  const SECP256K1 := Params(
    0xFFFFFFFFFFFFFFFFFFFFFFFFFFFFFFFEBAAEDCE6AF48A03BBFD25E8CD0364141,
    0xac9c52b33fa3cf1f5ad9e3fd77ed9ba4a880b9fc8ec739c2e0cfc810b51283cf,
    0xe4437ed6010e88286f547fa90abfe4c3,
    0xfffffffffffffffffffffffffffffffe8a280ac50774346dd765cda83db1562c,
    0x3086d221a7d46bcde86c90e49284eb153daa8a1471e8ca7fe893209a45dbb031,
    0xe4437ed6010e88286f547fa90abfe4c4221208ac9df506c61571b4ae8ac47f71,
    0x1_00000000_00000000_00000000_00000000_00000000_00000000_00000000_00000000_00000000_00000000_00000000_00000000)

  /** The constants in use belong to a basis, and leave halves below `2^128`. */
  lemma ConstantsGood()
    ensures Good(SECP256K1,
                 0x3086d221a7d46bcde86c90e49284eb15, -0xe4437ed6010e88286f547fa90abfe4c3,
                 0x114ca50f7a8e2f3f657c1108d9d44cfd8, 0x3086d221a7d46bcde86c90e49284eb15,
                 0x1_00000000_00000000_00000000_00000000)
  {}
}
