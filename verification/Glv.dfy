/** Splitting a scalar along a lattice basis with sign-and-magnitude arithmetic of `t = 2^512` values. */
module GlvDecomposition {
  import opened Options
  import opened Digits

  datatype I512 = I512(sign: bool, data: nat)

  function Abs(x: int): (r: nat) { if x < 0 then -x else x }

  ghost function Val(x: I512): (v: int) { if x.sign then x.data else -(x.data as int) }

  //// I512

  /** The high half of a product; positive results are rounded to nearest, negative ones toward zero. */
  function MulAndShift(t: nat, a: I512, b: I512): (r: I512)
    requires t > 0
  {
    MulPos(a.data, b.data);
    DivModDef(a.data * b.data, t);
    var high := (a.data * b.data) / t;
    var sign := a.sign == b.sign;
    I512(sign, if sign && 2 * ((a.data * b.data) % t) >= t then (high + 1) % t else high)
  }

  function CheckedMul(t: nat, a: I512, b: I512): (r: Option<I512>)
    ensures r.Some? <==> a.data * b.data < t
    ensures r.Some? ==> Val(r.value) == Val(a) * Val(b)
  {
    MulPos(a.data, b.data);
    NegMul(a.data, b.data);
    NegMul(b.data, a.data);
    NegMul(a.data, -(b.data as int));
    if a.data * b.data >= t then None else Some(I512(a.sign == b.sign, a.data * b.data))
  }

  function CheckedAdd(t: nat, a: I512, b: I512): (r: Option<I512>)
    ensures r.Some? ==> Val(r.value) == Val(a) + Val(b)
    ensures r.Some? <==> a.sign != b.sign || a.data + b.data < t
    ensures r.Some? && a.data < t && b.data < t ==> r.value.data < t
  {
    if a.sign != b.sign then
      Some(if a.data < b.data then I512(b.sign, b.data - a.data)
           else if a.data > b.data then I512(a.sign, a.data - b.data)
           else I512(false, 0))
    else if a.data + b.data < t then Some(I512(a.sign, a.data + b.data))
    else None
  }

  function Neg(a: I512): (r: I512)
    ensures Val(r) == -Val(a) && r.data == a.data
  {
    I512(!a.sign, a.data)
  }

  datatype Basis = Basis(n11: I512, n12: I512, n21: I512, n22: I512, beta1: I512, beta2: I512)

  /** `scalar_decomposition_no_allocator` before the magnitudes are reduced; a failed checked step is `None`. */
  function Decompose(t: nat, k: nat, n: Basis): (r: Option<(I512, I512)>)
    requires t > 0
  {
    var s := I512(true, k);
    var beta1 := MulAndShift(t, s, n.beta1);
    var beta2 := MulAndShift(t, s, n.beta2);
    var b11 := CheckedMul(t, beta1, n.n11);
    var b12 := CheckedMul(t, beta2, n.n21);
    var b21 := CheckedMul(t, beta1, n.n12);
    var b22 := CheckedMul(t, beta2, n.n22);
    if b11.None? || b12.None? || b21.None? || b22.None? then None else
    var b1 := CheckedAdd(t, b11.value, b12.value);
    var b2 := CheckedAdd(t, b21.value, b22.value);
    if b1.None? || b2.None? then None else
    var k1 := CheckedAdd(t, s, Neg(b1.value));
    if k1.None? then None else Some((k1.value, Neg(b2.value)))
  }

  //// Rounding

  /** `b` is the scaled quotient `v * t / r`, truncated toward zero. */
  ghost predicate Scaled(t: nat, r: nat, b: I512, v: int) {
    r > 0 && b.data == (Abs(v) * t) / r && (v > 0 ==> b.sign) && (v < 0 ==> !b.sign)
  }

  /** The distance from `k*x/r` to the rounded product, all scaled by `r * t`. */
  lemma RoundingError(t: nat, r: nat, x: nat, b: nat, rho: nat, k: nat, h: nat, l: nat, up: bool)
    requires t > 0 && r > 0 && x * t == r * b + rho && rho < r
    requires k * b == h * t + l && l < t && (up ==> 2 * l >= t)
    ensures Abs(t * (k * x - r * (h + if up then 1 else 0))) <= r * (t + k)
  {
    assert t * (k * x) == r * (h * t) + r * l + k * rho by {
      Swap(t, k, x);
      Commute(t, x);
      Distrib(r * b, rho, k);
      Swap(k, r, b);
      Distrib(h * t, l, r);
    }
    assert t * (r * h) == r * (h * t) by { Swap(t, r, h); Commute(t, h); }
    assert 0 <= r * l <= r * t by { MulMono(l, t, r); MulPos(r, l); }
    assert 0 <= k * rho <= r * k by { MulMono(rho, r, k); MulPos(k, rho); Commute(r, k); }
    Distrib(t, k, r);
    Distrib(k * x, r * h, t);
    if up {
      Distrib(h, 1, r);
      Distrib(k * x, r * h + r, t);
      Distrib(r * h, r, t);
      Commute(t, r);
    }
  }

  /** A rounded quotient never exceeds the number it scales. */
  lemma QuotientSize(t: nat, r: nat, x: nat, b: nat, k: nat, h: nat)
    requires t > 0 && r > 0 && r * b <= x * t && k < r && h * t <= k * b
    ensures h <= x && (x > 0 ==> h < x) && (b == 0 ==> h == 0)
  {
    if b == 0 {
      if h > 0 { MulMonoStrict(0, h, t); }
    } else {
      MulMonoStrict(k, r, b);
      MulCancelLt(h, x, t);
    }
  }

  lemma Quotient(t: nat, r: nat, k: nat, b: I512, v: int)
    requires t > 1 && k < r && Scaled(t, r, b, v) && Abs(v) < t
    ensures var beta := MulAndShift(t, I512(true, k), b);
      && beta.data <= Abs(v)
      && t * Abs(k * v - r * Val(beta)) <= r * (t + k)
  {
    var x := Abs(v);
    MulPos(x, t);
    DivModDef(x * t, r);
    var rho := (x * t) % r;
    Commute(b.data, r);
    MulPos(k, b.data);
    DivModDef(k * b.data, t);
    var h, l := (k * b.data) / t, (k * b.data) % t;
    QuotientSize(t, r, x, b.data, k, h);
    var up := b.sign && 2 * l >= t;
    RoundingError(t, r, x, b.data, rho, k, h, l, up);
    if x == 0 { ZeroScaled(t, r, b.data); }
    var m := h + if up then 1 else 0;
    assert m <= x;
    ModSmall(m, t);
    var beta := MulAndShift(t, I512(true, k), b);
    assert beta == I512(b.sign, m);
    SignedError(t, k, v, r, beta, b.sign, m);
  }

  lemma ZeroScaled(t: nat, r: nat, b: nat)
    requires r > 0 && b == (0 * t) / r
    ensures b == 0
  {
    DivModUnique(0, r, 0, 0);
  }

  lemma SignedError(t: nat, k: nat, v: int, r: nat, beta: I512, sign: bool, m: nat)
    requires beta == I512(sign, m) && (v > 0 ==> sign) && (v < 0 ==> !sign) && (v == 0 ==> m == 0)
    ensures t * Abs(k * v - r * Val(beta)) == Abs(t * (k * Abs(v) - r * m))
  {
    var e := k * Abs(v) - r * m;
    NegMul(v, k);
    NegMul(m, r);
    assert Abs(k * v - r * Val(beta)) == Abs(e);
    MulAbs(t, e);
  }

  lemma MulAbs(t: nat, e: int)
    ensures Abs(t * e) == t * Abs(e)
  {
    NegMul(e, t);
    MulPos(t, Abs(e));
  }

  //// The decomposition

  /** The basis spans the lattice of pairs `(x, y)` with `x + lambda*y` divisible by `r`, and the scaled
      quotients belong to it. */
  ghost predicate Spans(t: nat, n: Basis, r: nat, lambda: int) {
    && r > 0 && t > 1
    && (Val(n.n11) + lambda * Val(n.n12)) % r == 0 && (Val(n.n21) + lambda * Val(n.n22)) % r == 0
    && Val(n.n11) * Val(n.n22) - Val(n.n12) * Val(n.n21) == r
    && Scaled(t, r, n.beta1, Val(n.n22)) && Scaled(t, r, n.beta2, -Val(n.n12))
  }

  /** The entries leave room for the checked operations. */
  ghost predicate Roomy(t: nat, n: Basis, r: nat) {
    && n.n22.data < t && n.n12.data < t
    && n.n22.data * n.n11.data + n.n12.data * n.n21.data + r <= t
    && n.n22.data * n.n12.data + n.n12.data * n.n22.data < t
  }

  /** Any combination of the basis leaves the residue of the scalar alone. */
  lemma CombinationCongruent(k: int, a1: int, a2: int, n11: int, n12: int, n21: int, n22: int, r: int, lambda: int)
    requires r > 0 && (n11 + lambda * n12) % r == 0 && (n21 + lambda * n22) % r == 0
    ensures ((k - (a1 * n11 + a2 * n21)) + lambda * -(a1 * n12 + a2 * n22)) % r == k % r
  {
    ModSmall(0, r);
    var u := CongElim(n11 + lambda * n12, 0, r);
    var v := CongElim(n21 + lambda * n22, 0, r);
    assert lambda * -(a1 * n12 + a2 * n22) == -(a1 * (lambda * n12)) - a2 * (lambda * n22) by {
      Distrib(a1 * n12, a2 * n22, lambda);
      Swap(lambda, a1, n12);
      Swap(lambda, a2, n22);
      NegMul(a1 * n12 + a2 * n22, lambda);
    }
    assert a1 * n11 + a1 * (lambda * n12) == a1 * (u * r) by { Distrib(n11, lambda * n12, a1); }
    assert a2 * n21 + a2 * (lambda * n22) == a2 * (v * r) by { Distrib(n21, lambda * n22, a2); }
    assert a1 * (u * r) + a2 * (v * r) == (a1 * u + a2 * v) * r by {
      Assoc(a1, u, r);
      Assoc(a2, v, r);
      Distrib(a1 * u, a2 * v, r);
    }
    NegMul(a1 * u + a2 * v, r);
    CongIntro((k - (a1 * n11 + a2 * n21)) + lambda * -(a1 * n12 + a2 * n22), k, -(a1 * u + a2 * v), r);
  }

  /** By the determinant, `r` times a remainder is a combination of the two rounding errors. */
  lemma RemainderFirst(k: int, a1: int, a2: int, n11: int, n12: int, n21: int, n22: int, r: int)
    requires n11 * n22 - n12 * n21 == r
    ensures r * (k - (a1 * n11 + a2 * n21)) == n11 * (k * n22 - r * a1) + n21 * (k * -n12 - r * a2)
  {
    assert r * k == n11 * (k * n22) - n21 * (k * n12) by {
      Distrib(n11 * n22, n12 * n21, k);
      Swap(k, n11, n22);
      Swap(k, n12, n21);
      Swap(n21, k, n12);
      Commute(n12, n21);
    }
    assert r * (a1 * n11 + a2 * n21) == n11 * (r * a1) + n21 * (r * a2) by {
      Distrib(a1 * n11, a2 * n21, r);
      Swap(n11, r, a1);
      Swap(n21, r, a2);
      Commute(a1, n11);
      Commute(a2, n21);
    }
    Distrib(k, a1 * n11 + a2 * n21, r);
    Distrib(k * n22, r * a1, n11);
    Distrib(k * -n12, r * a2, n21);
    NegMul(n12, k);
    NegMul(k * n12, n21);
  }

  lemma RemainderSecond(k: int, a1: int, a2: int, n12: int, n22: int, r: int)
    ensures r * -(a1 * n12 + a2 * n22) == n12 * (k * n22 - r * a1) + n22 * (k * -n12 - r * a2)
  {
    assert n12 * (k * n22) == n22 * (k * n12) by {
      Swap(n12, k, n22);
      Swap(n22, k, n12);
      Commute(n12, n22);
    }
    assert r * (a1 * n12 + a2 * n22) == n12 * (r * a1) + n22 * (r * a2) by {
      Distrib(a1 * n12, a2 * n22, r);
      Swap(n12, r, a1);
      Swap(n22, r, a2);
      Commute(a1, n12);
      Commute(a2, n22);
    }
    NegMul(a1 * n12 + a2 * n22, r);
    Distrib(k * n22, r * a1, n12);
    Distrib(k * -n12, r * a2, n22);
    NegMul(n12, k);
    NegMul(k * n12, n22);
  }

  /** Two errors of at most `e` weigh a remainder by at most the column sum times `e`. */
  lemma ColumnBound(t: nat, r: nat, x: int, p: int, q: int, d1: int, d2: int, e: nat)
    requires r > 0 && r * x == p * d1 + q * d2 && t * Abs(d1) <= r * e && t * Abs(d2) <= r * e
    ensures t * Abs(x) <= (Abs(p) + Abs(q)) * e
  {
    assert Abs(p * d1) == Abs(p) * Abs(d1) by { AbsProduct(p, d1); }
    assert Abs(q * d2) == Abs(q) * Abs(d2) by { AbsProduct(q, d2); }
    MulAbs(r, x);
    assert t * (r * Abs(x)) <= t * (Abs(p) * Abs(d1)) + t * (Abs(q) * Abs(d2)) by {
      Distrib(Abs(p) * Abs(d1), Abs(q) * Abs(d2), t);
      MulMono(r * Abs(x), Abs(p) * Abs(d1) + Abs(q) * Abs(d2), t);
    }
    ScaleBy(Abs(p), t, Abs(d1), r, e);
    ScaleBy(Abs(q), t, Abs(d2), r, e);
    Swap(t, r, Abs(x));
    Distrib(Abs(p) * e, Abs(q) * e, r);
    Distrib(Abs(p), Abs(q), e);
    assert r * (t * Abs(x)) <= r * ((Abs(p) + Abs(q)) * e);
    if t * Abs(x) > (Abs(p) + Abs(q)) * e { MulMonoStrict((Abs(p) + Abs(q)) * e, t * Abs(x), r); }
  }

  lemma ScaleBy(p: nat, t: nat, d: nat, r: nat, e: nat)
    requires t * d <= r * e
    ensures t * (p * d) <= r * (p * e)
  {
    Swap(t, p, d);
    Swap(r, p, e);
    MulMono(t * d, r * e, p);
  }

  lemma AbsProduct(p: int, d: int)
    ensures Abs(p * d) == Abs(p) * Abs(d)
  {
    NegMul(p, d);
    NegMul(d, p);
    NegMul(p, -d);
    MulPos(Abs(p), Abs(d));
  }

  /** Every scalar splits: no checked step fails, the parts recombine, and each is bounded by its basis column
      up to the rounding error. */
  lemma DecomposeCorrect(t: nat, k: nat, n: Basis, r: nat, lambda: int)
    requires Spans(t, n, r, lambda) && Roomy(t, n, r) && k < r
    ensures var d := Decompose(t, k, n);
      && d.Some?
      && (Val(d.value.0) + lambda * Val(d.value.1)) % r == k % r
      && t * Abs(Val(d.value.0)) <= (n.n11.data + n.n21.data) * (t + k)
      && t * Abs(Val(d.value.1)) <= (n.n12.data + n.n22.data) * (t + k)
  {
    Quotient(t, r, k, n.beta1, Val(n.n22));
    Quotient(t, r, k, n.beta2, -Val(n.n12));
    var c1, c2 := MulAndShift(t, I512(true, k), n.beta1), MulAndShift(t, I512(true, k), n.beta2);
    var a1, a2 := Val(c1), Val(c2);
    var n11, n12, n21, n22 := Val(n.n11), Val(n.n12), Val(n.n21), Val(n.n22);
    Fits(t, n, r, k, c1, c2);
    var d := Decompose(t, k, n).value;
    assert Val(d.0) == k - (a1 * n11 + a2 * n21) && Val(d.1) == -(a1 * n12 + a2 * n22);
    CombinationCongruent(k, a1, a2, n11, n12, n21, n22, r, lambda);
    RemainderFirst(k, a1, a2, n11, n12, n21, n22, r);
    RemainderSecond(k, a1, a2, n12, n22, r);
    ColumnBound(t, r, Val(d.0), n11, n21, k * n22 - r * a1, k * -n12 - r * a2, t + k);
    ColumnBound(t, r, Val(d.1), n12, n22, k * n22 - r * a1, k * -n12 - r * a2, t + k);
  }

  lemma Fits(t: nat, n: Basis, r: nat, k: nat, c1: I512, c2: I512)
    requires Roomy(t, n, r) && k < r && t > 0 && c1.data <= n.n22.data && c2.data <= n.n12.data
    requires c1 == MulAndShift(t, I512(true, k), n.beta1) && c2 == MulAndShift(t, I512(true, k), n.beta2)
    ensures Decompose(t, k, n).Some?
    ensures var d := Decompose(t, k, n).value;
      && Val(d.0) == k - (Val(c1) * Val(n.n11) + Val(c2) * Val(n.n21))
      && Val(d.1) == -(Val(c1) * Val(n.n12) + Val(c2) * Val(n.n22))
  {
    MulMono(c1.data, n.n22.data, n.n11.data);
    MulMono(c2.data, n.n12.data, n.n21.data);
    MulMono(c1.data, n.n22.data, n.n12.data);
    MulMono(c2.data, n.n12.data, n.n22.data);
    MulPos(c1.data, n.n11.data);
    MulPos(c2.data, n.n21.data);
    MulPos(c1.data, n.n12.data);
    MulPos(c2.data, n.n22.data);
  }

  //// The last reduction, and the curves in use

  /** The parts as scalars: a sign, and the magnitude reduced modulo `r`. */
  function Signed(x: I512, r: nat): (v: int)
    requires r > 0
  {
    if x.sign then x.data % r else -(x.data % r)
  }

  lemma SignedCongruent(x: I512, r: nat)
    requires r > 0
    ensures Signed(x, r) % r == Val(x) % r
  {
    DivModDef(x.data, r);
    var q := x.data / r;
    NegMul(q, r);
    CongIntro(Signed(x, r), Val(x), if x.sign then -q else q, r);
  }

  /** What `scalar_decomposition_no_allocator` returns recombines to the scalar, and no part is changed by the last
      reduction when the columns of the basis are short. */
  lemma SplitCorrect(t: nat, k: nat, n: Basis, r: nat, lambda: int)
    requires Spans(t, n, r, lambda) && Roomy(t, n, r) && k < r <= t
    ensures Decompose(t, k, n).Some?
    ensures var (k1, k2) := Decompose(t, k, n).value;
      && (Signed(k1, r) + lambda * Signed(k2, r)) % r == k % r
      && (2 * (n.n11.data + n.n21.data) < r ==> Signed(k1, r) == Val(k1) && k1.data <= 2 * (n.n11.data + n.n21.data))
      && (2 * (n.n12.data + n.n22.data) < r ==> Signed(k2, r) == Val(k2) && k2.data <= 2 * (n.n12.data + n.n22.data))
  {
    DecomposeCorrect(t, k, n, r, lambda);
    var d := Decompose(t, k, n).value;
    SignedSum(d.0, d.1, r, lambda);
    ReducedPart(t, k, n.n11.data + n.n21.data, d.0, r);
    ReducedPart(t, k, n.n12.data + n.n22.data, d.1, r);
  }

  lemma SignedSum(x: I512, y: I512, r: nat, lambda: int)
    requires r > 0
    ensures (Signed(x, r) + lambda * Signed(y, r)) % r == (Val(x) + lambda * Val(y)) % r
  {
    SignedCongruent(x, r);
    SignedCongruent(y, r);
    CongMul(lambda, lambda, Signed(y, r), Val(y), r);
    CongAdd(Signed(x, r), Val(x), lambda * Signed(y, r), lambda * Val(y), r);
  }

  lemma ReducedPart(t: nat, k: nat, column: nat, x: I512, r: nat)
    requires k <= t && t > 0 && r > 0 && t * x.data <= column * (t + k)
    ensures 2 * column < r ==> Signed(x, r) == Val(x) && x.data <= 2 * column
  {
    ShortPart(t, k, column, x.data);
    if x.data < r { ModSmall(x.data, r); }
  }

  lemma ShortPart(t: nat, k: nat, column: nat, x: nat)
    requires k <= t && t > 0 && t * x <= column * (t + k)
    ensures x <= 2 * column
  {
    MulMono(t + k, 2 * t, column);
    if x > 2 * column {
      MulMonoStrict(2 * column, x, t);
      Swap(t, 2, column);
      Swap(column, 2, t);
      Commute(t, column);
    }
  }

  const T512: nat := 0x100000000000000000000000000000000000000000000000000000000000000000000000000000000000000000000000000000000000000000000000000000000

  /** The basis of the BN254 curve. */
  const BN254_ORDER: nat := 0x30644e72e131a029b85045b68181585d2833e84879b9709143e1f593f0000001
  const BN254_LAMBDA: nat := 0x30644e72e131a029048b6e193fd84104cc37a73fec2bc5e9b8ca0b2d36636f23
  const BN254 := Basis(
    I512(false, 0x6f4d8248eeb859fc8211bbeb7d4f1128),
    I512(true, 0x89d3256894d213e3),
    I512(false, 0x89d3256894d213e3),
    I512(false, 0x6f4d8248eeb859fd0be4e1541221250b),
    I512(false, 0x24ccef014a773d2d25398fd0300ff6565149d540fd5e495cc163b4843cb4b9a5ea8ff1e97b82bd785674219c2d739f1e2),
    I512(false, 0x2d91d232ec7e0b3d76eb9c714773a6ef28fa7d32d2fafba642e3ff027efccd68a96ce4aece61f0339))

  /** The basis of the BLS12-381 curve. */
  const BLS12_ORDER: nat := 0x73eda753299d7d483339d80809a1d80553bda402fffe5bfeffffffff00000001
  const BLS12_LAMBDA: nat := 0x73eda753299d7d483339d80809a1d804a7780001fffcb7fcfffffffe00000001
  const BLS12 := Basis(
    I512(true, 0xac45a4010001a4020000000100000000),
    I512(true, 0x1),
    I512(false, 0x1),
    I512(true, 0xac45a4010001a40200000000ffffffff),
    I512(true, 0x17c6becf1e01faadd63f6e522f6cfee2e034eb4b927adc027a1a872d6818be40697a383a9b4e94b051f694e49b8c6d8d3),
    I512(false, 0x2355094edfede377c38b5dcb707e08ed365043eb4be4bad7142737a020c0d6393))

  /** Both bases span their lattices, leave room, and have short columns. */
  lemma Bn254Good()
    ensures Spans(T512, BN254, BN254_ORDER, BN254_LAMBDA) && Roomy(T512, BN254, BN254_ORDER) && BN254_ORDER <= T512
    ensures 2 * (BN254.n11.data + BN254.n21.data) < BN254_ORDER && 2 * (BN254.n12.data + BN254.n22.data) < BN254_ORDER
  {}

  lemma Bls12Good()
    ensures Spans(T512, BLS12, BLS12_ORDER, BLS12_LAMBDA) && Roomy(T512, BLS12, BLS12_ORDER) && BLS12_ORDER <= T512
    ensures 2 * (BLS12.n11.data + BLS12.n21.data) < BLS12_ORDER && 2 * (BLS12.n12.data + BLS12.n22.data) < BLS12_ORDER
  {}
}
