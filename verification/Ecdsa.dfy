/** Signature verification and public-key recovery over the two multiplications. */
module Ecdsa {
  import opened Digits
  import opened PointGroup
  import opened EcMultiply
  import opened K1Scalars
  import opened K1Multiply

  datatype Result<+T> = Ok(value: T) | Err(error: Failure)
  datatype Failure =
    InvalidSignature | OperationOverflow | InvalidParams | RecoveredInfinity | InvalidFieldBytes | InvalidCoordinates

  /** The scalar field's inversion. */
  ghost predicate Inverts(order: nat, inv: nat -> nat) {
    order > 1 && forall x: nat :: 0 < x < order ==> (x * inv(x)) % order == 1
  }

  /** The point whose abscissa a verifier compares with `r`. */
  ghost function VerifyPoint<G(!new)>(g: Group<G>, order: nat, inv: nat -> nat, gen: G, q: G, z: nat, r: nat,
                               s: nat): (p: G)
    requires order > 0
  {
    g.add(Times(g, (r * inv(s)) % order, q), Times(g, (z * inv(s)) % order, gen))
  }

  /** The key a signature determines together with the point of its nonce. */
  ghost function RecoveredKey<G(!new)>(g: Group<G>, order: nat, inv: nat -> nat, gen: G, point: G, z: nat, r: nat,
                                s: nat): (q: G)
    requires order > 0
  {
    g.add(Times(g, (s * inv(r)) % order, point), Times(g, (-(inv(r) * z)) % order, gen))
  }

  /** A curve `y^2 = x^3 + a*x + b` over the integers modulo `prime`, and its points as group elements. */
  datatype Curve<!G> = Curve(prime: nat, a: nat, b: nat, point: (nat, nat) -> G)

  predicate OnCurve<G>(c: Curve<G>, x: nat, y: nat) {
    x < c.prime && y < c.prime && (y * y) % c.prime == (x * x * x + c.a * x + c.b) % c.prime
  }

  /** `Affine::from_be_bytes`: coordinates in range, the origin for the identity, and otherwise a point of the curve. */
  function DecodeKey<G(!new)>(g: Group<G>, c: Curve<G>, x: nat, y: nat): (k: Result<G>)
    ensures k == Err(InvalidFieldBytes) <==> x >= c.prime || y >= c.prime
    ensures k.Ok? <==> OnCurve(c, x, y) || (x == 0 && y == 0 && 0 < c.prime)
    ensures k.Ok? && (x != 0 || y != 0) ==> k.value == c.point(x, y)
  {
    if x >= c.prime || y >= c.prime then Err(InvalidFieldBytes)
    else if x == 0 && y == 0 then Ok(g.zero)
    else if OnCurve(c, x, y) then Ok(c.point(x, y))
    else Err(InvalidCoordinates)
  }

  /** `(r, s)` signs `z` under the key `(x, y)` of the secret `d`, with the nonce `k`. */
  ghost predicate Honest<G(!new)>(g: Group<G>, c: Curve<G>, order: nat, abscissa: G -> nat, gen: G, x: nat, y: nat,
                                  z: nat, r: nat, s: nat, d: nat, k: nat)
    requires order > 0
  {
    && OnCurve(c, x, y) && (x != 0 || y != 0) && c.point(x, y) == Times(g, d, gen) != g.zero
    && Times(g, k, gen) != g.zero && 0 < r == abscissa(Times(g, k, gen)) % order
    && 0 < s < order && (s * k) % order == (z + r * d) % order
  }

  /** `verify`: `abscissa` is the affine x-coordinate, reduced like a scalar. The signature is checked first, then the
      key, then what they lead to. */
  method Verify<G(==,!new)>(g: Group<G>, c: Curve<G>, order: nat, top: nat, inv: nat -> nat, abscissa: G -> nat, x: nat,
                            y: nat, z: nat, r: nat, s: nat, tableG: seq<G>, ghost gen: G)
    returns (res: Result<bool>)
    requires Abelian(g) && Inverts(order, inv) && z < order < Pow(2, top + 1)
    requires forall u: nat, v: nat :: OnCurve(c, u, v) ==> Times(g, order, c.point(u, v)) == g.zero
    requires Times(g, order, gen) == g.zero && OddTable(g, tableG, WINDOW_G, gen)
    ensures (r == 0 || s == 0 || r >= order || s >= order) <==> res == Err(InvalidSignature)
    ensures var key := DecodeKey(g, c, x, y);
      res == Err(InvalidSignature)
      || if key.Err? then res == Err(key.error)
         else
           var p := VerifyPoint(g, order, inv, gen, key.value, z, r, s);
           res == if key.value == g.zero || p == g.zero then Err(RecoveredInfinity) else Ok(abscissa(p) % order == r)
    ensures forall d: nat, k: nat :: Honest(g, c, order, abscissa, gen, x, y, z, r, s, d, k) ==> res == Ok(true)
  {
    if r == 0 || s == 0 || r >= order || s >= order { return Err(InvalidSignature); }
    var key := DecodeKey(g, c, x, y);
    forall d: nat, k: nat | Honest(g, c, order, abscissa, gen, x, y, z, r, s, d, k)
      ensures key.Ok? && VerifyPoint(g, order, inv, gen, key.value, z, r, s) == Times(g, k, gen)
    {
      HonestVerifies(g, order, inv, gen, d, k, z, r, s);
    }
    if key.Err? { return Err(key.error); }
    var q := key.value;
    if q == g.zero { return Err(RecoveredInfinity); }
    var sInv := inv(s);
    DivModDef(z * sInv, order);
    DivModDef(r * sInv, order);
    var u1, u2 := (z * sInv) % order, (r * sInv) % order;
    var p := EcMultR1(g, order, top, q, u2, u1, tableG, gen);
    if p == g.zero { return Err(RecoveredInfinity); }
    return Ok(abscissa(p) % order == r);
  }

  /** `recover_with_context`: `lift` decompresses an abscissa and a parity. */
  method Recover<G(==,!new)>(g: Group<G>, p: Params, phi: G -> G, inv: nat -> nat, lift: (nat, bool) -> Result<G>,
                   limit: nat,
                             z: nat, r: nat, s: nat, reduced: bool, odd: bool, tableG: seq<G>, tableG128: seq<G>,
                             ghost gen: G, m: nat)
    returns (res: Result<G>)
    requires Abelian(g) && (forall x :: phi(x) == Times(g, Lambda(p), x)) && Inverts(p.order, inv)
    requires SplitsShort(p) && Sized(p, m) && p.order <= m * m
    requires (forall x, b :: lift(x, b).Ok? ==> Times(g, p.order, lift(x, b).value) == g.zero)
    requires Times(g, p.order, gen) == g.zero && 0 < r < p.order && 0 < s < p.order && z < p.order < limit
    requires OddTable(g, tableG, WINDOW_G, gen) && OddTable(g, tableG128, WINDOW_G, Times(g, m, gen))
    ensures var x := if reduced then r + p.order else r;
      if x >= limit then res == Err(OperationOverflow)
      else if lift(x, odd).Err? then res == Err(InvalidParams)
      else var q := RecoveredKey(g, p.order, inv, gen, lift(x, odd).value, z, r, s);
        res == if q == g.zero then Err(RecoveredInfinity) else Ok(q)
  {
    var x := r;
    if reduced {
      if r + p.order >= limit { return Err(OperationOverflow); }
      x := r + p.order;
    }
    var point := lift(x, odd);
    if point.Err? { return Err(InvalidParams); }
    var rInv := inv(r);
    DivModDef(s * rInv, p.order);
    DivModDef(-(rInv * z), p.order);
    var u, v := (s * rInv) % p.order, (-(rInv * z)) % p.order;
    var q := EcMultK1(g, p, phi, point.value, u, v, tableG, tableG128, gen, m);
    if q == g.zero { return Err(RecoveredInfinity); }
    return Ok(q);
  }

  //// What the two compute

  lemma {:induction false} TimesDistrib<G(!new)>(g: Group<G>, k: int, x: G, y: G)
    requires Abelian(g)
    ensures Times(g, k, g.add(x, y)) == g.add(Times(g, k, x), Times(g, k, y))
    decreases if k < 0 then 1 - k else k
  {
    if k == 0 {
      Laws(g, g.zero, g.zero, g.zero);
    } else if k > 0 {
      TimesDistrib(g, k - 1, x, y);
      Interchange(g, x, y, Times(g, k - 1, x), Times(g, k - 1, y));
    } else {
      TimesDistrib(g, -k, x, y);
      var u, v := Times(g, -k, x), Times(g, -k, y);
      Interchange(g, u, v, g.neg(u), g.neg(v));
      Laws(g, u, v, v);
      Laws(g, v, u, u);
      Laws(g, g.zero, g.zero, g.zero);
      Cancel(g, g.add(u, v), g.add(g.neg(u), g.neg(v)));
    }
  }

  lemma ResidueSum(order: nat, u: int, v: int)
    requires order > 0
    ensures (u % order + v % order) % order == (u + v) % order == (u + v % order) % order
  {
    ModMod(u, order);
    ModMod(v, order);
    CongAdd(u % order, u, v % order, v, order);
    CongAdd(u, u, v % order, v, order);
  }

  /** Two reduced multiples of a point, added. */
  lemma Residues<G(!new)>(g: Group<G>, order: nat, u: int, v: int, a: int, b: int, n: int, x: G)
    requires Abelian(g) && order > 0 && Times(g, order, x) == g.zero && (u + v) % order == n % order
    requires a == u % order && b == v % order
    ensures g.add(Times(g, a, x), Times(g, b, x)) == Times(g, n, x)
  {
    ResidueSum(order, u, v);
    SumOfTwo(g, order, a, b, a + b, n, x);
  }

  /** Scaling by a reduced factor. */
  lemma Scale<G(!new)>(g: Group<G>, order: nat, u: int, d: int, gen: G)
    requires Abelian(g) && order > 0 && Times(g, order, gen) == g.zero
    ensures Times(g, u % order, Times(g, d, gen)) == Times(g, (u * d) % order, gen)
  {
    TimesTimes(g, u % order, d, gen);
    ModMod(u, order);
    CongMul(u % order, u, d, d, order);
    ModMod(u * d, order);
    TimesPeriod(g, order, (u % order) * d, (u * d) % order, gen);
  }

  /** An honest signature makes the verifier compute the signer's nonce point. */
  lemma HonestVerifies<G(!new)>(g: Group<G>, order: nat, inv: nat -> nat, gen: G, d: nat, k: nat, z: nat, r: nat,
                         s: nat)
    requires Abelian(g) && Inverts(order, inv) && Times(g, order, gen) == g.zero
    requires 0 < s < order && (s * k) % order == (z + r * d) % order
    ensures VerifyPoint(g, order, inv, gen, Times(g, d, gen), z, r, s) == Times(g, k, gen)
  {
    var i := inv(s);
    var u, v := (r * i) * d, z * i;
    Scale(g, order, r * i, d, gen);
    SignedSum(order, i, s, k, z, r, d);
    Residues(g, order, u, v, u % order, v % order, k, gen);
  }

  lemma SignedSum(order: nat, i: int, s: int, k: int, z: int, r: int, d: int)
    requires order > 1 && (s * i) % order == 1 && (s * k) % order == (z + r * d) % order
    ensures ((r * i) * d + z * i) % order == k % order
  {
    assert (r * i) * d + z * i == (z + r * d) * i by {
      Distrib(z, r * d, i);
      Assoc(r, d, i);
      Commute(d, i);
      Assoc(r, i, d);
    }
    CongMul(z + r * d, s * k, i, i, order);
    assert (s * k) * i == (s * i) * k by { Assoc(s, k, i); Commute(k, i); Assoc(s, i, k); }
    ModSmall(1, order);
    CongMul(s * i, 1, k, k, order);
  }

  /** An honest signature and its nonce point determine the signer's key. */
  lemma HonestRecovers<G(!new)>(g: Group<G>, order: nat, inv: nat -> nat, gen: G, d: nat, k: nat, z: nat, r: nat,
                         s: nat)
    requires Abelian(g) && Inverts(order, inv) && Times(g, order, gen) == g.zero
    requires 0 < r < order && (s * k) % order == (z + r * d) % order
    ensures RecoveredKey(g, order, inv, gen, Times(g, k, gen), z, r, s) == Times(g, d, gen)
  {
    var i := inv(r);
    var u, v := (s * i) * k, -(i * z);
    Scale(g, order, s * i, k, gen);
    RecoveredSum(order, i, s, k, z, r, d);
    Residues(g, order, u, v, u % order, v % order, d, gen);
  }

  lemma RecoveredSum(order: nat, i: int, s: int, k: int, z: int, r: int, d: int)
    requires order > 1 && (r * i) % order == 1 && (s * k) % order == (z + r * d) % order
    ensures ((s * i) * k + -(i * z)) % order == d % order
  {
    assert (s * i) * k == (s * k) * i by { Assoc(s, k, i); Commute(k, i); Assoc(s, i, k); }
    CongMul(s * k, z + r * d, i, i, order);
    ModMod(0, order);
    CongAdd((s * k) * i, (z + r * d) * i, -(i * z), -(i * z), order);
    assert (z + r * d) * i + -(i * z) == (r * i) * d by {
      Distrib(z, r * d, i);
      Commute(z, i);
      Assoc(r, d, i);
      Commute(d, i);
      Assoc(r, i, d);
    }
    ModSmall(1, order);
    CongMul(r * i, 1, d, d, order);
  }

  /** Whatever the nonce point, the recovered key makes the verifier compute that very point. */
  lemma RecoveredVerifies<G(!new)>(g: Group<G>, order: nat, inv: nat -> nat, gen: G, point: G, z: nat, r: nat, s: nat)
    requires Abelian(g) && Inverts(order, inv) && 0 < r < order && 0 < s < order
    requires Times(g, order, gen) == g.zero && Times(g, order, point) == g.zero
    ensures VerifyPoint(g, order, inv, gen, RecoveredKey(g, order, inv, gen, point, z, r, s), z, r, s) == point
  {
    var i, j := inv(s), inv(r);
    var x, y := Times(g, (s * j) % order, point), Times(g, (-(j * z)) % order, gen);
    TimesDistrib(g, (r * i) % order, x, y);
    CancelFactors(order, r, s, i, j, z);
    assert Times(g, (r * i) % order, x) == point by {
      ScaleReduced(g, order, r * i, s * j, 1, point);
      TimesOne(g, point);
    }
    ScaleReduced(g, order, r * i, -(j * z), -(z * i), gen);
    Opposite(g, order, z * i, gen);
    FoldAway(g, point, Times(g, -(z * i), gen), Times(g, (z * i) % order, gen));
  }

  lemma Opposite<G(!new)>(g: Group<G>, order: nat, v: int, x: G)
    requires Abelian(g) && order > 0 && Times(g, order, x) == g.zero
    ensures g.add(Times(g, -v, x), Times(g, v % order, x)) == g.zero
  {
    ResidueSum(order, -v, v);
    var b := v % order;
    SumOfTwo(g, order, -v, b, -v + b, 0, x);
  }

  lemma FoldAway<G(!new)>(g: Group<G>, x: G, y: G, t: G)
    requires Abelian(g) && g.add(y, t) == g.zero
    ensures g.add(g.add(x, y), t) == x
  {
    Laws(g, x, y, t);
  }

  lemma ScaleReduced<G(!new)>(g: Group<G>, order: nat, u: int, v: int, n: int, x: G)
    requires Abelian(g) && order > 0 && Times(g, order, x) == g.zero && (u * v) % order == n % order
    ensures Times(g, u % order, Times(g, v % order, x)) == Times(g, n, x)
  {
    Scale(g, order, u, v % order, x);
    ModMod(v, order);
    CongMul(u, u, v % order, v, order);
    ModMod(n, order);
    TimesPeriod(g, order, (u * (v % order)) % order, n, x);
  }

  lemma CancelFactors(order: nat, r: int, s: int, i: int, j: int, z: int)
    requires order > 1 && (s * i) % order == 1 && (r * j) % order == 1
    ensures ((r * i) * (s * j)) % order == 1 % order
    ensures ((r * i) * -(j * z)) % order == (-(z * i)) % order
  {
    ModSmall(1, order);
    assert (r * i) * (s * j) == (s * i) * (r * j) by {
      Assoc(r, i, s * j);
      Swap(i, s, j);
      Swap(r, s, i * j);
      Swap(r, i, j);
      Assoc(s, i, r * j);
    }
    CongMul(s * i, 1, r * j, 1, order);
    assert (r * i) * -(j * z) == (r * j) * -(z * i) by {
      NegMul(j * z, r * i);
      NegMul(z * i, r * j);
      Assoc(r, i, j * z);
      Swap(i, j, z);
      Commute(i, z);
      Assoc(r, j, z * i);
    }
    CongMul(r * j, 1, -(z * i), -(z * i), order);
  }
}
