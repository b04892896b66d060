/** The four-stream multiplication of secp256k1 recovery. */
module K1Multiply {
  import opened Digits
  import opened PointGroup
  import opened Wnaf
  import opened EcMultiply
  import opened K1Scalars

  const WNAF_BITS: nat := 129
  const TOP_BIT: nat := 255

  /** The lambda table: the endomorphism applied entry by entry. */
  method LambdaTable<G(!new)>(g: Group<G>, phi: G -> G, table: seq<G>, lambda: int, ghost a: G) returns (aux: array<G>)
    requires Abelian(g) && (forall x :: phi(x) == Times(g, lambda, x)) && OddTable(g, table, WINDOW_A, a)
    ensures OddTable(g, aux[..], WINDOW_A, phi(a))
  {
    aux := new G[|table|](i requires 0 <= i < |table| => table[i]);
    for i := 0 to |table|
      invariant forall k :: 0 <= k < i ==> aux[k] == phi(table[k])
    {
      aux[i] := phi(table[i]);
    }
    forall k | 0 <= k < |table| ensures aux[k] == Times(g, 2 * k + 1, phi(a)) {
      TimesTimes(g, lambda, 2 * k + 1, a);
      TimesTimes(g, 2 * k + 1, lambda, a);
      Commute(lambda, 2 * k + 1);
    }
  }

  /** The streams and what each adds up to. */
  ghost predicate Four<G(!new)>(g: Group<G>, s0: Stream<G>, s1: Stream<G>, s2: Stream<G>, s3: Stream<G>,
                                c: seq<int>, xs: seq<G>)
  {
    && |c| == |xs| == 4
    && Carries(g, s0, WINDOW_A, c[0], xs[0]) && Carries(g, s1, WINDOW_A, c[1], xs[1])
    && Carries(g, s2, WINDOW_G, c[2], xs[2]) && Carries(g, s3, WINDOW_G, c[3], xs[3])
    && |s0.digits| == |s1.digits| == |s2.digits| == |s3.digits|
  }

  /** One round: a doubling and at most four additions. */
  method Round<G(!new)>(g: Group<G>, s0: Stream<G>, s1: Stream<G>, s2: Stream<G>, s3: Stream<G>, i: nat, r: G,
                        ghost ds: seq<seq<int>>, ghost c: seq<int>, ghost xs: seq<G>) returns (r': G)
    requires Abelian(g) && Four(g, s0, s1, s2, s3, c, xs) && i < |s0.digits|
    requires ds == [s0.digits, s1.digits, s2.digits, s3.digits] && r == Combo(g, Coefficients(ds, i + 1), xs)
    ensures r' == Combo(g, Coefficients(ds, i), xs)
  {
    RoundStart(g, ds, xs, i);
    r' := g.add(r, r);
    RoundAdd(g, ds, xs, i, 0);
    r' := AddDigit(g, r', s0, i, WINDOW_A, c[0], xs[0]);
    RoundAdd(g, ds, xs, i, 1);
    r' := AddDigit(g, r', s1, i, WINDOW_A, c[1], xs[1]);
    RoundAdd(g, ds, xs, i, 2);
    r' := AddDigit(g, r', s2, i, WINDOW_G, c[2], xs[2]);
    RoundAdd(g, ds, xs, i, 3);
    r' := AddDigit(g, r', s3, i, WINDOW_G, c[3], xs[3]);
  }

  /** Rounds over four streams of equal length, from the longest one's last digit. */
  method FourStreams<G(!new)>(g: Group<G>, s0: Stream<G>, s1: Stream<G>, s2: Stream<G>, s3: Stream<G>,
                              ghost c: seq<int>, ghost xs: seq<G>) returns (r: G)
    requires Abelian(g) && Four(g, s0, s1, s2, s3, c, xs)
    ensures r == Combo(g, c, xs)
  {
    ghost var ds := [s0.digits, s1.digits, s2.digits, s3.digits];
    var bits := if s0.bits > s1.bits then s0.bits else s1.bits;
    if s2.bits > bits { bits := s2.bits; }
    if s3.bits > bits { bits := s3.bits; }
    r := g.zero;
    var i := if bits > 0 then bits else 0;
    ComboZero(g, ds, xs, i);
    while i > 0
      invariant 0 <= i <= |s0.digits|
      invariant r == Combo(g, Coefficients(ds, i), xs)
    {
      i := i - 1;
      r := Round(g, s0, s1, s2, s3, i, r, ds, c, xs);
    }
    ComboSame(g, Coefficients(ds, 0), c, xs);
  }

  /** The curve constants fit the digit counts. */
  ghost predicate Sized(p: Params, m: nat) {
    m > 0 && m == Pow(2, WNAF_BITS - 1) && m <= Pow(2, TOP_BIT) <= p.order - m && p.order < Pow(2, TOP_BIT + 1)
  }

  /** The halves of `k` recombine to it and are short. */
  ghost predicate SplitOk(p: Params, k: nat)
    requires p.t > 0 && p.order > 0
  {
    var (r1, r2) := Split(p, k);
    && r1 >= 0 && r2 >= 0 && (r1 + Lambda(p) * r2) % p.order == k % p.order
    && Short(r1, p.order, TOP_BIT, WNAF_BITS) && Short(r2, p.order, TOP_BIT, WNAF_BITS)
  }

  ghost predicate SplitsShort(p: Params) {
    p.t > 0 && p.order > 0 && forall k: nat :: k < p.order ==> SplitOk(p, k)
  }

  /** A good basis of the right size splits every scalar. */
  lemma GoodSplits(p: Params, a1: int, b1: int, a2: int, b2: int, m: nat)
    requires Good(p, a1, b1, a2, b2, m) && Sized(p, m)
    ensures SplitsShort(p)
  {
    forall k: nat | k < p.order ensures SplitOk(p, k) { SplitEach(p, k, a1, b1, a2, b2, m); }
  }

  lemma SplitEach(p: Params, k: nat, a1: int, b1: int, a2: int, b2: int, m: nat)
    requires Good(p, a1, b1, a2, b2, m) && Sized(p, m) && k < p.order
    ensures SplitOk(p, k)
  {
    SplitCorrect(p, k, a1, b1, a2, b2, m);
    var (r1, r2) := Split(p, k);
    NearIsShort(p.order, m, r1, TOP_BIT, WNAF_BITS);
    NearIsShort(p.order, m, r2, TOP_BIT, WNAF_BITS);
  }

  /** The streams of `a` and `lambda*a`, from the split of `na`. */
  method StreamsOfA<G(==,!new)>(g: Group<G>, p: Params, phi: G -> G, a: G, na: nat)
    returns (s0: Stream<G>, s1: Stream<G>, ghost c0: int, ghost c1: int)
    requires Abelian(g) && (forall x :: phi(x) == Times(g, Lambda(p), x))
    requires SplitsShort(p) && na < p.order && Times(g, p.order, a) == g.zero
    ensures Carries(g, s0, WINDOW_A, c0, a) && Carries(g, s1, WINDOW_A, c1, phi(a))
    ensures |s0.digits| == |s1.digits| == WNAF_BITS
    ensures g.add(Times(g, c0, a), Times(g, c1, phi(a))) == Times(g, na, a)
  {
    if na != 0 && a != g.zero {
      assert SplitOk(p, na);
      var (na1, naLam) := Split(p, na);
      s0, s1 := SplitStreams(g, p, phi, a, na1, naLam);
      c0, c1 := na1, naLam;
      Recombine(g, p.order, Lambda(p), na1, naLam, na, a);
    } else {
      s0 := Silent(g, WNAF_BITS, WINDOW_A, na, a);
      s1 := Silent(g, WNAF_BITS, WINDOW_A, 0, phi(a));
      c0, c1 := na, 0;
      Laws(g, Times(g, na, a), g.zero, g.zero);
    }
  }

  /** Both streams share the table of odd multiples, the second through the endomorphism. */
  method SplitStreams<G(!new)>(g: Group<G>, p: Params, phi: G -> G, a: G, na1: nat, naLam: nat)
    returns (s0: Stream<G>, s1: Stream<G>)
    requires Abelian(g) && (forall x :: phi(x) == Times(g, Lambda(p), x)) && Times(g, p.order, a) == g.zero
    requires Short(na1, p.order, TOP_BIT, WNAF_BITS) && Short(naLam, p.order, TOP_BIT, WNAF_BITS)
    ensures Carries(g, s0, WINDOW_A, na1, a) && Carries(g, s1, WINDOW_A, naLam, phi(a))
    ensures |s0.digits| == |s1.digits| == WNAF_BITS
  {
    var table := OddMultiples(g, a, WINDOW_A);
    var aux := LambdaTable(g, phi, table[..], Lambda(p), a);
    OrderOfImage(g, p.order, Lambda(p), a);
    s0 := Speaking(g, na1, p.order, TOP_BIT, WNAF_BITS, WINDOW_A, table[..], a);
    s1 := Speaking(g, naLam, p.order, TOP_BIT, WNAF_BITS, WINDOW_A, aux[..], phi(a));
  }

  lemma OrderOfImage<G(!new)>(g: Group<G>, order: nat, lambda: int, a: G)
    requires Abelian(g) && Times(g, order, a) == g.zero
    ensures Times(g, order, Times(g, lambda, a)) == g.zero
  {
    TimesTimes(g, order, lambda, a);
    TimesTimes(g, lambda, order, a);
    Commute(order, lambda);
    TimesZero(g, lambda);
  }

  lemma Recombine<G(!new)>(g: Group<G>, order: nat, lambda: int, u: int, v: int, n: int, a: G)
    requires Abelian(g) && order > 0 && Times(g, order, a) == g.zero && (u + lambda * v) % order == n % order
    ensures g.add(Times(g, u, a), Times(g, v, Times(g, lambda, a))) == Times(g, n, a)
  {
    TimesTimes(g, v, lambda, a);
    Commute(v, lambda);
    SumOfTwo(g, order, u, v * lambda, u + v * lambda, n, a);
  }

  lemma SumOfTwo<G(!new)>(g: Group<G>, order: nat, u: int, x: int, k: int, n: int, a: G)
    requires Abelian(g) && order > 0 && Times(g, order, a) == g.zero && k == u + x && k % order == n % order
    ensures g.add(Times(g, u, a), Times(g, x, a)) == Times(g, n, a)
  {
    TimesAdd(g, u, x, a);
    TimesPeriod(g, order, k, n, a);
  }

  /** The streams of the generator and of its `2^128`-fold, from the two halves of `ng`. */
  method StreamsOfG<G(!new)>(g: Group<G>, p: Params, ng: nat, tableG: seq<G>, tableG128: seq<G>, ghost gen: G, m: nat)
    returns (s2: Stream<G>, s3: Stream<G>, ghost c2: int, ghost c3: int)
    requires Abelian(g) && Sized(p, m) && ng < p.order <= m * m && Times(g, p.order, gen) == g.zero
    requires OddTable(g, tableG, WINDOW_G, gen) && OddTable(g, tableG128, WINDOW_G, Times(g, m, gen))
    ensures Carries(g, s2, WINDOW_G, c2, gen) && Carries(g, s3, WINDOW_G, c3, Times(g, m, gen))
    ensures |s2.digits| == |s3.digits| == WNAF_BITS
    ensures g.add(Times(g, c2, gen), Times(g, c3, Times(g, m, gen))) == Times(g, ng, gen)
  {
    DivModDef(ng, m);
    var low, high := ng % m, ng / m;
    if high >= m { MulMono(m, high, m); }
    c2, c3 := low, high;
    assert low + m * high == ng by { Commute(m, high); }
    Recombine(g, p.order, m, low, high, ng, gen);
    if ng != 0 {
      NearIsShort(p.order, m, low, TOP_BIT, WNAF_BITS);
      NearIsShort(p.order, m, high, TOP_BIT, WNAF_BITS);
      OrderOfImage(g, p.order, m, gen);
      s2 := Speaking(g, low, p.order, TOP_BIT, WNAF_BITS, WINDOW_G, tableG, gen);
      s3 := Speaking(g, high, p.order, TOP_BIT, WNAF_BITS, WINDOW_G, tableG128, Times(g, m, gen));
    } else {
      DivModUnique(0, m, 0, 0);
      s2 := Silent(g, WNAF_BITS, WINDOW_G, 0, g.zero);
      s3 := Silent(g, WNAF_BITS, WINDOW_G, 0, g.zero);
      SilentFor(g, s2, WINDOW_G, gen);
      SilentFor(g, s3, WINDOW_G, Times(g, m, gen));
    }
  }

  /** `ecmult`: `na*a + ng*gen` in every abelian group whose points the order annihilates. */
  method EcMultK1<G(==,!new)>(g: Group<G>, p: Params, phi: G -> G, a: G, na: nat, ng: nat, tableG: seq<G>,
                              tableG128: seq<G>, ghost gen: G, m: nat)
    returns (r: G)
    requires Abelian(g) && (forall x :: phi(x) == Times(g, Lambda(p), x))
    requires SplitsShort(p) && Sized(p, m) && na < p.order && ng < p.order <= m * m
    requires Times(g, p.order, a) == g.zero && Times(g, p.order, gen) == g.zero
    requires OddTable(g, tableG, WINDOW_G, gen) && OddTable(g, tableG128, WINDOW_G, Times(g, m, gen))
    ensures r == g.add(Times(g, na, a), Times(g, ng, gen))
  {
    var s0, s1, c0, c1 := StreamsOfA(g, p, phi, a, na);
    var s2, s3, c2, c3 := StreamsOfG(g, p, ng, tableG, tableG128, gen, m);
    ghost var xs := [a, phi(a), gen, Times(g, m, gen)];
    r := FourStreams(g, s0, s1, s2, s3, [c0, c1, c2, c3], xs);
    ComboFour(g, c0, c1, c2, c3, xs);
  }

  lemma ComboFour<G(!new)>(g: Group<G>, c0: int, c1: int, c2: int, c3: int, xs: seq<G>)
    requires Abelian(g) && |xs| == 4
    ensures Combo(g, [c0, c1, c2, c3], xs)
         == g.add(g.add(Times(g, c0, xs[0]), Times(g, c1, xs[1])), g.add(Times(g, c2, xs[2]), Times(g, c3, xs[3])))
  {
    var c := [c0, c1, c2, c3];
    assert c[..3][..2] == [c0, c1] && xs[..3][..2] == [xs[0], xs[1]];
    ComboTwo(g, c0, c1, xs[0], xs[1]);
    var u := Combo(g, [c0, c1], [xs[0], xs[1]]);
    Laws(g, u, Times(g, c2, xs[2]), Times(g, c3, xs[3]));
  }

  /** The constants in use split every scalar into halves of at most 129 digits. */
  lemma Secp256k1Splits()
    ensures SplitsShort(SECP256K1)
  {
    ConstantsGood();
    ConstantsSized();
    GoodSplits(SECP256K1, 0x3086d221a7d46bcde86c90e49284eb15, -0xe4437ed6010e88286f547fa90abfe4c3,
               0x114ca50f7a8e2f3f657c1108d9d44cfd8, 0x3086d221a7d46bcde86c90e49284eb15,
               0x1_00000000_00000000_00000000_00000000);
  }

  lemma ConstantsSized()
    ensures Sized(SECP256K1, 0x1_00000000_00000000_00000000_00000000)
  {
    var n := 64;
    PowerOf64(n);
    PowAdd(2, n, n);
    PowAdd(2, n, n - 1);
    PowAdd(2, 2 * n, 2 * n - 1);
    PowEven(4 * n);
  }

  lemma Squared(n: nat, v: int)
    requires Pow(2, n) == v
    ensures Pow(2, 2 * n) == v * v
  {
    PowAdd(2, n, n);
  }

  lemma PowerOf64(n: nat)
    requires n == 64
    ensures Pow(2, n) == 0x1_00000000_00000000 && Pow(2, n - 1) == 0x80000000_00000000
  {
    PowerOf16(16);
    var k := 16;
    Squared(k, 0x10000);
    Squared(2 * k, 0x1_00000000);
    PowEven(n);
  }

  lemma PowerOf16(k: nat)
    requires k == 16
    ensures Pow(2, k) == 0x10000
  {
    assert Pow(2, 8) == 256;
    Squared(8, 256);
  }
}
