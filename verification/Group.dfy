/** Abelian groups as values: a curve's points with addition, negation and the point at infinity. */
module PointGroup {
  import opened Digits

  datatype Group<!G(!new)> = Group(add: (G, G) -> G, neg: G -> G, zero: G)

  ghost predicate AssocAt<G(!new)>(g: Group<G>, x: G, y: G, z: G) {
    g.add(g.add(x, y), z) == g.add(x, g.add(y, z))
  }

  ghost predicate CommuteAt<G(!new)>(g: Group<G>, x: G, y: G) {
    g.add(x, y) == g.add(y, x)
  }

  ghost predicate UnitAt<G(!new)>(g: Group<G>, x: G) {
    g.add(g.zero, x) == x && g.add(g.neg(x), x) == g.zero
  }

  ghost predicate Abelian<G(!new)>(g: Group<G>) {
    && (forall x, y, z :: AssocAt(g, x, y, z))
    && (forall x, y :: CommuteAt(g, x, y))
    && (forall x :: UnitAt(g, x))
  }

  /** `k` times `x`, for any integer `k`. */
  ghost function Times<G(!new)>(g: Group<G>, k: int, x: G): (r: G)
    decreases if k < 0 then 1 - k else k
  {
    if k == 0 then g.zero
    else if k < 0 then g.neg(Times(g, -k, x))
    else g.add(x, Times(g, k - 1, x))
  }

  lemma Laws<G(!new)>(g: Group<G>, x: G, y: G, z: G)
    requires Abelian(g)
    ensures g.add(g.add(x, y), z) == g.add(x, g.add(y, z))
    ensures g.add(x, y) == g.add(y, x)
    ensures g.add(g.zero, x) == x && g.add(x, g.zero) == x
    ensures g.add(g.neg(x), x) == g.zero && g.add(x, g.neg(x)) == g.zero
  {
    assert AssocAt(g, x, y, z) && CommuteAt(g, x, y) && UnitAt(g, x);
    assert CommuteAt(g, x, g.zero) && CommuteAt(g, x, g.neg(x));
  }

  /** Inverses are unique. */
  lemma Cancel<G(!new)>(g: Group<G>, x: G, y: G)
    requires Abelian(g) && g.add(x, y) == g.zero
    ensures y == g.neg(x)
  {
    Laws(g, g.neg(x), x, y);
    Laws(g, x, y, y);
    Laws(g, y, y, y);
  }

  lemma Interchange<G(!new)>(g: Group<G>, a: G, b: G, c: G, d: G)
    requires Abelian(g)
    ensures g.add(g.add(a, b), g.add(c, d)) == g.add(g.add(a, c), g.add(b, d))
  {
    Laws(g, a, b, g.add(c, d));
    Laws(g, b, c, d);
    Laws(g, c, b, d);
    Laws(g, a, c, g.add(b, d));
  }

  lemma NegZero<G(!new)>(g: Group<G>)
    requires Abelian(g)
    ensures g.neg(g.zero) == g.zero
  {
    Laws(g, g.zero, g.zero, g.zero);
    Cancel(g, g.zero, g.zero);
  }

  /** `Times` steps by one over all the integers. */
  lemma TimesStep<G(!new)>(g: Group<G>, k: int, x: G)
    requires Abelian(g)
    ensures Times(g, k + 1, x) == g.add(x, Times(g, k, x))
  {
    if k < 0 {
      var u := Times(g, -k - 1, x);
      assert Times(g, -k, x) == g.add(x, u);
      // neg(x + u) + (x + u) == 0, so x + neg(x + u) == neg(u)
      var n := g.neg(g.add(x, u));
      Laws(g, g.add(x, u), n, n);
      Laws(g, u, x, n);
      Laws(g, x, u, n);
      Laws(g, x, n, n);
      assert g.add(u, g.add(x, n)) == g.zero;
      Cancel(g, u, g.add(x, n));
      if k == -1 { NegZero(g); }
    }
  }

  lemma {:induction false} TimesAdd<G(!new)>(g: Group<G>, k: int, l: int, x: G)
    requires Abelian(g)
    ensures Times(g, k + l, x) == g.add(Times(g, k, x), Times(g, l, x))
    decreases if l < 0 then -l else l
  {
    if l == 0 {
      Laws(g, Times(g, k, x), g.zero, g.zero);
    } else if l > 0 {
      TimesAdd(g, k, l - 1, x);
      TimesStep(g, k + l - 1, x);
      TimesStep(g, l - 1, x);
      AddMiddle(g, x, Times(g, k, x), Times(g, l - 1, x));
    } else {
      TimesAdd(g, k, l + 1, x);
      TimesStep(g, k + l, x);
      TimesStep(g, l, x);
      AddMiddle(g, x, Times(g, k, x), Times(g, l, x));
      AddCancels(g, x, Times(g, k + l, x), g.add(Times(g, k, x), Times(g, l, x)));
    }
  }

  lemma AddMiddle<G(!new)>(g: Group<G>, x: G, y: G, z: G)
    requires Abelian(g)
    ensures g.add(x, g.add(y, z)) == g.add(y, g.add(x, z))
  {
    Laws(g, x, y, z);
    Laws(g, y, x, z);
  }

  lemma AddCancels<G(!new)>(g: Group<G>, x: G, y: G, z: G)
    requires Abelian(g) && g.add(x, y) == g.add(x, z)
    ensures y == z
  {
    Laws(g, g.neg(x), x, y);
    Laws(g, g.neg(x), x, z);
    Laws(g, x, y, z);
    Laws(g, y, z, z);
    Laws(g, z, z, z);
  }

  lemma TimesNeg<G(!new)>(g: Group<G>, k: int, x: G)
    requires Abelian(g)
    ensures Times(g, -k, x) == g.neg(Times(g, k, x))
  {
    TimesAdd(g, k, -k, x);
    Cancel(g, Times(g, k, x), Times(g, -k, x));
  }

  lemma TimesOne<G(!new)>(g: Group<G>, x: G)
    requires Abelian(g)
    ensures Times(g, 1, x) == x
  {
    TimesStep(g, 0, x);
    Laws(g, x, x, x);
  }

  lemma {:induction false} TimesTimes<G(!new)>(g: Group<G>, k: int, l: int, x: G)
    requires Abelian(g)
    ensures Times(g, k, Times(g, l, x)) == Times(g, k * l, x)
    decreases if k < 0 then 1 - k else k
  {
    if k < 0 {
      TimesTimes(g, -k, l, x);
      NegMul(k, l);
      TimesNeg(g, k * l, x);
      TimesNeg(g, k, Times(g, l, x));
      TimesNeg(g, -k, Times(g, l, x));
      TimesNeg(g, (-k) * l, x);
    } else if k > 0 {
      TimesTimes(g, k - 1, l, x);
      Distrib(k, 1, l);
      TimesAdd(g, l, (k - 1) * l, x);
    }
  }

  /** A point annihilated by `order` is multiplied by residues. */
  lemma TimesPeriod<G(!new)>(g: Group<G>, order: int, k: int, l: int, x: G)
    requires Abelian(g) && order > 0 && Times(g, order, x) == g.zero && k % order == l % order
    ensures Times(g, k, x) == Times(g, l, x)
  {
    var m := CongElim(k, l, order);
    TimesAdd(g, l, m * order, x);
    TimesTimes(g, m, order, x);
    TimesZero(g, m);
    Laws(g, Times(g, l, x), g.zero, g.zero);
  }

  lemma {:induction false} TimesZero<G(!new)>(g: Group<G>, k: int)
    requires Abelian(g)
    ensures Times(g, k, g.zero) == g.zero
    decreases if k < 0 then 1 - k else k
  {
    if k < 0 {
      TimesZero(g, -k);
      NegZero(g);
    } else if k > 0 {
      TimesZero(g, k - 1);
      Laws(g, g.zero, g.zero, g.zero);
    }
  }
}
