/** Interleaved double-and-add over several recoded scalars. */
module EcMultiply {
  import opened Digits
  import opened PointGroup
  import opened Wnaf

  const WINDOW_A: nat := 5
  const WINDOW_G: nat := 10

  /** A recoded scalar, its number of significant digits, and the odd multiples of its point. */
  datatype Stream<!G(!new)> = Stream(digits: seq<int>, bits: int, table: seq<G>)

  /** The number the digits from `i` on stand for, in units of `2^i`. */
  ghost function Suffix(d: seq<int>, i: nat): (r: int)
    requires i <= |d|
    decreases |d| - i
  {
    if i == |d| then 0 else d[i] + 2 * Suffix(d, i + 1)
  }

  lemma {:induction false} SuffixSum(d: seq<int>, i: nat)
    requires i <= |d|
    ensures DigitSum(d, i) + Suffix(d, i) * Pow(2, i) == DigitSum(d, |d|)
    decreases |d| - i
  {
    if i < |d| {
      SuffixSum(d, i + 1);
      PowEven(i + 1);
      Distrib(d[i], 2 * Suffix(d, i + 1), Pow(2, i));
      Assoc(Suffix(d, i + 1), 2, Pow(2, i));
    }
  }

  lemma {:induction false} SuffixZero(d: seq<int>, i: nat)
    requires i <= |d| && forall k :: i <= k < |d| ==> d[k] == 0
    ensures Suffix(d, i) == 0
    decreases |d| - i
  {
    if i < |d| { SuffixZero(d, i + 1); }
  }

  /** Entry `i` holds the `(2i+1)`-fold of `x`, for every odd digit of the window. */
  ghost predicate OddTable<G(!new)>(g: Group<G>, t: seq<G>, w: nat, x: G) {
    w >= 2 && |t| == Pow(2, w - 2) && forall i :: 0 <= i < |t| ==> t[i] == Times(g, 2 * i + 1, x)
  }

  /** The stream adds up to `n` times `x`. */
  ghost predicate Carries<G(!new)>(g: Group<G>, st: Stream<G>, w: nat, n: int, x: G) {
    && w >= 2 && IsWnaf(st.digits, w) && st.bits <= |st.digits|
    && (forall i :: 0 <= i < |st.digits| && st.bits <= i ==> st.digits[i] == 0)
    && (st.bits > 0 ==> OddTable(g, st.table, w, x))
    && Times(g, Suffix(st.digits, 0), x) == Times(g, n, x)
  }

  /** `OddMultiplesTable::from` */
  method OddMultiples<G(!new)>(g: Group<G>, x: G, w: nat) returns (table: array<G>)
    requires Abelian(g) && w >= 2
    ensures OddTable(g, table[..], w, x)
  {
    var p := x;
    table := new G[Pow(2, w - 2)](_ => x);
    var double := g.add(p, p);
    TimesOne(g, x);
    TimesAdd(g, 1, 1, x);
    for i := 1 to table.Length
      invariant p == Times(g, 2 * i - 1, x)
      invariant forall k :: 0 <= k < i ==> table[k] == Times(g, 2 * k + 1, x)
    {
      TimesAdd(g, 2 * i - 1, 2, x);
      p := g.add(p, double);
      table[i] := p;
    }
  }

  /** `get`, `table_get_ge`: a signed odd digit selects its multiple, always within the table. */
  method Lookup<G(!new)>(g: Group<G>, table: seq<G>, n: int, ghost w: nat, ghost x: G) returns (r: G)
    requires Abelian(g) && OddTable(g, table, w, x) && OddBelow(n, Pow(2, w - 1))
    ensures r == Times(g, n, x)
  {
    PowEven(w - 1);
    TimesNeg(g, -n, x);
    if n > 0 {
      r := table[(n - 1) / 2];
    } else {
      r := g.neg(table[(-n - 1) / 2]);
    }
  }

  /** One stream's share of a round: `get_digit`, then an addition. */
  method AddDigit<G(!new)>(g: Group<G>, r: G, st: Stream<G>, i: nat, ghost w: nat, ghost n: int, ghost x: G)
    returns (r': G)
    requires Abelian(g) && Carries(g, st, w, n, x) && i < |st.digits|
    ensures r' == g.add(r, Times(g, st.digits[i], x))
  {
    r' := r;
    Laws(g, r, r, r);
    if i < st.bits && st.digits[i] != 0 {
      var p := Lookup(g, st.table, st.digits[i], w, x);
      r' := g.add(r, p);
    }
  }

  //// Linear combinations of points

  ghost function Combo<G(!new)>(g: Group<G>, c: seq<int>, x: seq<G>): (r: G)
    requires |c| == |x|
  {
    if |c| == 0 then g.zero else g.add(Combo(g, c[..|c| - 1], x[..|x| - 1]), Times(g, c[|c| - 1], x[|x| - 1]))
  }

  ghost function Doubled(c: seq<int>): (r: seq<int>) {
    seq(|c|, i requires 0 <= i < |c| => 2 * c[i])
  }

  lemma {:induction false} ComboDouble<G(!new)>(g: Group<G>, c: seq<int>, x: seq<G>)
    requires Abelian(g) && |c| == |x|
    ensures Combo(g, Doubled(c), x) == g.add(Combo(g, c, x), Combo(g, c, x))
  {
    if |c| == 0 {
      Laws(g, g.zero, g.zero, g.zero);
    } else {
      var n := |c| - 1;
      ComboDouble(g, c[..n], x[..n]);
      assert Doubled(c)[..n] == Doubled(c[..n]);
      TimesAdd(g, c[n], c[n], x[n]);
      var u, t := Combo(g, c[..n], x[..n]), Times(g, c[n], x[n]);
      Interchange(g, u, t, u, t);
    }
  }

  /** Adding `d` times point `j` bumps coefficient `j`. */
  lemma {:induction false} ComboBump<G(!new)>(g: Group<G>, c: seq<int>, x: seq<G>, j: nat, d: int)
    requires Abelian(g) && |c| == |x| && j < |c|
    ensures Combo(g, c[j := c[j] + d], x) == g.add(Combo(g, c, x), Times(g, d, x[j]))
  {
    var n := |c| - 1;
    var u, t := Combo(g, c[..n], x[..n]), Times(g, c[n], x[n]);
    var e := c[j := c[j] + d];
    if j == n {
      assert e[..n] == c[..n];
      TimesAdd(g, c[n], d, x[n]);
      Laws(g, u, t, Times(g, d, x[n]));
    } else {
      ComboBump(g, c[..n], x[..n], j, d);
      assert e[..n] == c[..n][j := c[j] + d];
      var v := Times(g, d, x[j]);
      Laws(g, u, v, t);
      Laws(g, v, t, t);
      Laws(g, u, t, v);
    }
  }

  lemma {:induction false} ComboSame<G(!new)>(g: Group<G>, c: seq<int>, e: seq<int>, x: seq<G>)
    requires |c| == |e| == |x| && forall i :: 0 <= i < |c| ==> Times(g, c[i], x[i]) == Times(g, e[i], x[i])
    ensures Combo(g, c, x) == Combo(g, e, x)
  {
    if |c| > 0 {
      var n := |c| - 1;
      ComboSame(g, c[..n], e[..n], x[..n]);
    }
  }

  //// Rounds

  /** The coefficients of a round, and what doubling and adding digit `i` of every stream makes of them. */
  ghost function Coefficients(ds: seq<seq<int>>, i: nat): (c: seq<int>)
    requires forall k :: 0 <= k < |ds| ==> i <= |ds[k]|
  {
    seq(|ds|, k requires 0 <= k < |ds| => Suffix(ds[k], i))
  }

  /** The coefficients after doubling, with digit `i` added for the first `n` streams. */
  ghost function Partial(ds: seq<seq<int>>, i: nat, n: nat): (c: seq<int>)
    requires n <= |ds| && forall k :: 0 <= k < |ds| ==> i < |ds[k]|
  {
    seq(|ds|, k requires 0 <= k < |ds| => 2 * Suffix(ds[k], i + 1) + if k < n then ds[k][i] else 0)
  }

  lemma RoundStart<G(!new)>(g: Group<G>, ds: seq<seq<int>>, x: seq<G>, i: nat)
    requires Abelian(g) && |ds| == |x| && forall k :: 0 <= k < |ds| ==> i < |ds[k]|
    ensures var r := Combo(g, Coefficients(ds, i + 1), x);
      g.add(r, r) == Combo(g, Partial(ds, i, 0), x)
    ensures Partial(ds, i, |ds|) == Coefficients(ds, i)
  {
    ComboDouble(g, Coefficients(ds, i + 1), x);
    assert Doubled(Coefficients(ds, i + 1)) == Partial(ds, i, 0);
  }

  lemma RoundAdd<G(!new)>(g: Group<G>, ds: seq<seq<int>>, x: seq<G>, i: nat, n: nat)
    requires Abelian(g) && n < |ds| == |x| && forall k :: 0 <= k < |ds| ==> i < |ds[k]|
    ensures g.add(Combo(g, Partial(ds, i, n), x), Times(g, ds[n][i], x[n])) == Combo(g, Partial(ds, i, n + 1), x)
  {
    var c := Partial(ds, i, n);
    ComboBump(g, c, x, n, ds[n][i]);
    assert c[n := c[n] + ds[n][i]] == Partial(ds, i, n + 1);
  }

  lemma {:induction false} ComboZero<G(!new)>(g: Group<G>, ds: seq<seq<int>>, x: seq<G>, i: nat)
    requires Abelian(g) && |ds| == |x| && forall k :: 0 <= k < |ds| ==> i <= |ds[k]|
    requires forall k, j :: 0 <= k < |ds| && i <= j < |ds[k]| ==> ds[k][j] == 0
    ensures Combo(g, Coefficients(ds, i), x) == g.zero
  {
    if |ds| > 0 {
      var n := |ds| - 1;
      assert Coefficients(ds, i)[..n] == Coefficients(ds[..n], i);
      ComboZero(g, ds[..n], x[..n], i);
      SuffixZero(ds[n], i);
      Laws(g, g.zero, g.zero, g.zero);
    }
  }

  //// The two-stream multiplication

  /** The negated or plain scalar that is recoded leaves the top digit free. */
  ghost predicate Short(s: nat, order: nat, top: nat, len: nat) {
    len > 0 && s < order && (if Bits(s, top, 1) > 0 then order - s else s) < Pow(2, len - 1)
  }

  /** Every scalar below an order of `top + 1` bits is short for `top + 1` digits. */
  lemma FullLength(s: nat, order: nat, top: nat)
    requires s < order < Pow(2, top + 1)
    ensures Short(s, order, top, top + 1)
  {
    PowEven(top + 1);
    BitsExtend(s, top, 1);
    ModSmall(s, Pow(2, top + 1));
    DivModDef(s, Pow(2, top));
    PowOne(2);
  }

  /** A stream of a nonzero scalar. */
  method NewDigits(s: nat, order: nat, top: nat, len: nat, w: nat) returns (digits: seq<int>, bits: int)
    requires 2 <= w <= 31 && Short(s, order, top, len)
    ensures |digits| == len && IsWnaf(digits, w) && bits <= len
    ensures forall i :: 0 <= i < len && bits <= i ==> digits[i] == 0
    ensures Suffix(digits, 0) % order == s % order
  {
    var wnaf := new int[len](_ => 0);
    ghost var carry;
    bits, carry := Recode(wnaf, s, order, top, w);
    digits := wnaf[..];
    SuffixSum(digits, 0);
    if Bits(s, top, 1) > 0 { CongIntro(Suffix(digits, 0), s, -1, order); }
  }

  /** `Wnaf::default`: no digits, for a scalar that contributes nothing. */
  method Silent<G(!new)>(g: Group<G>, len: nat, w: nat, n: int, x: G) returns (st: Stream<G>)
    requires Abelian(g) && w >= 2 && (n == 0 || x == g.zero)
    ensures Carries(g, st, w, n, x) && |st.digits| == len && st.bits <= 0
  {
    st := Stream(seq(len, _ => 0), -1, []);
    SuffixZero(st.digits, 0);
    TimesZero(g, n);
  }

  method Speaking<G(!new)>(g: Group<G>, s: nat, order: nat, top: nat, len: nat, w: nat, table: seq<G>, ghost x: G)
    returns (st: Stream<G>)
    requires Abelian(g) && 2 <= w <= 31 && Short(s, order, top, len)
    requires Times(g, order, x) == g.zero && OddTable(g, table, w, x)
    ensures Carries(g, st, w, s, x) && |st.digits| == len
  {
    var digits, bits := NewDigits(s, order, top, len, w);
    st := Stream(digits, bits, table);
    TimesPeriod(g, order, Suffix(digits, 0), s, x);
  }

  /** `ecmult` over two streams of full length. */
  method EcMultR1<G(==,!new)>(g: Group<G>, order: nat, top: nat, a: G, na: nat, ng: nat, tableG: seq<G>, ghost gen: G)
    returns (r: G)
    requires Abelian(g) && na < order && ng < order < Pow(2, top + 1)
    requires Times(g, order, a) == g.zero && Times(g, order, gen) == g.zero && OddTable(g, tableG, WINDOW_G, gen)
    ensures r == g.add(Times(g, na, a), Times(g, ng, gen))
  {
    var sa: Stream<G>, sg: Stream<G>;
    if na != 0 && a != g.zero {
      FullLength(na, order, top);
      var table := OddMultiples(g, a, WINDOW_A);
      sa := Speaking(g, na, order, top, top + 1, WINDOW_A, table[..], a);
    } else {
      sa := Silent(g, top + 1, WINDOW_A, na, a);
    }
    if ng != 0 {
      FullLength(ng, order, top);
      sg := Speaking(g, ng, order, top, top + 1, WINDOW_G, tableG, gen);
    } else {
      sg := Silent(g, top + 1, WINDOW_G, 0, g.zero);
      TimesZero(g, 0);
      SilentFor(g, sg, WINDOW_G, gen);
    }
    r := TwoStreams(g, sa, na, a, sg, ng, gen);
  }

  /** A stream without digits carries zero times any point. */
  lemma SilentFor<G(!new)>(g: Group<G>, st: Stream<G>, w: nat, x: G)
    requires Abelian(g) && Carries(g, st, w, 0, g.zero) && st.bits <= 0
    ensures Carries(g, st, w, 0, x)
  {
    SuffixZero(st.digits, 0);
  }

  method TwoStreams<G(!new)>(g: Group<G>, sa: Stream<G>, ghost na: int, ghost a: G, sg: Stream<G>, ghost ng: int,
                      ghost gen: G)
    returns (r: G)
    requires Abelian(g) && Carries(g, sa, WINDOW_A, na, a) && Carries(g, sg, WINDOW_G, ng, gen)
    requires |sa.digits| == |sg.digits|
    ensures r == g.add(Times(g, na, a), Times(g, ng, gen))
  {
    ghost var ds, xs := [sa.digits, sg.digits], [a, gen];
    var bits := if sa.bits > sg.bits then sa.bits else sg.bits;
    r := g.zero;
    var i := if bits > 0 then bits else 0;
    ComboZero(g, ds, xs, i);
    while i > 0
      invariant 0 <= i <= |sa.digits|
      invariant r == Combo(g, Coefficients(ds, i), xs)
    {
      i := i - 1;
      RoundStart(g, ds, xs, i);
      r := g.add(r, r);
      RoundAdd(g, ds, xs, i, 0);
      r := AddDigit(g, r, sa, i, WINDOW_A, na, a);
      RoundAdd(g, ds, xs, i, 1);
      r := AddDigit(g, r, sg, i, WINDOW_G, ng, gen);
    }
    ComboSame(g, Coefficients(ds, 0), [na, ng], xs);
    ComboTwo(g, na, ng, a, gen);
  }

  lemma ComboTwo<G(!new)>(g: Group<G>, u: int, v: int, x: G, y: G)
    requires Abelian(g)
    ensures Combo(g, [u, v], [x, y]) == g.add(Times(g, u, x), Times(g, v, y))
  {
    assert [u, v][..1] == [u] && [x, y][..1] == [x];
    assert [u][..0] == [] && [x][..0] == [];
    assert Combo(g, [u], [x]) == g.add(g.zero, Times(g, u, x));
    Laws(g, Times(g, u, x), g.zero, g.zero);
  }
}
