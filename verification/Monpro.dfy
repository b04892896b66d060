/** Coarsely integrated operand scanning: the Montgomery product `x * y * b^-s mod n`. */
module Montgomery {
  import opened Digits
  import opened Words
  import opened Rows

  /** `np` is the negated inverse of the modulus' low word. */
  predicate IsNegInverse(b: nat, n0: nat, np: nat)
    requires b > 0
  {
    np < b && (n0 * np + 1) % b == 0
  }

  /** The word `m = t0 * np mod b` clears the low word of `t0 + m * n0`. */
  lemma ClearsLowWord(b: nat, n0: nat, np: nat, t0: nat)
    requires b > 0 && IsNegInverse(b, n0, np)
    ensures (t0 + ((t0 * np) % b) * n0) % b == 0
  {
    ModMod(t0 * np, b);
    CongMul((t0 * np) % b, t0 * np, n0, n0, b);
    CongAdd(t0, t0, ((t0 * np) % b) * n0, (t0 * np) * n0, b);
    CongMul(t0, t0, n0 * np + 1, 0, b);
    calc {
      t0 + (t0 * np) * n0;
      { Assoc(t0, np, n0); assert np * n0 == n0 * np; }
      t0 + t0 * (n0 * np);
      { Distrib(n0 * np, 1, t0); }
      t0 * (n0 * np + 1);
    }
    assert t0 * 0 == 0;
  }

  /** First half of an outer iteration: adds `x * d` to the accumulator held in words `0..s`,
      leaving the result in words `0..s+1`. */
  method MulAddRow(b: nat, x: seq<nat>, d: nat, s: nat, out: array<nat>)
    requires b >= 2 && d < b && IsDigits(b, x) && out.Length == s + 2 && IsDigits(b, out[..])
    modifies out
    ensures IsDigits(b, out[..])
    ensures Val(b, out[..], s + 2) == old(Val(b, out[..], s + 1)) + Val(b, x, s) * d
  {
    ghost var before := out[..];
    var c := MulRowAt(b, x, s, d, 0, out);
    ghost var prev := out[..];
    assert Val(b, prev, s + 1) + c * Pow(b, s) == Val(b, before, s + 1) + Val(b, x, s) * d by {
      AtZero(b, d, Val(b, x, s));
      StaleTop(b, before, prev, s);
    }
    var (sum, carry) := CarryingAdd(b, out[s], c, false);
    out[s] := sum;
    out[s + 1] := Bit(carry);
    TopWords(b, prev, out[..], s, c, carry);
  }

  lemma AtZero(b: nat, d: int, v: int)
    ensures (d * Pow(b, 0)) * v == v * d
  {}

  lemma StaleTop(b: nat, u: seq<nat>, v: seq<nat>, s: nat)
    requires |u| == |v| == s + 2 && u[s + 1] == v[s + 1]
    ensures Num(b, u) - Num(b, v) == Val(b, u, s + 1) - Val(b, v, s + 1)
  {}

  lemma TopWords(b: nat, u: seq<nat>, v: seq<nat>, s: nat, c: nat, carry: bool)
    requires |u| == |v| == s + 2 && forall i :: 0 <= i < s ==> u[i] == v[i]
    requires v[s] + (if carry then b else 0) == u[s] + c && v[s + 1] == Bit(carry)
    ensures Val(b, v, s + 2) == Val(b, u, s + 1) + c * Pow(b, s)
  {
    ValSame(b, u, v, s);
    AddStep(b, u[s], c, v[s], carry, Pow(b, s));
  }

  /** Second half of an outer iteration: adds `m * n`, whose low word cancels, and shifts down one word. */
  method ReduceRow(b: nat, n: seq<nat>, m: nat, s: nat, out: array<nat>)
    requires b >= 2 && m < b && IsDigits(b, n) && out.Length == s + 2 && IsDigits(b, out[..]) && s > 0
    requires (out[0] + m * Get(n, 0)) % b == 0
    requires Val(b, out[..], s + 2) + m * Val(b, n, s) < b * Pow(b, s + 1)
    modifies out
    ensures IsDigits(b, out[..])
    ensures Val(b, out[..], s + 1) * b == old(Val(b, out[..], s + 2)) + m * Val(b, n, s)
  {
    ghost var before := out[..];
    var c := ReduceLoop(b, n, m, s, out);
    var (sum, carry) := CarryingAdd(b, out[s], c, false);
    ghost var prev := out[..];
    out[s - 1] := sum;
    ghost var mid := out[..];
    out[s] := out[s + 1] + Bit(carry); // overflow impossible at this stage
    assert mid == prev[s - 1 := sum] && out[..] == mid[s := out[s]];
    ValSet(b, prev, s - 1, sum, s - 1);
    ValSet(b, mid, s, out[s], s);
    TopStep(b, Val(b, prev, s - 1), before[s], before[s + 1], sum, carry, c, Pow(b, s - 1));
    NoOverflow(b, Val(b, out[..], s + 1), s, out[s], Val(b, out[..], s));
  }

  /** The words below the top of a reduction row, each stored one place lower. */
  method ReduceLoop(b: nat, n: seq<nat>, m: nat, s: nat, out: array<nat>) returns (c: nat)
    requires b >= 2 && m < b && IsDigits(b, n) && out.Length == s + 2 && IsDigits(b, out[..]) && s > 0
    requires (out[0] + m * Get(n, 0)) % b == 0
    modifies out
    ensures c < b && IsDigits(b, out[..]) && out[s] == old(out[s]) && out[s + 1] == old(out[s + 1])
    ensures Val(b, out[..], s - 1) * b + c * Pow(b, s) == old(Val(b, out[..], s)) + m * Val(b, n, s)
  {
    ghost var before := out[..];
    var (low, c0) := ShiftedCarryingMul(b, out[0], m, Get(n, 0), 0);
    DivModUnique(out[0] + m * Get(n, 0), b, c0, low);
    c := c0;
    assert Val(b, before, 1) == before[0] && Val(b, n, 1) == Get(n, 0);
    var j := 1;
    while j < s
      invariant 1 <= j <= s && c < b && IsDigits(b, out[..])
      invariant forall l :: j <= l < s + 2 ==> out[l] == before[l]
      invariant Val(b, out[..], j - 1) * b + c * Pow(b, j) == Val(b, before, j) + m * Val(b, n, j)
    {
      var (prod, carry) := ShiftedCarryingMul(b, out[j], m, Get(n, j), c);
      ghost var prev := out[..];
      out[j - 1] := prod;
      ReduceStep(b, n, m, before, prev, out[..], j, prod, c, carry);
      c := carry;
      j := j + 1;
    }
  }

  lemma ReduceStep(b: nat, n: seq<nat>, m: nat, before: seq<nat>, prev: seq<nat>, now: seq<nat>, j: nat, prod: nat,
                   c: nat, carry: nat)
    requires 1 <= j < |prev| == |before| && now == prev[j - 1 := prod]
    requires prod + b * carry == before[j] + m * Get(n, j) + c
    requires Val(b, prev, j - 1) * b + c * Pow(b, j) == Val(b, before, j) + m * Val(b, n, j)
    ensures Val(b, now, j) * b + carry * Pow(b, j + 1) == Val(b, before, j + 1) + m * Val(b, n, j + 1)
  {
    ShiftStep(b, before[j], prod, m, Get(n, j), c, carry, Pow(b, j - 1));
    Distrib(Val(b, n, j), Get(n, j) * Pow(b, j), m);
    Distrib(Val(b, prev, j - 1), prod * Pow(b, j - 1), b);
    ValSet(b, prev, j - 1, prod, j - 1);
  }

  lemma ShiftStep(b: nat, o: int, o': int, m: int, n: int, c: int, c': int, p: int)
    requires o' + b * c' == o + m * n + c
    ensures (o' * p) * b + c' * (b * (b * p)) == o * (b * p) + m * (n * (b * p)) + c * (b * p)
  {
    RowStep(b, o, o', n, m, c, c', b * p);
    assert (o' - o) * (b * p) == o' * (b * p) - o * (b * p) by { Distrib(o', o, b * p); }
    assert o' * (b * p) == (o' * p) * b by { Swap(o', b, p); }
    assert (n * (b * p)) * m == m * (n * (b * p));
  }

  lemma TopStep(b: nat, v: int, o: int, o1: int, sum: int, carry: bool, c: int, p: int)
    requires sum + (if carry then b else 0) == o + c
    ensures (v + sum * p + (o1 + Bit(carry)) * (b * p)) * b
         == v * b + c * (b * p) + o * (b * p) + o1 * (b * (b * p))
  {
    var q := b * p;
    AddStep(b, o, c, sum, carry, q);
    Distrib(v + sum * p, (o1 + Bit(carry)) * q, b);
    Distrib(v, sum * p, b);
    Distrib(o1, Bit(carry), q);
    Distrib(o1 * q, Bit(carry) * q, b);
    assert (sum * p) * b == sum * q by { Swap(sum, b, p); }
    assert (o1 * q) * b == o1 * (b * q) by { Swap(o1, b, q); }
    assert (Bit(carry) * q) * b == Bit(carry) * (b * q) by { Swap(Bit(carry), b, q); }
  }

  lemma NoOverflow(b: nat, v: nat, s: nat, top: nat, low: nat)
    requires b > 0 && v == low + top * Pow(b, s) && v * b < b * Pow(b, s + 1)
    ensures top < b
  {
    MulCancelLt(v, Pow(b, s + 1), b);
    if top >= b { MulMono(b, top, Pow(b, s)); }
  }

  /** The final step shared by `monpro` and `monsq`: one conditional subtraction of the modulus. */
  method FinalSubtraction(b: nat, n: seq<nat>, s: nat, out: array<nat>)
    requires b >= 2 && |n| <= s < out.Length && IsDigits(b, n) && IsDigits(b, out[..])
    requires Val(b, out[..], s + 1) < 2 * Num(b, n)
    modifies out
    ensures IsDigits(b, out[..])
    ensures forall i :: s + 1 <= i < out.Length ==> out[i] == old(out[i])
    ensures Val(b, out[..], s + 1) == old(Val(b, out[..], s + 1)) % Num(b, n)
  {
    ghost var N := Num(b, n);
    ghost var v := Val(b, out[..], s + 1);
    ValPad(b, n, s);
    ValPad(b, n, s + 1);
    var less := DigitsLess(b, out, n, s + 1);
    if less {
      ModSmall(v, N);
      return;
    }
    var borrow := SubtractInPlace(b, out, n, s + 1);
    ValBound(b, out[..], s + 1);
    DivModUnique(v, N, 1, v - N);
  }

  /** Accumulator bound: if `v < n + x` then `(v + x*d + m*n) / b < n + x` again. */
  lemma BoundStep(b: nat, v: nat, x: nat, d: nat, m: nat, n: nat, v': nat)
    requires v < n + x && d < b && m < b && v' * b == v + x * d + m * n
    ensures v' < n + x
    ensures v + x * d + m * n < b * (n + x)
  {
    MulMono(d, b - 1, x);
    MulMono(m, b - 1, n);
    Distrib(b - 1, 1, n + x);
    Distrib(n, x, b - 1);
    MulCancelLt(v', n + x, b);
  }

  /** Exactness of one outer iteration: `V_i * b^i = X * Y_i + M_i * N` is carried to `i + 1`. */
  lemma OuterStep(b: nat, v: int, v': int, x: int, yi: int, d: int, m: int, mi: int, n: int, p: int)
    requires v * p == x * yi + mi * n && v' * b == v + x * d + m * n
    ensures v' * (b * p) == x * (yi + d * p) + (mi + m * p) * n
  {
    calc {
      v' * (b * p);
      { Assoc(v', b, p); }
      (v' * b) * p;
      { Distrib(v + x * d, m * n, p); Distrib(v, x * d, p); }
      v * p + (x * d) * p + (m * n) * p;
      { Assoc(x, d, p); Assoc(m, n, p); Swap(m, n, p); }
      x * yi + mi * n + x * (d * p) + n * (m * p);
      { Distrib(yi, d * p, x); Distrib(mi, m * p, n); }
      x * (yi + d * p) + (mi + m * p) * n;
    }
  }

  /** From exactness and the input bound: the accumulator is below `2n` and congruent to the product. */
  lemma Finish(v: nat, r: nat, xy: nat, m: nat, n: nat)
    requires n > 0 && r > 0 && v * r == xy + m * n && m < r && xy < r * n
    ensures v < 2 * n
    ensures ((v % n) * r) % n == xy % n
  {
    MulMono(m, r, n);
    Distrib(n, n, r);
    MulCancelLt(v, 2 * n, r);
    ModMod(v, n);
    CongMul(v % n, v, r, r, n);
    CongIntro(v * r, xy, m, n);
  }

  /** `monpro`: for any modulus with an inverse constant and any operands with `x*y < b^s * n`,
      the low words of `out` hold the fully reduced Montgomery product. */
  method Monpro(b: nat, x: seq<nat>, y: seq<nat>, n: seq<nat>, nPrime: nat, out: array<nat>)
    requires b >= 2 && IsDigits(b, x) && IsDigits(b, y) && IsDigits(b, n)
    requires |n| > 0 && IsNegInverse(b, n[0], nPrime)
    requires out.Length >= |n| + 2 && forall i :: 0 <= i < out.Length ==> out[i] == 0
    requires Val(b, x, out.Length - 2) * Val(b, y, out.Length - 2) < Pow(b, out.Length - 2) * Num(b, n)
    modifies out
    ensures IsDigits(b, out[..])
    ensures Num(b, out[..]) < Num(b, n)
    ensures (Num(b, out[..]) * Pow(b, out.Length - 2)) % Num(b, n)
         == (Val(b, x, out.Length - 2) * Val(b, y, out.Length - 2)) % Num(b, n)
  {
    var s := out.Length - 2;
    ghost var R, XY, N := Pow(b, s), Val(b, x, s) * Val(b, y, s), Num(b, n);
    PositiveFactor(XY, R, N);
    ghost var M := Accumulate(b, x, y, n, nPrime, s, out);
    Finish(Val(b, out[..], s + 1), R, XY, M, N);
    ghost var mid := out[..];
    out[s + 1] := 0;
    ValSame(b, mid, out[..], s + 1);
    FinalSubtraction(b, n, s, out);
    FinishTop(b, out[..], s);
  }

  lemma PositiveFactor(z: nat, r: int, n: nat)
    requires z < r * n
    ensures n > 0
  {}

  /** The `s` outer iterations. The returned ghost `M` is the number assembled from the words `m`. */
  method Accumulate(b: nat, x: seq<nat>, y: seq<nat>, n: seq<nat>, nPrime: nat, s: nat, out: array<nat>)
    returns (ghost M: nat)
    requires b >= 2 && IsDigits(b, x) && IsDigits(b, y) && IsDigits(b, n)
    requires 0 < |n| <= s && IsNegInverse(b, n[0], nPrime) && Num(b, n) > 0
    requires out.Length == s + 2 && forall i :: 0 <= i < out.Length ==> out[i] == 0
    modifies out
    ensures IsDigits(b, out[..]) && M < Pow(b, s)
    ensures Val(b, out[..], s + 1) * Pow(b, s) == Val(b, x, s) * Val(b, y, s) + M * Num(b, n)
  {
    M := 0;
    ValZero(b, out[..], s + 1);
    var i := 0;
    while i < s
      invariant i <= s && IsDigits(b, out[..])
      invariant M < Pow(b, i)
      invariant Val(b, out[..], s + 1) < Num(b, n) + Val(b, x, s)
      invariant Val(b, out[..], s + 1) * Pow(b, i) == Val(b, x, s) * Val(b, y, i) + M * Num(b, n)
    {
      M := OuterIteration(b, x, Get(y, i), n, nPrime, s, out, i, Val(b, y, i), M);
      i := i + 1;
    }
  }

  /** Clearing the top word does not disturb the words below, and makes them the whole value. */
  lemma FinishTop(b: nat, s: seq<nat>, k: nat)
    requires |s| == k + 2 && s[k + 1] == 0
    ensures Num(b, s) == Val(b, s, k + 1)
  {}

  method OuterIteration(b: nat, x: seq<nat>, d: nat, n: seq<nat>, nPrime: nat, s: nat, out: array<nat>, ghost i: nat,
                        ghost yi: nat, ghost mi: nat)
    returns (ghost mi': nat)
    requires b >= 2 && d < b && IsDigits(b, x) && IsDigits(b, n) && IsDigits(b, out[..])
    requires 0 < |n| <= s && IsNegInverse(b, n[0], nPrime) && out.Length == s + 2
    requires mi < Pow(b, i)
    requires Val(b, out[..], s + 1) < Num(b, n) + Val(b, x, s)
    requires Val(b, out[..], s + 1) * Pow(b, i) == Val(b, x, s) * yi + mi * Num(b, n)
    modifies out
    ensures IsDigits(b, out[..])
    ensures mi' < Pow(b, i + 1)
    ensures Val(b, out[..], s + 1) < Num(b, n) + Val(b, x, s)
    ensures Val(b, out[..], s + 1) * Pow(b, i + 1) == Val(b, x, s) * (yi + d * Pow(b, i)) + mi' * Num(b, n)
  {
    ghost var v := Val(b, out[..], s + 1);
    ghost var X, N := Val(b, x, s), Num(b, n);
    ValPad(b, n, s);
    ValBound(b, x, s);
    ValBound(b, n, s);
    MulAddRow(b, x, d, s, out);
    var m := (out[0] * nPrime) % b;
    ClearsLowWord(b, n[0], nPrime, out[0]);
    assert v + X * d + m * N < b * Pow(b, s + 1) by { RoomForRow(b, v, X, d, m, N, Pow(b, s)); }
    ReduceRow(b, n, m, s, out);
    ghost var v' := Val(b, out[..], s + 1);
    BoundStep(b, v, X, d, m, N, v');
    OuterStep(b, v, v', X, yi, d, m, mi, N, Pow(b, i));
    mi' := mi + m * Pow(b, i);
    MulMono(m, b - 1, Pow(b, i));
    Distrib(b, 1, Pow(b, i));
  }

  lemma RoomForRow(b: nat, v: nat, x: nat, d: nat, m: nat, n: nat, p: nat)
    requires b >= 2 && v < n + x && d < b && m < b && x < p && n < p
    ensures v + x * d + m * n < b * (b * p)
  {
    MulMono(d, b - 1, x);
    MulMono(m, b - 1, n);
    Distrib(b - 1, 1, n + x);
    Distrib(n, x, b - 1);
    MulMonoStrict(n + x, 2 * p, b);
    MulMono(2 * p, b * p, b);
  }
}
