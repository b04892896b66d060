/** Squaring by rows of doubled cross products, and Montgomery squaring built on it. */
module MontgomerySquare {
  import opened Digits
  import opened Words
  import opened Rows
  import opened Montgomery

  /** One cross-product step of the source: `2*x*y + o + c` in wrapping double words,
      each wrap recorded as one extra `b` in the next carry. */
  function DoubledStep(b: nat, x: nat, y: nat, o: nat, c: nat): (r: (nat, nat))
    requires b >= 4 && x < b && y < b && o < b && c < 2 * b
    ensures r.0 < b && r.1 < 2 * b
    ensures r.0 + b * r.1 == 2 * (x * y) + o + c
  {
    WideBound(b, 0, x, y, 0);
    DoubledBound(b, x, y, o, c);
    var p, bb := x * y, b * b;
    var (r1, f1) := OverflowingAdd(bb, p, p);
    var (r2, f2) := OverflowingAdd(bb, o, r1);
    var (r3, f3) := OverflowingAdd(bb, r2, c);
    DoubledCarry(b, bb, 2 * p + o + c, r3, Bit(f1) + Bit(f2) + Bit(f3));
    (r3 % b, (Bit(f1) + Bit(f2) + Bit(f3)) * b + r3 / b)
  }

  lemma DoubledCarry(b: nat, bb: nat, t: nat, r: nat, k: nat)
    requires b > 0 && bb == b * b && k <= 3 && t < 2 * bb
    requires r + (if k == 0 then 0 else if k == 1 then bb else if k == 2 then 2 * bb else 3 * bb) == t
    ensures 0 <= r / b && 0 <= r % b < b && 0 <= k * b + r / b < 2 * b
    ensures r % b + b * (k * b + r / b) == t
  {
    MulPos(k, b);
    DivModDef(r, b);
    assert k * bb == t - r;
    Distrib(k * b, r / b, b);
    Assoc(k, b, b);
    Assoc(2, b, b);
    MulCancelLt(k * b + r / b, 2 * b, b);
  }

  lemma DoubledBound(b: nat, x: nat, y: nat, o: nat, c: nat)
    requires b >= 4 && x < b && y < b && o < b && c < 2 * b
    ensures 2 * (x * y) + o + c < 2 * (b * b) && 2 * b <= b * b
  {
    assert x * y <= (b - 1) * (b - 1) by { MulMono(x, b - 1, y); MulMono(y, b - 1, b - 1); }
    assert (b - 1) * (b - 1) == b * b - 2 * b + 1 by { Distrib(b, 1, b - 1); Distrib(b, 1, b); }
    MulMono(4, b, b);
  }

  /** Row `i` of the square, inner loop: after digit `j`, the accumulator has grown by
      `2 * x_i * b^i * (x_{i+1} b^{i+1} + ... + x_{j-1} b^{j-1})`, less the pending carry. */
  method CrossRow(b: nat, x: seq<nat>, i: nat, c0: nat, out: array<nat>) returns (c: nat)
    requires b >= 4 && i < |x| && c0 < b && IsDigits(b, x) && IsDigits(b, out[..]) && out.Length > 2 * |x|
    modifies out
    ensures IsDigits(b, out[..]) && c < 2 * b
    ensures forall l :: i + |x| <= l < out.Length ==> out[l] == old(out[l])
    ensures Num(b, out[..]) + c * Pow(b, i + |x|)
         == old(Num(b, out[..])) + c0 * Pow(b, 2 * i + 1) + 2 * ((x[i] * Pow(b, i)) * (Num(b, x) - Val(b, x, i + 1)))
  {
    c := c0;
    var j := i + 1;
    ghost var v0 := Num(b, out[..]) + c0 * Pow(b, 2 * i + 1);
    ghost var w := x[i] * Pow(b, i);
    assert w * (Val(b, x, j) - Val(b, x, i + 1)) == 0;
    while j < |x|
      invariant i < j <= |x| && c < 2 * b && IsDigits(b, out[..])
      invariant forall l :: i + |x| <= l < out.Length ==> out[l] == old(out[l])
      invariant Num(b, out[..]) + c * Pow(b, i + j) == v0 + 2 * (w * (Val(b, x, j) - Val(b, x, i + 1)))
    {
      var (d, c') := DoubledStep(b, x[i], x[j], out[i + j], c);
      CrossStep(b, out[i + j], d, x[i], x[j], c, c', i, j);
      Distrib(Val(b, x, j) - Val(b, x, i + 1), x[j] * Pow(b, j), w);
      ValSet(b, out[..], i + j, d, out.Length);
      ghost var prev := out[..];
      out[i + j] := d;
      assert out[..] == prev[i + j := d];
      c := c';
      j := j + 1;
    }
  }

  lemma CrossStep(b: nat, o: int, d: int, xi: int, xj: int, c: int, c': int, i: nat, j: nat)
    requires d + b * c' == 2 * (xi * xj) + o + c
    ensures (d - o) * Pow(b, i + j) + c' * Pow(b, i + j + 1)
         == c * Pow(b, i + j) + 2 * ((xi * Pow(b, i)) * (xj * Pow(b, j)))
  {
    var p := Pow(b, i + j);
    RowStep(b, o, d, xi, 2 * xj, c, c', p);
    PowAdd(b, i, j);
    Regroup(xi, Pow(b, i), xj, Pow(b, j));
    assert (xi * p) * (2 * xj) == 2 * ((xi * xj) * p) by { Assoc(xi, xj, p); Assoc(xi, p, xj); }
  }

  /** Square of a tail: `(d + t)^2 - t^2 = d^2 + 2 d t`. */
  lemma TailSquare(d: int, t: int)
    ensures (d + t) * (d + t) == d * d + 2 * (d * t) + t * t
  {
    Distrib(d, t, d + t);
    Distrib(d, t, d);
    Distrib(d, t, t);
  }

  lemma TailStep(X: int, v: int, d: int, before: int, after: int)
    requires before == Contributed(X, v) && after == before + d * d + 2 * (d * (X - (v + d)))
    ensures after == Contributed(X, v + d)
  {
    TailSquare(d, X - (v + d));
  }

  /** The part of `X` squared that the low part `v` of its digits contributes. */
  ghost function Contributed(X: int, v: int): (r: int) { X * X - (X - v) * (X - v) }

  /** `big_sq`: fills zeroed words with the exact square. */
  method BigSq(b: nat, x: seq<nat>, out: array<nat>)
    requires b >= 4 && IsDigits(b, x) && out.Length > 2 * |x|
    requires forall i :: 0 <= i < out.Length ==> out[i] == 0
    modifies out
    ensures IsDigits(b, out[..]) && Num(b, out[..]) == Num(b, x) * Num(b, x)
  {
    var s := |x|;
    ghost var X := Num(b, x);
    ValZero(b, out[..], out.Length);
    assert Contributed(X, 0) == 0 && Contributed(X, X) == X * X;
    var i := 0;
    while i < s
      invariant i <= s && IsDigits(b, out[..])
      invariant forall l :: i + s < l < out.Length ==> out[l] == 0
      invariant Num(b, out[..]) == Contributed(X, Val(b, x, i))
    {
      AddRow(b, x, i, out, X);
      i := i + 1;
    }
  }

  method AddRow(b: nat, x: seq<nat>, i: nat, out: array<nat>, ghost X: nat)
    requires b >= 4 && i < |x| && IsDigits(b, x) && IsDigits(b, out[..]) && out.Length > 2 * |x| && X == Num(b, x)
    requires forall l :: i + |x| < l < out.Length ==> out[l] == 0
    requires Num(b, out[..]) == Contributed(X, Val(b, x, i))
    modifies out
    ensures IsDigits(b, out[..])
    ensures forall l :: i + 1 + |x| < l < out.Length ==> out[l] == 0
    ensures Num(b, out[..]) == Contributed(X, Val(b, x, i + 1))
  {
    ghost var before, d := Num(b, out[..]), x[i] * Pow(b, i);
    SquareRow(b, x, i, out);
    TailStep(X, Val(b, x, i), d, before, Num(b, out[..]));
  }

  method SquareRow(b: nat, x: seq<nat>, i: nat, out: array<nat>)
    requires b >= 4 && i < |x| && IsDigits(b, x) && IsDigits(b, out[..]) && out.Length > 2 * |x|
    requires forall l :: i + |x| < l < out.Length ==> out[l] == 0
    modifies out
    ensures IsDigits(b, out[..])
    ensures forall l :: i + 1 + |x| < l < out.Length ==> out[l] == 0
    ensures var d := x[i] * Pow(b, i);
            Num(b, out[..]) == old(Num(b, out[..])) + d * d + 2 * (d * (Num(b, x) - Val(b, x, i + 1)))
  {
    var s := |x|;
    var (product, carry) := ShiftedCarryingMul(b, out[i + i], x[i], x[i], 0);
    DiagonalStep(b, out[i + i], product, x[i], carry, i);
    ValSet(b, out[..], i + i, product, out.Length);
    ghost var prev := out[..];
    out[i + i] := product;
    assert out[..] == prev[i + i := product];
    var c := CrossRow(b, x, i, carry, out);
    PushCarry(b, i + s, c, out);
  }

  /** Adds the double-word carry `c` at word `k`; the word above is still zero and is overwritten. */
  method PushCarry(b: nat, k: nat, c: nat, out: array<nat>)
    requires b >= 4 && c < 2 * b && k + 1 < out.Length && IsDigits(b, out[..]) && out[k + 1] == 0
    modifies out
    ensures IsDigits(b, out[..])
    ensures forall l :: k + 1 < l < out.Length ==> out[l] == old(out[l])
    ensures Num(b, out[..]) == old(Num(b, out[..])) + c * Pow(b, k)
  {
    DivModDef(c, b);
    var (sum, carry) := CarryingAdd(b, out[k], c % b, false);
    var top: nat := c / b + Bit(carry);
    assert c / b < 2 by { if c / b >= 2 { MulMono(2, c / b, b); } }
    ghost var prev := out[..];
    out[k] := sum;
    ghost var mid := out[..];
    out[k + 1] := top;
    assert mid == prev[k := sum] && out[..] == mid[k + 1 := top];
    ValSet(b, prev, k, sum, out.Length);
    ValSet(b, mid, k + 1, top, out.Length);
    AddStep(b, prev[k], c % b, sum, carry, Pow(b, k));
    SplitCarry(b, c, Bit(carry), Pow(b, k));
    Distrib(sum, prev[k], Pow(b, k));
  }

  lemma SplitCarry(b: nat, c: nat, f: nat, p: nat)
    requires b > 0
    ensures c * p == (c % b) * p + (c / b) * (b * p)
    ensures (c / b + f) * (b * p) == (c / b) * (b * p) + f * (b * p)
  {
    DivModDef(c, b);
    Distrib((c / b) * b, c % b, p);
    Assoc(c / b, b, p);
    Distrib(c / b, f, b * p);
  }

  lemma DiagonalStep(b: nat, o: int, d: int, x: int, c: int, i: nat)
    requires d + b * c == o + x * x
    ensures (d - o) * Pow(b, i + i) + c * Pow(b, 2 * i + 1) == (x * Pow(b, i)) * (x * Pow(b, i))
  {
    RowStep(b, o, d, x, x, 0, c, Pow(b, i + i));
    PowAdd(b, i, i);
    Regroup(x, Pow(b, i), x, Pow(b, i));
    Assoc(x, x, Pow(b, i + i));
    assert (x * Pow(b, i + i)) * x == (x * x) * Pow(b, i + i) by { Assoc(x, Pow(b, i + i), x); }
    assert 2 * i + 1 - 1 == i + i;
  }

  /** One reduction row: adds `m * n * b^i` and propagates the carry upwards. The `while` loop stays
      inside `out` because the running total fits below `b^(2s+1)`. */
  method ReductionRow(b: nat, n: seq<nat>, m: nat, i: nat, out: array<nat>)
    requires b >= 2 && m < b && IsDigits(b, n) && IsDigits(b, out[..])
    requires i < |n| && out.Length > 2 * |n|
    requires (out[i] + m * n[0]) % b == 0
    requires Num(b, out[..]) + (m * Pow(b, i)) * Num(b, n) < Pow(b, 2 * |n| + 1)
    modifies out
    ensures IsDigits(b, out[..])
    ensures forall l :: 0 <= l < i ==> out[l] == old(out[l])
    ensures out[i] == 0
    ensures Num(b, out[..]) == old(Num(b, out[..])) + (m * Pow(b, i)) * Num(b, n)
  {
    var s := |n|;
    Commute(n[0], m);
    ghost var sum := Num(b, out[..]) + (m * Pow(b, i)) * Num(b, n);
    var c := MulRowAt(b, n, s, m, i, out);
    assert out[i] == 0;
    assert Num(b, out[..]) + c * Pow(b, i + s) == sum;
    PropagateCarry(b, i + s, c, 2 * s + 1, out);
  }

  /** Adds `c * b^k`; the carry never reaches word `top` because the sum stays below `b^top`. */
  method PropagateCarry(b: nat, k: nat, c0: nat, top: nat, out: array<nat>)
    requires b >= 2 && c0 < b && IsDigits(b, out[..]) && top <= out.Length
    requires Num(b, out[..]) + c0 * Pow(b, k) < Pow(b, top)
    modifies out
    ensures IsDigits(b, out[..])
    ensures forall l :: 0 <= l < out.Length && l < k ==> out[l] == old(out[l])
    ensures Num(b, out[..]) == old(Num(b, out[..])) + c0 * Pow(b, k)
  {
    ghost var total := Num(b, out[..]) + c0 * Pow(b, k);
    var c, j := c0, k;
    while c > 0
      invariant k <= j && 0 <= c < b && IsDigits(b, out[..])
      invariant forall l :: 0 <= l < out.Length && l < k ==> out[l] == old(out[l])
      invariant Num(b, out[..]) + c * Pow(b, j) == total
      decreases top - j
    {
      InRange(b, Num(b, out[..]), c, j, top);
      var (sum, carry) := CarryingAdd(b, out[j], c, false);
      AddStep(b, out[j], c, sum, carry, Pow(b, j));
      Distrib(sum, out[j], Pow(b, j));
      ValSet(b, out[..], j, sum, out.Length);
      ghost var prev := out[..];
      out[j] := sum;
      assert out[..] == prev[j := sum];
      c := Bit(carry);
      j := j + 1;
    }
  }

  lemma InRange(b: nat, v: nat, c: nat, j: nat, k: nat)
    requires b > 0 && c > 0 && v + c * Pow(b, j) < Pow(b, k)
    ensures j < k
  {
    MulMono(1, c, Pow(b, j));
    if j >= k { PowMono(b, k, j); }
  }

  /** The running total stays below `b^(2s+1)`. */
  lemma TotalBound(b: nat, xx: nat, m: nat, n: nat, s: nat)
    requires b >= 2 && m < Pow(b, s) && n < Pow(b, s) && xx < Pow(b, s) * n
    ensures xx + m * n < Pow(b, 2 * s + 1)
  {
    var r := Pow(b, s);
    PowAdd(b, s, s);
    MulMono(m, r, n);
    MulMono(n, r, r);
    MulMono(2, b, r * r);
    assert 2 * s + 1 - 1 == s + s;
  }

  /** All `s` reduction rows: the low `s` words become zero and the total grows by `M * n`. */
  method ReduceRows(b: nat, n: seq<nat>, nPrime: nat, out: array<nat>) returns (ghost M: nat)
    requires b >= 2 && IsDigits(b, n) && IsDigits(b, out[..])
    requires 0 < |n| && out.Length > 2 * |n| && IsNegInverse(b, n[0], nPrime)
    requires Num(b, out[..]) < Pow(b, |n|) * Num(b, n)
    modifies out
    ensures IsDigits(b, out[..]) && M < Pow(b, |n|)
    ensures forall l :: 0 <= l < |n| ==> out[l] == 0
    ensures Num(b, out[..]) == old(Num(b, out[..])) + M * Num(b, n)
  {
    M := 0;
    var s := |n|;
    ghost var xx, N := Num(b, out[..]), Num(b, n);
    ValBound(b, n, s);
    var i := 0;
    while i < s
      invariant i <= s && IsDigits(b, out[..]) && M < Pow(b, i)
      invariant forall l :: 0 <= l < i ==> out[l] == 0
      invariant Num(b, out[..]) == xx + M * N
    {
      var m := (out[i] * nPrime) % b;
      ClearsLowWord(b, n[0], nPrime, out[i]);
      ghost var M' := M + m * Pow(b, i);
      assert M' < Pow(b, i + 1) by { MulMono(m, b - 1, Pow(b, i)); Distrib(b, 1, Pow(b, i)); }
      PowMono(b, i + 1, s);
      TotalBound(b, xx, M', N, s);
      Distrib(M, m * Pow(b, i), N);
      ReductionRow(b, n, m, i, out);
      M := M';
      i := i + 1;
    }
  }

  /** Keeps words `s..2s` as words `0..s` and clears the rest: exact division by `b^s`. */
  method ShiftDown(b: nat, s: nat, out: array<nat>)
    requires b >= 2 && out.Length > 2 * s && IsDigits(b, out[..])
    requires forall l :: 0 <= l < s ==> out[l] == 0
    requires Num(b, out[..]) < Pow(b, 2 * s + 1)
    modifies out
    ensures IsDigits(b, out[..])
    ensures forall l :: s < l < out.Length ==> out[l] == 0
    ensures Val(b, out[..], s + 1) * Pow(b, s) == old(Num(b, out[..]))
  {
    ghost var before := out[..];
    var i := 0;
    while i < s + 1
      invariant i <= s + 1
      invariant forall l :: 0 <= l < i ==> out[l] == before[l + s]
      invariant forall l :: i <= l < out.Length ==> out[l] == before[l]
    {
      out[i] := out[i + s];
      i := i + 1;
    }
    while i < out.Length
      invariant s + 1 <= i <= out.Length
      invariant forall l :: 0 <= l < s + 1 ==> out[l] == before[l + s]
      invariant forall l :: s + 1 <= l < i ==> out[l] == 0
    {
      out[i] := 0;
      i := i + 1;
    }
    ShiftValue(b, before, out[..], s);
  }

  lemma ShiftValue(b: nat, before: seq<nat>, after: seq<nat>, s: nat)
    requires b >= 2 && |before| > 2 * s && Num(b, before) < Pow(b, 2 * s + 1)
    requires forall l :: 0 <= l < s ==> before[l] == 0
    requires |after| > s && forall l :: 0 <= l < s + 1 ==> after[l] == before[l + s]
    ensures Val(b, after, s + 1) * Pow(b, s) == Num(b, before)
  {
    var hi := before[s..];
    assert Val(b, before, s + (s + 1)) == Num(b, before) by { ValFits(b, before, 2 * s + 1, |before|); }
    assert Val(b, before, s) == 0 by { ValZero(b, before, s); }
    assert Val(b, hi, s + 1) == Val(b, after, s + 1) by { ValSame(b, hi, after, s + 1); }
    ValSplit(b, before, s, s + 1);
    Commute(Pow(b, s), Val(b, hi, s + 1));
  }

  /** `monsq`: the fully reduced Montgomery square, for every `x` with `x*x < b^s * n`. */
  method Monsq(b: nat, x: seq<nat>, n: seq<nat>, nPrime: nat, out: array<nat>)
    requires b >= 4 && IsDigits(b, x) && IsDigits(b, n)
    requires 0 < |n| && |x| <= |n| && IsNegInverse(b, n[0], nPrime)
    requires out.Length > 2 * |n| && forall i :: 0 <= i < out.Length ==> out[i] == 0
    requires Num(b, x) * Num(b, x) < Pow(b, |n|) * Num(b, n)
    modifies out
    ensures IsDigits(b, out[..])
    ensures Num(b, out[..]) < Num(b, n)
    ensures (Num(b, out[..]) * Pow(b, |n|)) % Num(b, n) == (Num(b, x) * Num(b, x)) % Num(b, n)
  {
    var s := |n|;
    ghost var xx, N := Num(b, x) * Num(b, x), Num(b, n);
    PositiveFactor(xx, Pow(b, s), N);
    BigSq(b, x, out);
    ghost var M := ReduceRows(b, n, nPrime, out);
    ValBound(b, n, s);
    TotalBound(b, xx, M, N, s);
    ShiftDown(b, s, out);
    Finish(Val(b, out[..], s + 1), Pow(b, s), xx, M, N);
    FinalSubtraction(b, n, s, out);
    HighZero(b, out[..], s + 1);
  }

  lemma {:induction false} HighZero(b: nat, s: seq<nat>, k: nat)
    requires k <= |s| && forall l :: k <= l < |s| ==> s[l] == 0
    ensures Num(b, s) == Val(b, s, k)
    decreases |s| - k
  {
    if k < |s| { HighZero(b, s, k + 1); }
  }

  //// Uniqueness of Montgomery residues

  /** `b` is invertible modulo `n` whenever the reduction constant exists. */
  lemma BaseInverse(b: nat, n: seq<nat>, np: nat) returns (k: int)
    requires b > 0 && |n| > 0 && IsNegInverse(b, n[0], np)
    ensures b * k == Num(b, n) * np + 1
  {
    var t := Val(b, n[1..], |n| - 1);
    ValSplit(b, n, 1, |n| - 1);
    assert Pow(b, 1) == b && Val(b, n, 1) == n[0] by { assert Pow(b, 0) == 1; }
    DivModDef(n[0] * np + 1, b);
    k := (n[0] * np + 1) / b + t * np;
    Distrib(n[0], b * t, np);
    Assoc(b, t, np);
    Distrib((n[0] * np + 1) / b, t * np, b);
  }

  lemma {:induction false} PowInverse(b: nat, k: int, n: nat, s: nat) returns (ks: int)
    requires n > 0 && (b * k) % n == 1 % n
    ensures (Pow(b, s) * ks) % n == 1 % n
  {
    if s == 0 {
      ks := 1;
    } else {
      var k1 := PowInverse(b, k, n, s - 1);
      ks := k * k1;
      CongMul(b * k, 1, Pow(b, s - 1) * k1, 1, n);
      Regroup(b, k, Pow(b, s - 1), k1);
    }
  }

  /** The radix can be cancelled from a congruence. */
  lemma CancelRadix(b: nat, n: seq<nat>, np: nat, s: nat, u: int, v: int)
    requires b > 0 && |n| > 0 && IsNegInverse(b, n[0], np) && Num(b, n) > 0
    requires (u * Pow(b, s)) % Num(b, n) == (v * Pow(b, s)) % Num(b, n)
    ensures u % Num(b, n) == v % Num(b, n)
  {
    var N := Num(b, n);
    var k := BaseInverse(b, n, np);
    CongIntro(b * k, 1, np, N);
    var ks := PowInverse(b, k, N, s);
    CongMul(u * Pow(b, s), v * Pow(b, s), ks, ks, N);
    Assoc(u, Pow(b, s), ks);
    Assoc(v, Pow(b, s), ks);
    CongMul(u, u, Pow(b, s) * ks, 1, N);
    CongMul(v, v, Pow(b, s) * ks, 1, N);
  }

  lemma ProductFits(x: nat, y: nat, n: nat, r: nat)
    requires x < r && y < n
    ensures x * y < r * n
  {
    MulMono(y, n, x);
    MulMonoStrict(x, r, n);
  }

  /** Running both algorithms on the same operand gives the same number, digit for digit. */
  method SquareAgreesWithProduct(b: nat, x: seq<nat>, n: seq<nat>, nPrime: nat)
    returns (sq: array<nat>, pr: array<nat>)
    requires b >= 4 && IsDigits(b, x) && IsDigits(b, n)
    requires 0 < |n| && |x| <= |n| && IsNegInverse(b, n[0], nPrime) && Num(b, x) < Num(b, n)
    ensures sq.Length == 2 * |n| + 1 && pr.Length == |n| + 2
    ensures forall i :: 0 <= i < |n| ==> sq[i] == pr[i]
    ensures Num(b, sq[..]) == Num(b, pr[..])
  {
    var s := |n|;
    sq := new nat[2 * s + 1](_ => 0);
    pr := new nat[s + 2](_ => 0);
    ValBound(b, n, s);
    ValPad(b, x, s);
    ProductFits(Num(b, x), Num(b, x), Num(b, n), Pow(b, s));
    Monsq(b, x, n, nPrime, sq);
    Monpro(b, x, x, n, nPrime, pr);
    CancelRadix(b, n, nPrime, s, Num(b, sq[..]), Num(b, pr[..]));
    ModSmall(Num(b, sq[..]), Num(b, n));
    ModSmall(Num(b, pr[..]), Num(b, n));
    SameDigits(b, sq[..], pr[..], s);
  }

  lemma SameDigits(b: nat, u: seq<nat>, v: seq<nat>, s: nat)
    requires b > 0 && IsDigits(b, u) && IsDigits(b, v) && |u| >= s && |v| >= s
    requires Num(b, u) == Num(b, v) < Pow(b, s)
    ensures forall i :: 0 <= i < s ==> u[i] == v[i]
  {
    ValFits(b, u, s, |u|);
    ValFits(b, v, s, |v|);
    ValInjective(b, u, v, s);
    forall i | 0 <= i < s ensures u[i] == v[i] { assert Get(u, i) == Get(v, i); }
  }
}
