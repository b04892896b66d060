/** `R mod n` for `R = b^k`, by a two-digit quotient estimate that is at most one too large. */
module RadixResidue {
  import opened Digits
  import opened Words
  import opened Rows

  /** The estimate never falls below the true quotient and exceeds it by at most one. */
  lemma EstimateBounds(b: nat, k: nat, a: nat, n: nat, q: nat)
    requires b >= 2 && k >= 2 && a >= b
    requires a * Pow(b, k - 2) <= n < (a + 1) * Pow(b, k - 2)
    requires n > 0 && q == Pow(b, k) / n
    requires q * n < Pow(b, k)
    ensures q <= (b * b - 1) / a <= q + 1
  {
    var p := Pow(b, k - 2);
    assert Pow(b, k) == (b * b) * p by { PowAdd(b, 2, k - 2); PowOne(b); }
    MulMono(b, b, b);
    EstimateAt(b, b * b, a, p, n, q);
  }

  /** The same with the powers named: `bb = b*b`, and `n` between `a*p` and `(a+1)*p`. */
  lemma EstimateAt(b: nat, bb: nat, a: nat, p: nat, n: nat, q: nat)
    requires b >= 2 && bb == b * b && a >= b && p > 0 && a * p <= n < (a + 1) * p
    requires n > 0 && q == (bb * p) / n && q * n < bb * p
    ensures q <= (bb - 1) / a <= q + 1
  {
    var e := (bb - 1) / a;
    DivModDef(bb - 1, a);
    assert q * a < bb by { // never too small
      MulMono(a * p, n, q);
      Assoc(q, a, p);
      MulCancelLt(q * a, bb, p);
    }
    if e < q { MulMono(e + 1, q, a); Distrib(e, 1, a); }
    assert bb * p < (q + 1) * n by { DivModDef(bb * p, n); Distrib(q, 1, n); }
    UpperEstimate(b, bb, a, p, n, q); // at most one too large
    if e > q + 1 { MulMono(q + 2, e, a); }
  }

  lemma UpperEstimate(b: nat, bb: nat, a: nat, p: nat, n: nat, q: nat)
    requires b >= 2 && bb == b * b && a >= b && p > 0 && n < (a + 1) * p && bb * p < (q + 1) * n && q * a < bb
    ensures (q + 2) * a > bb - 1
  {
    assert bb < (q + 1) * (a + 1) by {
      MulMono(n, (a + 1) * p, q + 1);
      Assoc(q + 1, a + 1, p);
      MulCancelLt(bb, (q + 1) * (a + 1), p);
    }
    Distrib(a, 1, q + 1);
    Distrib(q + 1, 1, a);
    // q + 1 <= a since q * a < b*b <= a*a
    if q + 1 > a { MulMono(a, q, a); MulMono(b, a, b); MulMono(b, a, a); }
  }

  /** An odd number above one never divides a power of two. */
  lemma {:induction false} OddNeverDivides(q: nat, n: nat, e: nat)
    requires n % 2 == 1 && q * n == Pow(2, e)
    ensures n == 1
  {
    if e == 0 {
      if n > 1 { if q == 0 { } else { MulMono(1, q, n); } }
    } else {
      var h := q / 2;
      if q % 2 == 1 {
        var g := n / 2;
        assert q == 2 * h + 1 && n == 2 * g + 1;
        Distrib(2 * h, 1, n);
        Assoc(2, h, n);
      }
      Assoc(2, h, n);
      OddNeverDivides(h, n, e - 1);
    }
  }

  /** One attempt: writes the low `k` words of `R - q*n` and reports whether it underflowed. */
  method Attempt(b: nat, n: seq<nat>, q: nat, out: array<nat>) returns (diff: nat, borrow: bool)
    requires b >= 2 && q < b && IsDigits(b, n) && out.Length >= |n|
    modifies out
    ensures forall l :: 0 <= l < |n| ==> out[l] < b
    ensures forall l :: |n| <= l < out.Length ==> out[l] == old(out[l])
    ensures diff < b
    ensures Val(b, out[..], |n|) + q * Num(b, n) == (1 - diff + (if borrow then b else 0)) * Pow(b, |n|)
  {
    var c := 0;
    var br := false;
    var i := 0;
    while i < |n|
      invariant i <= |n| && c < b
      invariant forall l :: 0 <= l < i ==> out[l] < b
      invariant forall l :: |n| <= l < out.Length ==> out[l] == old(out[l])
      invariant Val(b, out[..], i) + q * Val(b, n, i) == (c + Bit(br)) * Pow(b, i)
    {
      var (prod, carry) := CarryingMul(b, q, n[i], c);
      var (d, br') := BorrowingSub(b, 0, prod, br);
      AttemptStep(b, Val(b, out[..], i), q, Val(b, n, i), n[i], c, carry, prod, d, Bit(br), Bit(br'), Pow(b, i));
      ValSet(b, out[..], i, d, i);
      ghost var prev := out[..];
      out[i] := d;
      assert out[..] == prev[i := d];
      c, br := carry, br';
      i := i + 1;
    }
    diff, borrow := BorrowingSub(b, 1, c, br).0, BorrowingSub(b, 1, c, br).1;
  }

  lemma AttemptStep(b: int, v: int, q: int, vn: int, d: int, c: int, c': int, prod: int, o: int, f: int, f': int,
                    p: int)
    requires v + q * vn == (c + f) * p && prod + b * c' == q * d + c && o + prod + f == b * f'
    ensures v + o * p + q * (vn + d * p) == (c' + f') * (b * p)
  {
    calc {
      v + o * p + q * (vn + d * p);
      { Distrib(vn, d * p, q); Assoc(q, d, p); }
      (c + f) * p + o * p + (q * d) * p;
      { Distrib(c + f, o, p); Distrib(c + f + o, q * d, p); }
      (c + f + o + q * d) * p;
      { Distrib(c', f', b); assert c + f + o + q * d == b * (c' + f'); }
      (b * (c' + f')) * p;
      { Assoc(b, c' + f', p); Swap(b, c' + f', p); }
      (c' + f') * (b * p);
    }
  }

  /** `compute_r_mod_n`: exactly `b^k mod n` for every odd `n` with a nonzero top digit,
      in at most two attempts. */
  method ComputeRModN(w: nat, n: seq<nat>, out: array<nat>) returns (ghost attempts: nat)
    requires w >= 2 && |n| > 0 && IsDigits(Pow(2, w), n)
    requires n[0] % 2 == 1 && n[|n| - 1] > 0 && out.Length >= |n|
    modifies out
    ensures forall l :: 0 <= l < |n| ==> out[l] < Pow(2, w)
    ensures forall l :: |n| <= l < out.Length ==> out[l] == old(out[l])
    ensures Val(Pow(2, w), out[..], |n|) == Pow(Pow(2, w), |n|) % Num(Pow(2, w), n)
    ensures attempts <= 2
  {
    var b := Pow(2, w);
    var k := |n|;
    PowMono(2, 1, w);
    attempts := 0;
    if k == 1 {
      out[0] := b % n[0];
      PowOne(b);
      assert Num(b, n) == Val(b, n, 0) + n[0] * Pow(b, 0);
      return;
    }
    var approxN := JoinAsDouble(b, n[k - 1], n[k - 2]);
    DivModDef(approxN, b);
    ghost var q := EstimateIsGood(w, n, approxN);
    var approxQ := (b * b - 1) / approxN;
    attempts := Retry(b, n, approxQ, q, out);
  }

  lemma EstimateIsGood(w: nat, n: seq<nat>, a: nat) returns (q: nat)
    requires w >= 2 && |n| >= 2 && IsDigits(Pow(2, w), n) && n[0] % 2 == 1 && n[|n| - 1] > 0
    requires a == n[|n| - 1] * Pow(2, w) + n[|n| - 2]
    ensures Num(Pow(2, w), n) > 0 && q == Pow(Pow(2, w), |n|) / Num(Pow(2, w), n)
    ensures a > 0
    ensures var e := (Pow(2, w) * Pow(2, w) - 1) / a; 0 < q <= e <= q + 1 && e < Pow(2, w)
  {
    var b, k := Pow(2, w), |n|;
    var N, R := Num(b, n), Pow(b, k);
    PowMono(2, 1, w);
    PowOne(2);
    ValTop(b, n, k);
    ValBound(b, n, k);
    MulMono(1, n[k - 1], b);
    ApproxN(b, n, a);
    q := R / N;
    ProperQuotient(w, n, q);
    DivModDef(R, N);
    EstimateBounds(b, k, a, N, q);
    OneDigitQuotient(b, a);
  }

  lemma OneDigitQuotient(b: nat, a: nat)
    requires b > 0 && a >= b
    ensures (b * b - 1) / a < b
  {
    var e := (b * b - 1) / a;
    DivModDef(b * b - 1, a);
    MulMono(b, a, b);
    if e >= b { MulMono(b, e, a); }
  }

  method Retry(b: nat, n: seq<nat>, estimate: nat, ghost q: nat, out: array<nat>) returns (ghost attempts: nat)
    requires b >= 2 && |n| > 0 && IsDigits(b, n) && out.Length >= |n|
    requires Num(b, n) > 0 && q == Pow(b, |n|) / Num(b, n) && 0 < q <= estimate <= q + 1 && estimate < b
    modifies out
    ensures forall l :: 0 <= l < |n| ==> out[l] < b
    ensures forall l :: |n| <= l < out.Length ==> out[l] == old(out[l])
    ensures Val(b, out[..], |n|) == Pow(b, |n|) % Num(b, n)
    ensures attempts <= 2
  {
    var k, approxQ := |n|, estimate;
    attempts := 0;
    while true
      invariant q <= approxQ <= estimate && attempts + approxQ == estimate
      invariant forall l :: k <= l < out.Length ==> out[l] == old(out[l])
      decreases approxQ
    {
      var diff, borrow := Attempt(b, n, approxQ, out);
      AttemptBound(b, out[..], k);
      Decide(b, Val(b, out[..], k), approxQ, Num(b, n), Pow(b, k), q, diff, borrow);
      attempts := attempts + 1;
      if !borrow { break; }
      approxQ := approxQ - 1;
    }
  }

  lemma AttemptBound(b: nat, s: seq<nat>, k: nat)
    requires b > 0 && k <= |s| && forall l :: 0 <= l < k ==> s[l] < b
    ensures Val(b, s, k) < Pow(b, k)
  {
    ValSame(b, s, s[..k], k);
    ValBound(b, s[..k], k);
  }

  /** The two leading digits bracket the modulus. */
  lemma ApproxN(b: nat, n: seq<nat>, a: nat)
    requires b >= 2 && |n| >= 2 && IsDigits(b, n) && a == n[|n| - 1] * b + n[|n| - 2]
    ensures a * Pow(b, |n| - 2) <= Num(b, n) < (a + 1) * Pow(b, |n| - 2)
  {
    var k := |n|;
    var p := Pow(b, k - 2);
    ValBound(b, n, k - 2);
    assert Val(b, n, k) == Val(b, n, k - 1) + n[k - 1] * Pow(b, k - 1);
    assert Val(b, n, k - 1) == Val(b, n, k - 2) + n[k - 2] * p;
    assert Pow(b, k - 1) == b * p;
    Assoc(n[k - 1], b, p);
    Distrib(n[k - 1] * b, n[k - 2], p);
    Distrib(a, 1, p);
  }

  /** `R` is not a multiple of `n`: an odd `n >= b` cannot divide a power of two. */
  lemma ProperQuotient(w: nat, n: seq<nat>, q: nat)
    requires w >= 2 && |n| >= 2 && IsDigits(Pow(2, w), n) && n[0] % 2 == 1 && n[|n| - 1] > 0
    requires Num(Pow(2, w), n) > 0 && q == Pow(Pow(2, w), |n|) / Num(Pow(2, w), n)
    ensures q * Num(Pow(2, w), n) < Pow(Pow(2, w), |n|)
  {
    var b := Pow(2, w);
    var N := Num(b, n);
    DivModDef(Pow(b, |n|), N);
    PowMul(2, w, |n|);
    MulPos(w, |n|);
    OddNumber(w, n);
    ValTop(b, n, |n|);
    PowMono(b, 1, |n| - 1);
    PowMono(2, 1, w);
    PowOne(b);
    PowOne(2);
    if q * N == Pow(b, |n|) { OddNeverDivides(q, N, w * |n|); }
  }

  /** A number over a base `2^w` has the parity of its low word. */
  lemma OddNumber(w: nat, n: seq<nat>)
    requires w > 0 && |n| > 0
    ensures Num(Pow(2, w), n) % 2 == n[0] % 2
  {
    var b := Pow(2, w);
    ValSplit(b, n, 1, |n| - 1);
    var t := Val(b, n[1..], |n| - 1);
    PowOne(b);
    assert Val(b, n, 1) == n[0];
    Assoc(2, Pow(2, w - 1), t);
    CongIntro(Num(b, n), n[0], Pow(2, w - 1) * t, 2);
  }

  lemma Decide(b: nat, v: nat, e: nat, n: nat, r: nat, q: nat, diff: nat, borrow: bool)
    requires b >= 2 && n > 0 && r > 0 && q == r / n && 0 < q <= e <= q + 1 && v < r && diff < b
    requires v + e * n == (1 - diff + (if borrow then b else 0)) * r
    ensures borrow ==> e == q + 1
    ensures !borrow ==> diff == 0 && v == r % n
  {
    DivModDef(r, n);
    MulMonoStrict(0, e, n);
    if borrow {
      MulMono(2, 1 - diff + b, r);
      assert q * n <= r;
    } else {
      if diff > 0 { MulMono(1 - diff, 0, r); }
      if e == q + 1 { Distrib(q, 1, n); }
    }
  }
}
