/** Long division by a normalized divisor (Knuth, The Art of Computer Programming vol. 2, section 4.3.1). */
module LongDivision {
  import opened Digits
  import opened Words
  import opened InPlace

  //// The trial quotient

  /** With `q*v1 + r = a`, comparing `q*v2` with `r*b + u3` compares `q` times two divisor digits
      with three dividend digits. */
  lemma TrialMeaning(b: int, a: int, u3: int, v1: int, v2: int, q: int, r: int, v12: int, u123: int)
    requires q * v1 + r == a && v12 == v1 * b + v2 && u123 == a * b + u3
    ensures u123 - q * v12 == r * b + u3 - q * v2
  {
    Distrib(q * v1, r, b);
    Distrib(v1 * b, v2, q);
    Assoc(q, v1, b);
  }

  /** The initial guess `a / v1` is never too small. */
  lemma GuessNotSmall(b: nat, a: nat, u3: nat, v1: nat, v2: nat, q: nat, v12: nat, u123: nat)
    requires b > 0 && v1 > 0 && u3 < b && q == a / v1 && v12 == v1 * b + v2 && u123 == a * b + u3
    ensures (q + 1) * v12 > u123
  {
    DivModDef(a, v1);
    assert a + 1 <= (q + 1) * v1 by { Distrib(q, 1, v1); }
    assert (a + 1) * b <= (q + 1) * (v1 * b) by { MulMono(a + 1, (q + 1) * v1, b); Assoc(q + 1, v1, b); }
    Distrib(a, 1, b);
    Distrib(v1 * b, v2, q + 1);
    MulPos(q + 1, v2);
  }

  /** Three leading dividend digits over two leading divisor digits, capped at one digit. */
  method TrialQuotient(b: nat, u1: nat, u2: nat, u3: nat, v1: nat, v2: nat, ghost v12: nat, ghost u12: nat,
                       ghost u123: nat)
    returns (q: nat)
    requires b >= 2 && u1 <= v1 < b && u2 < b && u3 < b && v2 < b && 2 * v1 >= b
    requires v12 == v1 * b + v2 && u12 == u1 * b + u2 && u123 == u12 * b + u3
    ensures q < b && q * v12 <= u123 && (q == b - 1 || (q + 1) * v12 > u123)
  {
    var a := JoinAsDouble(b, u1, u2);
    FirstGuess(b, u1, u2, u3, v1, v2, a, v12, u123);
    q := RefineTrial(b, a, u1, u2, u3, v1, v2, a / v1, a % v1, v12, u123);
  }

  lemma FirstGuess(b: nat, u1: nat, u2: nat, u3: nat, v1: nat, v2: nat, a: nat, v12: nat, u123: nat)
    requires b >= 2 && u1 <= v1 && u2 < b && u3 < b && 2 * v1 >= b
    requires a == u1 * b + u2 && v12 == v1 * b + v2 && u123 == a * b + u3
    ensures v1 > 0 && 0 <= a / v1 <= b + 1 && 0 <= a % v1 < v1 && (a / v1) * v1 + a % v1 == a
    ensures (a / v1 + 1) * v12 > u123
  {
    DivModDef(a, v1);
    GuessNotSmall(b, a, u3, v1, v2, a / v1, v12, u123);
    GuessBound(b, u1, u2, v1, a, a / v1);
  }

  /** The correction loop: at most two steps down. */
  method RefineTrial(b: nat, a: nat, u1: nat, u2: nat, u3: nat, v1: nat, v2: nat, q0: nat, r0: nat, ghost v12: nat,
                     ghost u123: nat)
    returns (q: nat)
    requires b >= 2 && a == u1 * b + u2 && u1 <= v1 < b && u2 < b && u3 < b && v2 < b && 2 * v1 >= b
    requires v12 == v1 * b + v2 && u123 == a * b + u3
    requires q0 <= b + 1 && r0 < v1 && q0 * v1 + r0 == a && (q0 + 1) * v12 > u123
    ensures q < b && q * v12 <= u123 && (q == b - 1 || (q + 1) * v12 > u123)
  {
    q := q0;
    var r := r0;
    while true
      invariant 0 <= q <= b + 1 && 0 <= r < b && q * v1 + r == a
      invariant q >= b - 1 || (q + 1) * v12 > u123
      decreases q
    {
      if q >= b || q * v2 > JoinAsDouble(b, r, u3) {
        TrialDown(b, a, u3, v1, v2, q, r, v12, u123);
        q := q - 1;
        r := r + v1;
        if b <= r {
          TrialFits(b, a, u1, u2, u3, v1, v2, q, r, v12, u123);
          break;
        }
      } else {
        TrialMeaning(b, a, u3, v1, v2, q, r, v12, u123);
        break;
      }
    }
  }

  /** A quotient found too large is stepped down without becoming too small. */
  lemma TrialDown(b: nat, a: nat, u3: nat, v1: nat, v2: nat, q: nat, r: nat, v12: nat, u123: nat)
    requires b > 0 && v12 == v1 * b + v2 && u123 == a * b + u3
    requires q * v1 + r == a && (q >= b || q * v2 > r * b + u3)
    ensures q > 0 && (q - 1) * v1 + (r + v1) == a
    ensures q >= b || q * v12 > u123
  {
    TrialMeaning(b, a, u3, v1, v2, q, r, v12, u123);
    MulPos(r, b);
    if q < 1 { MulMono(q, 0, v2); }
    Distrib(q, 1, v1);
  }

  /** Once the remainder no longer fits a digit, the quotient is not too large. */
  lemma TrialFits(b: nat, a: nat, u1: nat, u2: nat, u3: nat, v1: nat, v2: nat, q: nat, r: nat, v12: nat, u123: nat)
    requires v12 == v1 * b + v2 && u123 == a * b + u3
    requires b >= 2 && a == u1 * b + u2 && u1 <= v1 < b && u2 < b && v2 < b && q * v1 + r == a && b <= r && q <= b
    ensures q < b && q * v12 <= u123
  {
    TrialMeaning(b, a, u3, v1, v2, q, r, v12, u123);
    AboveBase(b, u1, u2, v1);
    if q == b { Commute(b, v1); }
    assert q * v2 <= b * b by { MulMono(q, b, v2); MulMono(v2, b, b); }
    MulMono(b, r, b);
  }

  lemma GuessBound(b: nat, u1: nat, u2: nat, v1: nat, a: nat, q: nat)
    requires b >= 2 && u1 <= v1 && u2 < b && 2 * v1 >= b && v1 > 0 && a == u1 * b + u2 && q == a / v1
    ensures q <= b + 1
  {
    MulMono(u1, v1, b);
    DivModDef(a, v1);
    if q >= b + 2 { MulMono(b + 2, q, v1); Distrib(b, 2, v1); }
  }

  lemma AboveBase(b: nat, u1: nat, u2: nat, v1: nat)
    requires u1 <= v1 && u2 < b
    ensures (u1 * b + u2) - b * v1 < b
  {
    MulMono(u1, v1, b);
  }

  /** A trial quotient from leading digits is the true quotient or one more. */
  lemma QuotientBounds(b: nat, p: nat, v12: nat, lowV: nat, u123: nat, lowW: nat, q: nat, t: nat)
    requires b >= 2 && lowV < p && lowW < p && v12 >= b && t < b && q < b
    requires t * (v12 * p + lowV) <= u123 * p + lowW < (t + 1) * (v12 * p + lowV)
    requires q * v12 <= u123 && (q == b - 1 || (q + 1) * v12 > u123)
    ensures t <= q <= t + 1
  {
    var V, W := v12 * p + lowV, u123 * p + lowW;
    Distrib(v12 * p, lowV, t);
    Assoc(t, v12, p);
    MulPos(t, lowV);
    Distrib(u123, 1, p);
    MulCancelLt(t * v12, u123 + 1, p);
    if q < t { MulMono(q + 1, t, v12); }
    TooLargeByOne(b, p, v12, lowV, u123, lowW, q);
    Distrib(t + 1, 1, V);
    if q > t + 1 { MulMono(t + 2, q, V); }
  }

  lemma TooLargeByOne(b: nat, p: nat, v12: nat, lowV: nat, u123: nat, lowW: nat, q: nat)
    requires lowV < p && v12 >= b > q && q * v12 <= u123
    ensures q * (v12 * p + lowV) < u123 * p + lowW + (v12 * p + lowV)
  {
    Distrib(v12 * p, lowV, q);
    Assoc(q, v12, p);
    MulMono(q * v12, u123, p);
    MulMono(lowV, p, q);
    MulMonoStrict(q, v12, p);
  }

  //// One division step

  /** The two or three leading digits of a number, and the rest. */
  lemma LeadTwo(b: nat, v: seq<nat>)
    requires b > 0 && |v| >= 2 && IsDigits(b, v)
    ensures var p := Pow(b, |v| - 2);
            Num(b, v) == (v[|v| - 1] * b + v[|v| - 2]) * p + Val(b, v, |v| - 2) && Val(b, v, |v| - 2) < p
  {
    var n := |v|;
    var p := Pow(b, n - 2);
    ValBound(b, v, n - 2);
    assert Val(b, v, n) == Val(b, v, n - 1) + v[n - 1] * Pow(b, n - 1);
    assert Val(b, v, n - 1) == Val(b, v, n - 2) + v[n - 2] * p;
    Assoc(v[n - 1], b, p);
    Distrib(v[n - 1] * b, v[n - 2], p);
  }

  lemma LeadThree(b: nat, u: seq<nat>, top: nat)
    requires b > 0 && |u| >= 2 && IsDigits(b, u)
    ensures var p := Pow(b, |u| - 2);
            Num(b, u) + top * Pow(b, |u|)
            == ((top * b + u[|u| - 1]) * b + u[|u| - 2]) * p + Val(b, u, |u| - 2)
  {
    var n := |u|;
    var p := Pow(b, n - 2);
    LeadTwo(b, u);
    assert Pow(b, n) == b * (b * p);
    calc {
      ((top * b + u[n - 1]) * b + u[n - 2]) * p;
      { Distrib(top * b, u[n - 1], b); }
      ((top * b) * b + (u[n - 1] * b + u[n - 2])) * p;
      { Distrib((top * b) * b, u[n - 1] * b + u[n - 2], p); }
      ((top * b) * b) * p + (u[n - 1] * b + u[n - 2]) * p;
      { Assoc(top * b, b, p); Assoc(top, b, b * p); }
      top * (b * (b * p)) + (u[n - 1] * b + u[n - 2]) * p;
    }
  }

  /** From `q in {t, t+1}`: what the multiply-subtract leaves behind and when to add back. */
  lemma AfterSubtract(w: int, v: int, q: int, t: int, win: int, borrow: int, top: int, p: int)
    requires 0 < v < p && t * v <= w < (t + 1) * v && t <= q <= t + 1
    requires 0 <= win < p && win + q * v == w - top * p + borrow * p
    ensures q == t ==> borrow == top && win == w - t * v
    ensures q == t + 1 ==> borrow == top + 1 && win + v == w - t * v + p
  {
    Distrib(t, 1, v);
    Distrib(borrow, top, p);
    var k := borrow - top;
    if q == t {
      if k > 0 { MulMono(1, k, p); }
      if k < 0 { MulMono(k, -1, p); }
    } else {
      if k > 1 { MulMono(2, k, p); }
      if k < 1 { MulMono(k, 0, p); }
    }
  }

  /** Replaces the `n+1`-digit number formed by `top` and the window at `j` by its remainder. */
  method DivStep(b: nat, a: array<nat>, j: nat, v: seq<nat>, top: nat)
    requires b >= 2 && |v| >= 2 && IsDigits(b, v) && 2 * v[|v| - 1] >= b
    requires j + |v| <= a.Length && IsDigits(b, a[..]) && top < b
    requires Num(b, Window(a[..], j, |v|)) + top * Pow(b, |v|) < Num(b, v) * b
    modifies a
    ensures IsDigits(b, a[..]) && Num(b, v) > 0
    ensures forall l :: 0 <= l < a.Length && !(j <= l < j + |v|) ==> a[l] == old(a[l])
    ensures Num(b, Window(a[..], j, |v|))
         == (old(Num(b, Window(a[..], j, |v|))) + top * Pow(b, |v|)) % Num(b, v)
  {
    var n := |v|;
    ghost var u := Window(a[..], j, n);
    ghost var V: nat, W: nat := Num(b, v), Num(b, u) + top * Pow(b, n);
    var q := TrialDigit(b, a, j, v, top, V, W);
    SubtractMultiple(b, a, j, v, top, q, V, W);
  }

  /** The trial quotient of the window: the true digit or one more. */
  method TrialDigit(b: nat, a: array<nat>, j: nat, v: seq<nat>, top: nat, ghost V: nat, ghost W: nat) returns (q: nat)
    requires b >= 2 && |v| >= 2 && IsDigits(b, v) && 2 * v[|v| - 1] >= b
    requires j + |v| <= a.Length && IsDigits(b, a[..]) && top < b
    requires V == Num(b, v) && W == Num(b, Window(a[..], j, |v|)) + top * Pow(b, |v|) && W < V * b
    ensures q < b && V > 0 && W / V <= q <= W / V + 1
  {
    var n := |v|;
    ghost var u := Window(a[..], j, n);
    TopDigitBound(b, v, u, top);
    ghost var v12, u12, u123 := LeadingDigits(b, v[n - 1], v[n - 2], top, u[n - 1], u[n - 2]);
    q := TrialQuotient(b, top, a[j + n - 1], a[j + n - 2], v[n - 1], v[n - 2], v12, u12, u123);
    TrialIsClose(b, v, u, top, q, v12, u123, V, W);
  }

  lemma LeadingDigits(b: nat, v1: nat, v2: nat, u1: nat, u2: nat, u3: nat) returns (v12: nat, u12: nat, u123: nat)
    ensures v12 == v1 * b + v2 && u12 == u1 * b + u2 && u123 == u12 * b + u3 && u123 == (u1 * b + u2) * b + u3
  {
    MulPos(v1, b);
    MulPos(u1, b);
    v12, u12 := v1 * b + v2, u1 * b + u2;
    MulPos(u12, b);
    u123 := u12 * b + u3;
  }

  /** Multiply, subtract, and add back once if the trial quotient was one too large. */
  method SubtractMultiple(b: nat, a: array<nat>, j: nat, v: seq<nat>, top: nat, q: nat, ghost V: nat, ghost W: nat)
    requires b >= 2 && |v| >= 2 && IsDigits(b, v) && j + |v| <= a.Length && IsDigits(b, a[..]) && q < b
    requires V == Num(b, v) > 0 && W == Num(b, Window(a[..], j, |v|)) + top * Pow(b, |v|) && W / V <= q <= W / V + 1
    modifies a
    ensures IsDigits(b, a[..]) && Num(b, Window(a[..], j, |v|)) == W % V
    ensures forall l :: 0 <= l < a.Length && !(j <= l < j + |v|) ==> a[l] == old(a[l])
  {
    var n := |v|;
    ghost var t := W / V;
    DivModDef(W, V);
    Distrib(t, 1, V);
    ValBound(b, v, n);
    var borrow := InPlaceMulSub(b, a, j, v, q);
    ghost var w1 := Window(a[..], j, n);
    ValBound(b, w1, n);
    AfterSubtract(W, V, q, t, Num(b, w1), borrow, top, Pow(b, n));
    if borrow > top {
      var carry := InPlaceAdd(b, a, j, v);
      ValBound(b, Window(a[..], j, n), n);
      assert carry;
    }
  }

  lemma TopDigitBound(b: nat, v: seq<nat>, u: seq<nat>, top: nat)
    requires b >= 2 && |v| >= 1 && |u| == |v| && IsDigits(b, v)
    requires Num(b, u) + top * Pow(b, |v|) < Num(b, v) * b
    ensures top <= v[|v| - 1]
  {
    var n := |v|;
    var p := Pow(b, n - 1);
    ValBound(b, v, n - 1);
    Distrib(v[n - 1], 1, p);
    MulMono(Num(b, v), (v[n - 1] + 1) * p, b);
    Assoc(v[n - 1] + 1, p, b);
    MulCancelLt(top, v[n - 1] + 1, Pow(b, n));
  }

  lemma TrialIsClose(b: nat, v: seq<nat>, u: seq<nat>, top: nat, q: nat, v12: nat, u123: nat, V: nat, W: nat)
    requires b >= 2 && |v| >= 2 && |u| == |v| && IsDigits(b, v) && IsDigits(b, u) && 2 * v[|v| - 1] >= b
    requires V == Num(b, v) && W == Num(b, u) + top * Pow(b, |v|) && W < V * b
    requires v12 == v[|v| - 1] * b + v[|v| - 2] && u123 == (top * b + u[|v| - 1]) * b + u[|v| - 2]
    requires q < b && q * v12 <= u123 && (q == b - 1 || (q + 1) * v12 > u123)
    ensures V > 0 && W / V <= q <= W / V + 1
  {
    var n := |v|;
    var p, lowV, lowW := Pow(b, n - 2), Val(b, v, n - 2), Val(b, u, n - 2);
    assert V == v12 * p + lowV && lowV < p by { LeadTwo(b, v); }
    assert W == u123 * p + lowW by { LeadThree(b, u, top); }
    assert lowW < p by { ValBound(b, u, n - 2); }
    assert v12 >= b by { MulMono(1, v[n - 1], b); }
    CloseValues(b, p, v12, lowV, u123, lowW, q, V, W);
  }

  lemma CloseValues(b: nat, p: nat, v12: nat, lowV: nat, u123: nat, lowW: nat, q: nat, V: nat, W: nat)
    requires b >= 2 && lowV < p && lowW < p && v12 >= b && q < b
    requires V == v12 * p + lowV && W == u123 * p + lowW && W < V * b
    requires q * v12 <= u123 && (q == b - 1 || (q + 1) * v12 > u123)
    ensures V > 0 && W / V <= q <= W / V + 1
  {
    assert V > 0 by { MulMonoStrict(0, v12, p); }
    TrueQuotient(W, V, b);
    QuotientBounds(b, p, v12, lowV, u123, lowW, q, W / V);
  }

  lemma TrueQuotient(w: nat, v: nat, b: nat)
    requires v > 0 && w < v * b
    ensures 0 <= w / v < b && (w / v) * v <= w < (w / v + 1) * v
  {
    DivModDef(w, v);
    Distrib(w / v, 1, v);
    if w / v >= b { MulMono(b, w / v, v); }
  }

  //// The whole division

  /** The remainder found so far: `n - 1` digits at `j` below the digit held in `top`. */
  ghost function Partial(b: nat, a: seq<nat>, j: nat, n: nat, top: nat): (r: nat)
    requires n >= 1 && j + n - 1 <= |a|
  {
    MulPos(top, Pow(b, n - 1));
    Num(b, Window(a, j, n - 1)) + top * Pow(b, n - 1)
  }

  /** Bringing down digit `j`. */
  lemma BringDown(b: nat, a: seq<nat>, j: nat, n: nat, top: nat)
    requires n >= 1 && j + n <= |a|
    ensures Num(b, Window(a, j, n)) + top * Pow(b, n) == a[j] + b * Partial(b, a, j + 1, n, top)
  {
    var u, u' := Window(a, j, n), Window(a, j + 1, n - 1);
    NumCons(b, u);
    assert u[1..] == u' && u[0] == a[j];
    var low, p := Num(b, u'), Pow(b, n - 1);
    assert Pow(b, n) == b * p;
    BringDownValue(b, a[j], low, top, p);
    assert Partial(b, a, j + 1, n, top) == low + top * p;
  }

  lemma BringDownValue(b: int, d: int, low: int, top: int, p: int)
    ensures (d + b * low) + top * (b * p) == d + b * (low + top * p)
  {
    Distrib(low, top * p, b);
    Swap(top, b, p);
  }

  lemma PopTop(b: nat, a: seq<nat>, j: nat, n: nat)
    requires n >= 1 && j + n <= |a|
    ensures Partial(b, a, j, n, a[j + n - 1]) == Num(b, Window(a, j, n))
  {
    var u := Window(a, j, n);
    ValSame(b, u, Window(a, j, n - 1), n - 1);
  }

  lemma StepCong(low: int, p: int, d: int, b: int, r: int, w: int, r': int, v: int)
    requires v > 0 && w == d + b * r && r' == w % v
    ensures (low + d * p + (b * p) * r) % v == (low + p * r') % v
  {
    DivModDef(w, v);
    calc {
      low + d * p + (b * p) * r;
      { Assoc(p, b, r); Distrib(d, b * r, p); }
      low + p * w;
      { Distrib((w / v) * v, r', p); Assoc(p, w / v, v); }
      low + p * r' + (p * (w / v)) * v;
    }
    CongIntro(low + d * p + (b * p) * r, low + p * r', p * (w / v), v);
  }

  /** With the digits from `j` on divided, the remainder and the digits below still stand for `U` modulo `V`. */
  ghost predicate Remaining(b: nat, a: seq<nat>, j: nat, n: nat, top: nat, V: nat, U: nat) {
    && n >= 1 && V > 0 && j + n - 1 <= |a| && Partial(b, a, j, n, top) < V
    && (Val(b, a, j) + Pow(b, j) * Partial(b, a, j, n, top)) % V == U % V
  }

  /** Divides the `n + m` digits in `a` by `v`; the remainder is `top` followed by the low `n - 1` words. */
  method DivideNormalized(b: nat, a: array<nat>, len: nat, v: seq<nat>) returns (top: nat)
    requires b >= 2 && |v| >= 2 && IsDigits(b, v) && 2 * v[|v| - 1] >= b
    requires |v| <= len <= a.Length && IsDigits(b, a[..])
    modifies a
    ensures IsDigits(b, a[..]) && top < b && Num(b, v) > 0
    ensures Partial(b, a[..], 0, |v|, top) == old(Val(b, a[..], len)) % Num(b, v)
  {
    var n := |v|;
    ghost var V, U := Num(b, v), Val(b, a[..], len);
    ValTop(b, v, n);
    top := 0;
    var j := len - n + 1;
    StartDivision(b, a[..], len, v);
    while j > 0
      invariant 0 <= j <= len - n + 1 && top < b && IsDigits(b, a[..])
      invariant Remaining(b, a[..], j, n, top, V, U)
    {
      j := j - 1;
      top := DivideDigit(b, a, j, v, top, V, U);
    }
    EndDivision(b, a[..], n, top, V, U);
  }

  lemma EndDivision(b: nat, a: seq<nat>, n: nat, top: nat, V: nat, U: nat)
    requires Remaining(b, a, 0, n, top, V, U)
    ensures Partial(b, a, 0, n, top) == U % V
  {
    assert Val(b, a, 0) + Pow(b, 0) * Partial(b, a, 0, n, top) == Partial(b, a, 0, n, top);
    ModSmall(Partial(b, a, 0, n, top), V);
  }

  method DivideDigit(b: nat, a: array<nat>, j: nat, v: seq<nat>, top: nat, ghost V: nat,
                     ghost U: nat) returns (top': nat)
    requires b >= 2 && |v| >= 2 && IsDigits(b, v) && 2 * v[|v| - 1] >= b && V == Num(b, v)
    requires j + |v| <= a.Length && IsDigits(b, a[..]) && top < b && Remaining(b, a[..], j + 1, |v|, top, V, U)
    modifies a
    ensures IsDigits(b, a[..]) && top' < b && Remaining(b, a[..], j, |v|, top', V, U)
  {
    var n := |v|;
    ghost var before := a[..];
    ghost var r := Partial(b, before, j + 1, n, top);
    BringDown(b, before, j, n, top);
    DigitRoom(before[j], b, r, V);
    DivStep(b, a, j, v, top);
    NextDigit(b, before, a[..], j, n, V, U, r, before[j] + b * r);
    top' := a[j + n - 1];
  }

  lemma DigitRoom(d: nat, b: nat, r: nat, V: nat)
    requires d < b && r < V
    ensures d + b * r < V * b
  {
    MulMono(r + 1, V, b);
    Distrib(r, 1, b);
  }

  /** One digit further, the remainder stays congruent to the dividend. */
  lemma NextDigit(b: nat, before: seq<nat>, now: seq<nat>, j: nat, n: nat, V: nat, U: nat, r: nat, W: nat)
    requires b > 0 && n >= 1 && j + n <= |before| == |now| && V > 0 && before[..j] == now[..j]
    requires W == before[j] + b * r && Num(b, Window(now, j, n)) == W % V
    requires (Val(b, before, j + 1) + Pow(b, j + 1) * r) % V == U % V
    ensures Remaining(b, now, j, n, now[j + n - 1], V, U)
  {
    DivModDef(W, V);
    PopTop(b, now, j, n);
    assert forall i :: 0 <= i < j ==> before[i] == before[..j][i] && now[i] == now[..j][i];
    ValSame(b, before, now, j);
    StepCong(Val(b, before, j), Pow(b, j), before[j], b, r, W, W % V, V);
  }

  lemma StartDivision(b: nat, a: seq<nat>, len: nat, v: seq<nat>)
    requires b >= 2 && |v| >= 2 && IsDigits(b, v) && v[|v| - 1] > 0
    requires |v| <= len <= |a| && IsDigits(b, a)
    ensures Remaining(b, a, len - |v| + 1, |v|, 0, Num(b, v), Val(b, a, len))
  {
    var n := |v|;
    var j := len - n + 1;
    var u := Window(a, j, n - 1);
    assert Partial(b, a, j, n, 0) == Num(b, u);
    assert Num(b, u) < Num(b, v) by { ValTop(b, v, n); ValBound(b, u, n - 1); }
    assert Val(b, a, len) == Val(b, a, j) + Pow(b, j) * Num(b, u) by {
      ValSplit(b, a, j, n - 1);
      ValSame(b, a[j..], u, n - 1);
    }
  }
}
