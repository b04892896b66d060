/** Multi-precision naturals: little-endian digit sequences in base `b`, their values,
    and the integer facts that the word-level algorithms rest on. */
module Digits {

  //// Powers

  function Pow(b: nat, e: nat): (p: nat)
    ensures b > 0 ==> p > 0
  {
    if e == 0 then 1 else MulPos(b, Pow(b, e - 1)); b * Pow(b, e - 1)
  }

  lemma MulPos(a: nat, c: nat)
    ensures a * c >= 0
    ensures a > 0 && c > 0 ==> a * c > 0
  {}

  lemma {:induction false} PowAdd(b: nat, d: nat, e: nat)
    ensures Pow(b, d + e) == Pow(b, d) * Pow(b, e)
  {
    if d != 0 {
      PowAdd(b, d - 1, e);
      assert d + e - 1 == (d - 1) + e;
      Assoc(b, Pow(b, d - 1), Pow(b, e));
    }
  }

  lemma PowOne(b: nat)
    ensures Pow(b, 1) == b
  {
    assert Pow(b, 0) == 1;
  }

  lemma {:induction false} PowMono(b: nat, d: nat, e: nat)
    requires b > 0 && d <= e
    ensures Pow(b, d) <= Pow(b, e)
  {
    PowAdd(b, d, e - d);
    MulMono(1, Pow(b, e - d), Pow(b, d));
  }

  lemma {:induction false} PowMul(b: nat, d: nat, e: nat)
    ensures Pow(Pow(b, d), e) == Pow(b, d * e)
  {
    if e != 0 {
      PowMul(b, d, e - 1);
      assert d * e == d + d * (e - 1);
      MulPos(d, e - 1);
      PowAdd(b, d, d * (e - 1));
    } else {
      assert d * e == 0;
    }
  }

  //// Small ring facts, stated one at a time so that the solver only ever sees what it needs

  lemma Assoc(x: int, y: int, z: int)
    ensures (x * y) * z == x * (y * z)
  {}

  lemma Commute(x: int, y: int)
    ensures x * y == y * x
  {}

  lemma Swap(x: int, y: int, z: int)
    ensures x * (y * z) == y * (x * z)
  {}

  lemma Distrib(x: int, y: int, z: int)
    ensures (x + y) * z == x * z + y * z
    ensures z * (x + y) == z * x + z * y
    ensures (x - y) * z == x * z - y * z
    ensures z * (x - y) == z * x - z * y
  {}

  lemma NegMul(x: int, y: int)
    ensures (-x) * y == -(x * y)
  {}

  lemma MulMono(x: int, y: int, z: int)
    requires x <= y && z >= 0
    ensures x * z <= y * z
    ensures z * x <= z * y
  {}

  lemma MulMonoStrict(x: int, y: int, z: int)
    requires x < y && z > 0
    ensures x * z < y * z
    ensures z * x < z * y
  {
    MulMono(x + 1, y, z);
    Distrib(x, 1, z);
  }

  /** Cancelling a positive factor from an inequality. */
  lemma MulCancelLt(x: int, y: int, z: int)
    requires x * z < y * z && z > 0
    ensures x < y
  {
    if x >= y { MulMono(y, x, z); }
  }

  lemma MulCancelEq(x: int, y: int, z: int)
    requires x * z == y * z && z > 0
    ensures x == y
  {
    if x < y { MulMonoStrict(x, y, z); }
    if y < x { MulMonoStrict(y, x, z); }
  }

  //// Quotient and remainder

  lemma DivModUnique(a: int, n: int, q: int, r: int)
    requires n > 0 && a == q * n + r && 0 <= r < n
    ensures a / n == q && a % n == r
  {
    var q' := a / n;
    var r' := a % n;
    assert a == n * q' + r' && 0 <= r' < n;
    assert (q - q') * n == r' - r by { Distrib(q, q', n); }
    if q > q' { MulMono(1, q - q', n); }
    if q < q' { MulMono(q - q', -1, n); }
  }

  lemma DivModDef(a: int, n: int)
    requires n > 0
    ensures a == (a / n) * n + a % n && 0 <= a % n < n
    ensures a >= 0 ==> 0 <= a / n <= a
  {
    if a / n < 0 { MulMono(a / n, -1, n); }
    if a / n > 0 { MulMono(1, n, a / n); }
  }

  lemma ModShift(a: int, k: int, n: int)
    requires n > 0
    ensures (a + k * n) % n == a % n
  {
    DivModDef(a, n);
    Distrib(a / n, k, n);
    DivModUnique(a + k * n, n, a / n + k, a % n);
  }

  /** Two numbers differing by a multiple of `n` have the same residue, and conversely. */
  lemma CongIntro(a: int, c: int, k: int, n: int)
    requires n > 0 && a == c + k * n
    ensures a % n == c % n
  {
    ModShift(c, k, n);
  }

  lemma CongElim(a: int, c: int, n: int) returns (k: int)
    requires n > 0 && a % n == c % n
    ensures a == c + k * n
  {
    DivModDef(a, n);
    DivModDef(c, n);
    k := a / n - c / n;
    Distrib(a / n, c / n, n);
  }

  lemma CongMul(a: int, c: int, d: int, e: int, n: int)
    requires n > 0 && a % n == c % n && d % n == e % n
    ensures (a * d) % n == (c * e) % n
  {
    var k := CongElim(a, c, n);
    var l := CongElim(d, e, n);
    calc {
      a * d;
      { Distrib(c, k * n, d); }
      c * d + (k * n) * d;
      { Distrib(e, l * n, c); }
      c * e + c * (l * n) + (k * n) * d;
      { Assoc(c, l, n); Assoc(k, n, d); Assoc(k, d, n); }
      c * e + (c * l) * n + (k * d) * n;
      { Distrib(c * l, k * d, n); }
      c * e + (c * l + k * d) * n;
    }
    CongIntro(a * d, c * e, c * l + k * d, n);
  }

  lemma CongAdd(a: int, c: int, d: int, e: int, n: int)
    requires n > 0 && a % n == c % n && d % n == e % n
    ensures (a + d) % n == (c + e) % n
    ensures (a - d) % n == (c - e) % n
  {
    var k := CongElim(a, c, n);
    var l := CongElim(d, e, n);
    Distrib(k, l, n);
    CongIntro(a + d, c + e, k + l, n);
    CongIntro(a - d, c - e, k - l, n);
  }

  lemma ModSmall(a: int, n: int)
    requires 0 <= a < n
    ensures a % n == a && a / n == 0
  {
    DivModUnique(a, n, 0, a);
  }

  lemma ModMod(a: int, n: int)
    requires n > 0
    ensures (a % n) % n == a % n
  {
    DivModDef(a, n);
    ModSmall(a % n, n);
  }

  //// Digit sequences

  predicate IsDigits(b: nat, s: seq<nat>) {
    forall i :: 0 <= i < |s| ==> s[i] < b
  }

  /** Digit `i` of `s`; positions past the end read as zero. */
  function Get(s: seq<nat>, i: nat): (d: nat)
  {
    if i < |s| then s[i] else 0
  }

  /** Value of the `k` least significant digits of `s`. */
  function Val(b: nat, s: seq<nat>, k: nat): (v: nat)
  {
    if k == 0 then 0
    else
      MulPos(Get(s, k - 1), Pow(b, k - 1));
      Val(b, s, k - 1) + Get(s, k - 1) * Pow(b, k - 1)
  }

  /** Value of the whole sequence. */
  function Num(b: nat, s: seq<nat>): (v: nat)
  {
    Val(b, s, |s|)
  }

  lemma {:induction false} ValBound(b: nat, s: seq<nat>, k: nat)
    requires b > 0 && IsDigits(b, s)
    ensures Val(b, s, k) < Pow(b, k)
  {
    if k != 0 {
      ValBound(b, s, k - 1);
      MulMono(Get(s, k - 1), b - 1, Pow(b, k - 1));
      Distrib(b, 1, Pow(b, k - 1));
    }
  }

  lemma {:induction false} ValMono(b: nat, s: seq<nat>, j: nat, k: nat)
    requires j <= k
    ensures Val(b, s, j) <= Val(b, s, k)
  {
    if j < k {
      ValMono(b, s, j, k - 1);
      MulPos(Get(s, k - 1), Pow(b, k - 1));
    }
  }

  /** The value only depends on the digits it reads. */
  lemma {:induction false} ValSame(b: nat, s: seq<nat>, t: seq<nat>, k: nat)
    requires forall i :: 0 <= i < k ==> Get(s, i) == Get(t, i)
    ensures Val(b, s, k) == Val(b, t, k)
  {
    if k != 0 { ValSame(b, s, t, k - 1); }
  }

  /** Leading zeros add nothing. */
  lemma {:induction false} ValPad(b: nat, s: seq<nat>, k: nat)
    requires k >= |s|
    ensures Val(b, s, k) == Num(b, s)
  {
    if k > |s| { ValPad(b, s, k - 1); }
  }

  /** Writing one digit moves the value by that digit's weight. */
  lemma {:induction false} ValSet(b: nat, s: seq<nat>, j: nat, d: nat, k: nat)
    requires j < |s|
    ensures k <= j ==> Val(b, s[j := d], k) == Val(b, s, k)
    ensures k > j ==> Val(b, s[j := d], k) == Val(b, s, k) + (d - s[j]) * Pow(b, j)
  {
    if k != 0 {
      ValSet(b, s, j, d, k - 1);
      if k - 1 == j { Distrib(d, s[j], Pow(b, j)); }
    }
  }

  lemma {:induction false} ValZero(b: nat, s: seq<nat>, k: nat)
    requires forall i :: 0 <= i < k ==> Get(s, i) == 0
    ensures Val(b, s, k) == 0
  {
    if k != 0 { ValZero(b, s, k - 1); }
  }

  /** Conversely, a zero value has only zero digits. */
  lemma {:induction false} ValZeroInv(b: nat, s: seq<nat>, k: nat)
    requires b > 0 && Val(b, s, k) == 0
    ensures forall i :: 0 <= i < k ==> Get(s, i) == 0
  {
    if k != 0 {
      MulPos(Get(s, k - 1), Pow(b, k - 1));
      ValZeroInv(b, s, k - 1);
    }
  }

  /** Splitting a number into its low `j` digits and the digits above them. */
  lemma {:induction false} ValSplit(b: nat, s: seq<nat>, j: nat, k: nat)
    requires j <= |s|
    ensures Val(b, s, j + k) == Val(b, s, j) + Pow(b, j) * Val(b, s[j..], k)
  {
    if k == 0 {
      assert Pow(b, j) * Val(b, s[j..], k) == 0;
    } else {
      ValSplit(b, s, j, k - 1);
      var d := Get(s, j + k - 1);
      assert d == Get(s[j..], k - 1);
      PowAdd(b, j, k - 1);
      Swap(d, Pow(b, j), Pow(b, k - 1));
      Distrib(Val(b, s[j..], k - 1), d * Pow(b, k - 1), Pow(b, j));
    }
  }

  lemma NumCons(b: nat, s: seq<nat>)
    requires |s| > 0
    ensures Num(b, s) == s[0] + b * Num(b, s[1..])
  {
    ValSplit(b, s, 1, |s| - 1);
    PowOne(b);
    assert Val(b, s, 1) == Val(b, s, 0) + s[0] * Pow(b, 0);
  }

  /** A number with a nonzero top digit is at least that digit's weight. */
  lemma ValTop(b: nat, s: seq<nat>, k: nat)
    requires b > 0 && k > 0 && Get(s, k - 1) > 0
    ensures Val(b, s, k) >= Pow(b, k - 1)
  {
    MulMono(1, Get(s, k - 1), Pow(b, k - 1));
  }

  /** If the value fits in `j` digits, the digits above are zero. */
  lemma {:induction false} ValFits(b: nat, s: seq<nat>, j: nat, k: nat)
    requires b > 0 && j <= k && Val(b, s, k) < Pow(b, j)
    ensures forall i :: j <= i < k ==> Get(s, i) == 0
    ensures Val(b, s, j) == Val(b, s, k)
  {
    if j < k {
      PowMono(b, j, k - 1);
      if Get(s, k - 1) > 0 { ValTop(b, s, k); assert false; }
      ValFits(b, s, j, k - 1);
    }
  }

  /** Digit sequences of equal length with equal values are equal. */
  lemma {:induction false} ValInjective(b: nat, s: seq<nat>, t: seq<nat>, k: nat)
    requires b > 0 && IsDigits(b, s) && IsDigits(b, t) && Val(b, s, k) == Val(b, t, k)
    ensures forall i :: 0 <= i < k ==> Get(s, i) == Get(t, i)
  {
    if k != 0 {
      var p := Pow(b, k - 1);
      ValBound(b, s, k - 1);
      ValBound(b, t, k - 1);
      DivModUnique(Val(b, s, k), p, Get(s, k - 1), Val(b, s, k - 1));
      DivModUnique(Val(b, t, k), p, Get(t, k - 1), Val(b, t, k - 1));
      ValInjective(b, s, t, k - 1);
    }
  }
}
