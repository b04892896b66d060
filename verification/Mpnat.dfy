/** `MPNat`: a growable multi-precision natural, reduced in place modulo another. */
module MultiPrecision {
  import opened Digits
  import opened Words
  import opened InPlace
  import opened LongDivision

  /** Number of zero bits above the leading one of a nonzero word. */
  function LeadingZeros(w: nat, d: nat): (z: nat)
    requires w > 0 && 0 < d < Pow(2, w)
    ensures z < w && d * Pow(2, z) < Pow(2, w) <= 2 * (d * Pow(2, z))
    decreases Pow(2, w) - d
  {
    if 2 * d >= Pow(2, w) then 0
    else
      var z := LeadingZeros(w, 2 * d);
      Assoc(2, d, Pow(2, z));
      Swap(2, d, Pow(2, z));
      LeadingZerosBound(w, d, z + 1);
      z + 1
  }

  lemma LeadingZerosBound(w: nat, d: nat, z: nat)
    requires d > 0 && d * Pow(2, z) < Pow(2, w)
    ensures z < w
  {
    MulMono(1, d, Pow(2, z));
    if z >= w { PowMono(2, w, z); }
  }

  lemma PopZero(b: nat, s: seq<nat>)
    requires |s| > 0 && s[|s| - 1] == 0
    ensures Num(b, s[..|s| - 1]) == Num(b, s)
  {
    ValSame(b, s, s[..|s| - 1], |s| - 1);
  }

  lemma NumAppend(b: nat, s: seq<nat>, d: nat)
    ensures Num(b, s + [d]) == Num(b, s) + d * Pow(b, |s|)
  {
    ValSame(b, s, s + [d], |s|);
  }

  /** Dividing a shifted number by a shifted modulus: the remainder unshifts exactly. */
  lemma Unshift(x: nat, r: nat, n: nat, f: nat)
    requires n > 0 && f > 0 && n * f > 0 && r % (n * f) == (x * f) % (n * f)
    ensures (r / f) % n == x % n
  {
    var k := CongElim(r, x * f, n * f);
    Assoc(k, n, f);
    Distrib(x, k * n, f);
    assert r == (x + k * n) * f;
    DivModUnique(r, f, x + k * n, 0);
    CongIntro(x + k * n, x, k, n);
  }

  class MPNat {
    var digits: seq<nat>

    constructor (ds: seq<nat>)
      ensures digits == ds
    {
      digits := ds;
    }

    /** Resizes to `k` digits, dropping high digits or adding zeros: reduction modulo `b^k`. */
    method ForceSameSize(b: nat, k: nat)
      requires b >= 2 && IsDigits(b, digits)
      modifies this
      ensures |digits| == k && IsDigits(b, digits)
      ensures Num(b, digits) == old(Num(b, digits)) % Pow(b, k)
    {
      ghost var before := digits;
      if |digits| < k {
        digits := digits + seq(k - |digits|, _ => 0);
      } else {
        digits := digits[..k];
      }
      ValSame(b, before, digits, k);
      ValBound(b, digits, k);
      if |before| >= k {
        ValSplit(b, before, k, |before| - k);
        DivModUnique(Num(b, before), Pow(b, k), Val(b, before[k..], |before| - k), Num(b, digits));
      } else {
        ValPad(b, before, k);
        ModSmall(Num(b, digits), Pow(b, k));
      }
    }

    method StripLeadingZeros(b: nat)
      requires |digits| > 0 && IsDigits(b, digits)
      modifies this
      ensures 0 < |digits| <= old(|digits|) && IsDigits(b, digits)
      ensures |digits| > 1 ==> digits[|digits| - 1] != 0
      ensures Num(b, digits) == old(Num(b, digits))
    {
      while |digits| > 1 && digits[|digits| - 1] == 0
        invariant 0 < |digits| <= old(|digits|) && IsDigits(b, digits)
        invariant Num(b, digits) == old(Num(b, digits))
        decreases |digits|
      {
        PopZero(b, digits);
        digits := digits[..|digits| - 1];
      }
    }

    /** `sub_to_same_size`: brings `self` down to at most as many digits as `other`, keeping its residue modulo
        `other`; what had more digits becomes the remainder. */
    method SubToSameSize(w: nat, other: seq<nat>)
      requires w >= 2 && |digits| > 0 && IsDigits(Pow(2, w), digits)
      requires |other| > 0 && IsDigits(Pow(2, w), other) && other[|other| - 1] > 0
      modifies this
      ensures 0 < |digits| <= |other| && IsDigits(Pow(2, w), digits)
      ensures Num(Pow(2, w), other) > 0
      ensures Num(Pow(2, w), digits) % Num(Pow(2, w), other)
           == old(Num(Pow(2, w), digits)) % Num(Pow(2, w), other)
      ensures old(Num(Pow(2, w), digits)) >= Pow(Pow(2, w), |other|) ==> Num(Pow(2, w), digits) < Num(Pow(2, w), other)
      decreases if 2 * other[|other| - 1] < Pow(2, w) then 1 else 0, 0
    {
      var b := Pow(2, w);
      PowMono(2, 1, w);
      PowOne(2);
      ValTop(b, other, |other|);
      StripLeadingZeros(b);
      var n := |other|;
      if |digits| <= n {
        ValBound(b, digits, |digits|);
        PowMono(b, |digits|, n);
        return;
      }
      if |digits| == 2 {
        var a := JoinAsDouble(b, digits[1], digits[0]);
        TwoDigits(b, digits);
        OneDigitNum(b, other);
        ModMod(a, other[0]);
        DivModDef(a, other[n - 1]);
        digits := [a % other[n - 1]];
        OneDigitNum(b, digits);
        return;
      }
      if n == 1 {
        DivideByDigit(b, other[0]);
        OneDigitNum(b, other);
        OneDigitNum(b, digits);
        return;
      }
      var shift := LeadingZeros(w, other[n - 1]);
      ghost var X := Num(b, digits);
      ModMod(X, Num(b, other));
      if shift > 0 {
        PowAdd(2, shift, w - shift);
        ValTop(b, digits, |digits|);
        PowMono(b, n, |digits| - 1);
        Normalize(w, b, Pow(2, shift), Pow(2, w - shift), other);
        return;
      }
      DivideLong(b, other);
    }

    /** Long division by a divisor whose top bit is set. */
    method DivideLong(b: nat, other: seq<nat>)
      requires b >= 2 && IsDigits(b, digits) && |digits| > |other| >= 2 && IsDigits(b, other)
      requires 2 * other[|other| - 1] >= b && Num(b, other) > 0
      modifies this
      ensures |digits| == |other| && IsDigits(b, digits)
      ensures Num(b, digits) == old(Num(b, digits)) % Num(b, other) < Num(b, other)
    {
      var a := CopyOf(digits);
      var top := DivideNormalized(b, a, |digits|, other);
      digits := a[..|other| - 1] + [top];
      assert a[..|other| - 1] == Window(a[..], 0, |other| - 1);
      NumAppend(b, a[..|other| - 1], top);
    }

    /** Long division by a one-digit divisor, popping the top digit each time. */
    method DivideByDigit(b: nat, o: nat)
      requires b >= 2 && |digits| >= 2 && IsDigits(b, digits) && 0 < o < b
      modifies this
      ensures |digits| == 1 && IsDigits(b, digits) && digits[0] < o
      ensures Num(b, digits) % o == old(Num(b, digits)) % o
    {
      var j := |digits| - 1;
      while j > 0
        invariant 0 <= j && |digits| == j + 1 && IsDigits(b, digits) && (j < old(|digits|) - 1 ==> digits[j] < o)
        invariant Num(b, digits) % o == old(Num(b, digits)) % o
      {
        j := j - 1;
        var most := digits[j + 1];
        var r := JoinAsDouble(b, most, digits[j]) % o;
        DivModDef(JoinAsDouble(b, most, digits[j]), o);
        ReduceTop(b, digits, o);
        digits := digits[..j + 1][j := r];
      }
    }

    /** Scales both numbers by `f = 2^shift` so that the divisor's top bit is set, divides, and scales back. */
    method Normalize(w: nat, b: nat, f: nat, g: nat, other: seq<nat>)
      requires w >= 2 && b == Pow(2, w) && b == f * g && f > 0 && g > 0
      requires IsDigits(b, digits) && |digits| > |other| >= 2 && IsDigits(b, other)
      requires other[|other| - 1] * f < b <= 2 * (other[|other| - 1] * f) && Num(b, digits) >= Pow(b, |other|)
      modifies this
      ensures 0 < |digits| <= |other| && IsDigits(b, digits) && Num(b, other) > 0
      ensures Num(b, digits) % Num(b, other) == old(Num(b, digits)) % Num(b, other)
      ensures Num(b, digits) < Num(b, other)
      decreases 0, 1
    {
      var u, v := Normalized(b, f, g, digits, other);
      ghost var X, N := Num(b, digits), Num(b, other);
      digits := u;
      MulPos(N, f);
      MulMono(1, f, X);
      SubToSameSize(w, v);
      Unshift(X, Num(b, digits), N, f);
      QuotientBelow(Num(b, digits), N, f);
      digits := ShiftedDown(b, f, g, digits);
    }
  }

  lemma QuotientBelow(r: nat, n: nat, f: nat)
    requires f > 0 && r < n * f
    ensures r / f < n
  {
    DivModDef(r, f);
    if r / f >= n { MulMono(n, r / f, f); }
  }

  /** Both operands of a division scaled by `f`, which sets the divisor's top bit. */
  method Normalized(b: nat, f: nat, g: nat, x: seq<nat>, n: seq<nat>) returns (u: seq<nat>, v: seq<nat>)
    requires b == f * g && f > 0 && g > 0 && IsDigits(b, x) && IsDigits(b, n)
    requires |n| > 0 && n[|n| - 1] * f < b <= 2 * (n[|n| - 1] * f)
    ensures |u| == |x| + 1 && |v| == |n| && IsDigits(b, u) && IsDigits(b, v)
    ensures 2 * v[|v| - 1] >= b && Num(b, n) > 0
    ensures Num(b, u) == Num(b, x) * f
    ensures Num(b, v) == Num(b, n) * f
  {
    var shifted, overflow := ShiftedUp(b, f, g, x);
    MulMono(1, g, f);
    NumAppend(b, shifted, overflow);
    u := shifted + [overflow];
    var lost;
    v, lost := ShiftedUp(b, f, g, n);
    NormalizedTop(b, f, g, n, v, lost);
    ValTop(b, n, |n|);
  }

  /** A copy of `s` shifted left in place, and the bits shifted out. */
  method ShiftedUp(b: nat, f: nat, g: nat, s: seq<nat>) returns (t: seq<nat>, c: nat)
    requires b == f * g && f > 0 && g > 0 && IsDigits(b, s)
    ensures |t| == |s| && IsDigits(b, t) && c < f
    ensures Num(b, t) + c * Pow(b, |s|) == Num(b, s) * f
  {
    var a := CopyOf(s);
    Commute(f, Num(b, s));
    c := ShlWords(b, f, g, a, |s|);
    t := a[..];
  }

  method CopyOf(s: seq<nat>) returns (a: array<nat>)
    ensures fresh(a) && a[..] == s
  {
    a := new nat[|s|](i requires 0 <= i < |s| => s[i]);
    assert a[..] == s;
  }

  method ShiftedDown(b: nat, f: nat, g: nat, s: seq<nat>) returns (t: seq<nat>)
    requires b == f * g && f > 0 && g > 0 && IsDigits(b, s)
    ensures |t| == |s| && IsDigits(b, t)
    ensures Num(b, t) == Num(b, s) / f
  {
    var a := CopyOf(s);
    var _ := ShrWords(b, f, g, a, |s|);
    t := a[..];
  }

  lemma TwoDigits(b: nat, s: seq<nat>)
    requires |s| == 2
    ensures Num(b, s) == s[1] * b + s[0]
  {
    NumCons(b, s);
    OneDigitNum(b, s[1..]);
  }

  lemma OneDigitNum(b: nat, s: seq<nat>)
    requires |s| == 1
    ensures Num(b, s) == s[0]
  {
    assert Num(b, s) == Val(b, s, 0) + s[0] * Pow(b, 0);
  }

  /** Reducing the two top digits modulo `o` keeps the residue. */
  lemma ReduceTop(b: nat, s: seq<nat>, o: nat)
    requires b >= 2 && |s| >= 2 && IsDigits(b, s) && o > 0
    ensures var j := |s| - 2;
            var r := JoinAsDouble(b, s[j + 1], s[j]) % o;
            Num(b, s[..j + 1][j := r]) % o == Num(b, s) % o
  {
    var j := |s| - 2;
    var z := JoinAsDouble(b, s[j + 1], s[j]);
    var r := z % o;
    var t := s[..j + 1][j := r];
    var p := Pow(b, j);
    ValSame(b, s, t, j);
    assert Val(b, s, j + 1) == Val(b, s, j) + s[j] * p;
    assert Num(b, s) == Val(b, s, j + 1) + s[j + 1] * Pow(b, j + 1);
    Assoc(s[j + 1], b, p);
    Distrib(s[j + 1] * b, s[j], p);
    ModMod(z, o);
    CongMul(z, r, p, p, o);
    CongAdd(Val(b, s, j), Val(b, s, j), z * p, r * p, o);
  }

  /** The shifted divisor has the same size, no overflow, and its top bit set. */
  lemma NormalizedTop(b: nat, f: nat, g: nat, other: seq<nat>, o: seq<nat>, overflow: nat)
    requires b == f * g && f > 0 && g > 0 && |o| == |other| > 0 && IsDigits(b, other) && IsDigits(b, o)
    requires Num(b, o) + overflow * Pow(b, |o|) == Num(b, other) * f
    requires other[|other| - 1] * f < b <= 2 * (other[|other| - 1] * f)
    ensures overflow == 0 && 2 * o[|o| - 1] >= b
    ensures Num(b, o) == Num(b, other) * f
  {
    var n := |o|;
    var p, low, low' := Pow(b, n - 1), Val(b, other, n - 1), Val(b, o, n - 1);
    assert low < p && low' < p by { ValBound(b, other, n - 1); ValBound(b, o, n - 1); }
    ScaledTop(b, f, g, other[n - 1], low, o[n - 1], low', overflow, p, Num(b, other), Num(b, o), Pow(b, n));
  }

  lemma ScaledTop(b: nat, f: nat, g: nat, d: nat, low: nat, e: nat, low': nat, c: nat, p: nat, x: int, y: int, q: int)
    requires b == f * g && f > 0 && g > 0 && low < p && low' < p && e < b
    requires x == low + d * p && y == low' + e * p && q == b * p && y + c * q == x * f
    requires d * f < b <= 2 * (d * f)
    ensures c == 0 && 2 * e >= b && y == x * f
  {
    assert x * f == low * f + (d * f) * p by { Distrib(low, d * p, f); Assoc(f, d, p); Commute(d, f); Commute(f, d * p); }
    assert low * f < p * f by { MulMonoStrict(low, p, f); }
    assert f + d * f <= b by { MulCancelLt(d, g, f); MulMono(d + 1, g, f); Distrib(d, 1, f); }
    assert x * f < q by { Distrib(f, d * f, p); MulMono(f + d * f, b, p); Commute(p, f); }
    assert y >= 0 && q >= 0 by { MulPos(e, p); MulPos(b, p); }
    if c > 0 { MulMono(1, c, q); }
    assert c * q == 0;
    assert (d * f) * p < (e + 1) * p by { Distrib(e, 1, p); MulPos(low, f); }
    MulCancelLt(d * f, e + 1, p);
  }
}
