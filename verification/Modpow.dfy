/** `modpow`: exponentiation for every modulus, by case split and the Chinese remainder theorem. */
module ModularPower {
  import opened Digits
  import opened Words
  import opened Rows
  import opened Montgomery
  import opened WordInverse
  import opened RadixResidue
  import opened WrappingArith
  import opened MultiPrecision
  import opened ModularPowerOdd
  import opened ModularPowerTwo

  //// Splitting the modulus into a power of two and an odd number

  /** Number of trailing zero bits of a nonzero word. */
  function TrailingZeros(d: nat): (z: nat)
    requires d > 0
    ensures d % Pow(2, z) == 0 && (d / Pow(2, z)) % 2 == 1 && Pow(2, z) <= d
  {
    if d % 2 == 1 then 0
    else
      var z := TrailingZeros(d / 2);
      TrailingStep(d, z);
      z + 1
  }

  lemma TrailingStep(d: nat, z: nat)
    requires d > 0 && d % 2 == 0 && (d / 2) % Pow(2, z) == 0 && Pow(2, z) <= d / 2
    ensures d % Pow(2, z + 1) == 0 && d / Pow(2, z + 1) == (d / 2) / Pow(2, z) && Pow(2, z + 1) <= d
  {
    var p, h := Pow(2, z), d / 2;
    DivModDef(h, p);
    Swap(2, h / p, p);
    DivModUnique(d, 2 * p, h / p, 0);
  }

  /** Shifts `m` right by `f = 2^bits`, word by word from the bottom, when its low bits are clear. */
  method ShiftOut(b: nat, f: nat, g: nat, m: seq<nat>) returns (r: seq<nat>)
    requires b == f * g && f > 0 && g > 0 && |m| > 0 && IsDigits(b, m) && m[0] % f == 0
    ensures |r| == |m| && IsDigits(b, r) && f * Num(b, r) == Num(b, m)
    ensures |m| == 1 ==> r[0] == m[0] / f
  {
    var tmp := new nat[|m|](_ => 0);
    DivModDef(m[0], f);
    DigitFits(f, g, m[0]);
    tmp[0] := m[0] / f;
    assert Val(b, tmp[..], 1) == Val(b, tmp[..], 0) + tmp[0] * Pow(b, 0);
    assert Val(b, m, 1) == Val(b, m, 0) + m[0] * Pow(b, 0);
    var i := 1;
    while i < |m|
      invariant 1 <= i <= |m| && IsDigits(b, tmp[..])
      invariant tmp[i - 1] == m[i - 1] / f < g
      invariant f * Val(b, tmp[..], i) == Val(b, m, i)
      invariant |m| == 1 ==> tmp[0] == m[0] / f
    {
      var d := m[i];
      DivModDef(d, f);
      DigitFits(f, g, d);
      ghost var prev := tmp[..];
      var e: nat := tmp[i - 1] + (d % f) * g;
      CarryBits(f, g, tmp[i - 1], d);
      tmp[i - 1] := e;
      ghost var mid := tmp[..];
      var h: nat := d / f;
      tmp[i] := h;
      assert mid == prev[i - 1 := e] && tmp[..] == mid[i := h];
      ValSet(b, prev, i - 1, e, i);
      ValSet(b, mid, i, h, i);
      ShiftOutStep(b, f, g, Val(b, prev, i), d, Pow(b, i - 1));
      i := i + 1;
    }
    r := tmp[..];
  }

  lemma DigitFits(f: nat, g: nat, d: nat)
    requires f > 0 && g > 0 && d < f * g
    ensures 0 <= d / f < g && g <= f * g
  {
    DivModDef(d, f);
    if d / f >= g { MulMono(g, d / f, f); }
    MulMono(1, f, g);
  }

  lemma CarryBits(f: nat, g: nat, low: nat, d: nat)
    requires f > 0 && low < g
    ensures 0 <= low + (d % f) * g < f * g
  {
    DivModDef(d, f);
    MulPos(d % f, g);
    MulMono(d % f + 1, f, g);
    Distrib(d % f, 1, g);
  }

  lemma ShiftOutStep(b: int, f: int, g: int, v: int, d: int, p: int)
    requires b == f * g && f > 0
    ensures f * (v + ((d % f) * g) * p + (d / f) * (b * p)) == f * v + d * (b * p)
  {
    var q := b * p;
    Distrib(v + ((d % f) * g) * p, (d / f) * q, f);
    Distrib(v, ((d % f) * g) * p, f);
    Assoc(f, (d % f) * g, p);
    assert (f * ((d % f) * g)) * p == (d % f) * q by { Swap(f, d % f, g); Assoc(d % f, f * g, p); }
    assert f * ((d / f) * q) == ((d / f) * f) * q by { Assoc(d / f, f, q); Swap(f, d / f, q); }
    DivModDef(d, f);
    Distrib((d / f) * f, d % f, q);
  }

  /** The modulus as `odd * 2^(w*zeros + bits)`. */
  method Factor(w: nat, n: seq<nat>) returns (zeros: nat, bits: nat, odd: seq<nat>)
    requires w >= 2 && |n| > 0 && IsDigits(Pow(2, w), n) && n[|n| - 1] > 0
    ensures zeros < |n| && bits < w && 0 < |odd| && zeros + |odd| <= |n| && IsDigits(Pow(2, w), odd)
    ensures odd[0] % 2 == 1 && odd[|odd| - 1] > 0
    ensures Num(Pow(2, w), n) == Num(Pow(2, w), odd) * Pow(2, w * zeros + bits)
  {
    var b := Pow(2, w);
    zeros := 0;
    while n[zeros] == 0
      invariant zeros < |n| && forall i :: 0 <= i < zeros ==> n[i] == 0
      decreases |n| - zeros
    {
      zeros := zeros + 1;
    }
    bits := TrailingZeros(n[zeros]);
    LeadingZerosBound(w, 1, bits);
    PowAdd(2, bits, w - bits);
    var high := n[zeros..];
    var f := Pow(2, bits);
    var tmp := high;
    if bits > 0 { tmp := ShiftOut(b, f, Pow(2, w - bits), high); }
    var o := new MPNat(tmp);
    o.StripLeadingZeros(b);
    odd := o.digits;
    FactorValue(w, n, zeros, bits, odd);
  }

  lemma FactorValue(w: nat, n: seq<nat>, zeros: nat, bits: nat, odd: seq<nat>)
    requires w >= 2 && zeros < |n| && |odd| > 0 && n[zeros] > 0
    requires IsDigits(Pow(2, w), n) && IsDigits(Pow(2, w), odd)
    requires forall i :: 0 <= i < zeros ==> n[i] == 0
    requires Pow(2, bits) * Num(Pow(2, w), odd) == Num(Pow(2, w), n[zeros..])
    requires n[zeros] % Pow(2, bits) == 0 && (n[zeros] / Pow(2, bits)) % 2 == 1 && bits < w
    requires |odd| > 1 ==> odd[|odd| - 1] != 0
    ensures odd[0] % 2 == 1 && odd[|odd| - 1] > 0
    ensures Num(Pow(2, w), n) == Num(Pow(2, w), odd) * Pow(2, w * zeros + bits)
  {
    var b, f, g := Pow(2, w), Pow(2, bits), Pow(2, w - bits);
    PowAdd(2, bits, w - bits);
    OddQuotient(b, f, g, Pow(2, w - bits - 1), n[zeros..], odd);
    OddNumber(w, odd);
    if |odd| == 1 { OneDigitNum(b, odd); }
    PowMul(2, w, zeros);
    MulPos(w, zeros);
    PowAdd(2, w * zeros, bits);
    ShiftedValue(b, f, n, zeros, Num(b, odd));
    Commute(Pow(b, zeros) * f, Num(b, odd));
  }

  lemma ShiftedValue(b: nat, f: nat, n: seq<nat>, zeros: nat, q: nat)
    requires zeros <= |n| && (forall i :: 0 <= i < zeros ==> n[i] == 0) && f * q == Num(b, n[zeros..])
    ensures Num(b, n) == (Pow(b, zeros) * f) * q
  {
    ValSplit(b, n, zeros, |n| - zeros);
    ValZero(b, n, zeros);
    Assoc(Pow(b, zeros), f, q);
  }

  lemma OddQuotient(b: nat, f: nat, g: nat, h: nat, high: seq<nat>, odd: seq<nat>)
    requires b == f * g && f > 0 && g == 2 * h && |high| > 0 && f * Num(b, odd) == Num(b, high)
    requires high[0] % f == 0 && (high[0] / f) % 2 == 1
    ensures Num(b, odd) % 2 == 1
  {
    NumCons(b, high);
    DivModDef(high[0], f);
    QuotientParity(f, g, high[0], Num(b, high[1..]), Num(b, odd), h);
  }

  lemma QuotientParity(f: nat, g: nat, d: nat, rest: nat, q: nat, h: nat)
    requires f > 0 && g == 2 * h && d == (d / f) * f && f * q == d + (f * g) * rest && (d / f) % 2 == 1
    ensures q % 2 == 1
  {
    Assoc(f, g, rest);
    Distrib(d / f, g * rest, f);
    MulCancelEq(q, d / f + g * rest, f);
    Assoc(2, h, rest);
    assert q == d / f + 2 * (h * rest);
  }

  //// Recombination

  /** Chinese remainder: `x1 + odd * y` with `y = (x2 - x1) / odd mod p` has both residues. */
  lemma Recombine(z: nat, odd: nat, p: nat, x1: nat, x2: nat, inv: nat, y: nat)
    requires odd > 0 && p > 0 && odd * p > 0 && x1 == z % odd && x2 == z % p && y < p
    requires (odd * inv) % p == 1 % p && y % p == ((x2 - x1) * inv) % p
    ensures x1 + odd * y == z % (odd * p)
  {
    var r := x1 + odd * y;
    DivModDef(z, odd);
    ModMod(z, odd);
    ModMod(z, p);
    SecondResidue(odd, p, x1, x2, inv, y);
    // r and z agree modulo odd
    CongIntro(r, x1, y, odd);
    var u := CongElim(r, z, odd);
    // and modulo p, so p divides u
    CongAdd(r, z, z, z, p);
    CongMul(r - z, 0, inv, inv, p);
    Assoc(u, odd, inv);
    CongMul(u, u, odd * inv, 1, p);
    assert 0 * inv == 0;
    var v := CongElim(u, 0, p);
    Assoc(v, p, odd);
    CongIntro(r, z, v, odd * p);
    MulMono(y + 1, p, odd);
    Distrib(y, 1, odd);
    MulPos(odd, y);
    ModSmall(r, odd * p);
  }

  lemma SecondResidue(odd: nat, p: nat, x1: nat, x2: nat, inv: nat, y: nat)
    requires p > 0 && (odd * inv) % p == 1 % p && y % p == ((x2 - x1) * inv) % p
    ensures (x1 + odd * y) % p == x2 % p
  {
    var d := x2 - x1;
    CongMul(odd, odd, y, d * inv, p);
    Swap(odd, d, inv);
    CongMul(d, d, odd * inv, 1, p);
    CongAdd(x1, x1, odd * y, d, p);
  }

  /** `x - y` on `k` words, wrapping. */
  method WrappingDifference(b: nat, x: seq<nat>, y: seq<nat>, k: nat) returns (r: seq<nat>, ghost c: int)
    requires b >= 2 && IsDigits(b, x) && IsDigits(b, y)
    ensures |r| == k && IsDigits(b, r)
    ensures Num(b, r) == Num(b, x) - Num(b, y) + c * Pow(b, k)
  {
    var a := new nat[k](i => Get(x, i));
    ValSame(b, x, a[..], k);
    var borrow := SubtractInPlace(b, a, y, k);
    r := a[..];
    var hx := LowDigits(b, x, k);
    var hy := LowDigits(b, y, k);
    c := Bit(borrow) - hx + hy;
    Distrib(Bit(borrow) - hx, hy, Pow(b, k));
    Distrib(Bit(borrow), hx, Pow(b, k));
  }

  /** Adds the digits of `x` into `a`, which has room for the sum. */
  method AddInto(b: nat, a: array<nat>, x: seq<nat>)
    requires b >= 2 && IsDigits(b, a[..]) && IsDigits(b, x) && |x| <= a.Length
    requires Num(b, a[..]) + Num(b, x) < Pow(b, a.Length)
    modifies a
    ensures IsDigits(b, a[..]) && Num(b, a[..]) == old(Num(b, a[..])) + Num(b, x)
  {
    ghost var before := a[..];
    var c, i := false, 0;
    while i < a.Length
      invariant i <= a.Length && IsDigits(b, a[..])
      invariant forall l :: i <= l < a.Length ==> a[l] == before[l]
      invariant Val(b, a[..], i) + Bit(c) * Pow(b, i) == Val(b, before, i) + Val(b, x, i)
    {
      var (sum, carry) := CarryingAdd(b, Get(x, i), a[i], c);
      AddDigitStep(b, a[i], Get(x, i), Bit(c), sum, Bit(carry), Pow(b, i));
      ghost var prev := a[..];
      ValSet(b, prev, i, sum, i);
      a[i] := sum;
      assert a[..] == prev[i := sum];
      c := carry;
      i := i + 1;
    }
    ValPad(b, x, a.Length);
  }

  /** The case of an even modulus that is not a power of two. */
  method ModpowMixed(wordBytes: nat, base: MPNat, exp: seq<nat>, n: seq<nat>) returns (r: seq<nat>)
    requires wordBytes >= 1 && |base.digits| > 0 && IsDigits(Pow(2, 8 * wordBytes), base.digits) && IsDigits(256, exp)
    requires |n| > 0 && IsDigits(Pow(2, 8 * wordBytes), n) && n[|n| - 1] > 0
    modifies base
    ensures IsDigits(Pow(2, 8 * wordBytes), r) && |r| == |n| && Num(Pow(2, 8 * wordBytes), n) > 0
    ensures Num(Pow(2, 8 * wordBytes), r)
         == Pow(old(Num(Pow(2, 8 * wordBytes), base.digits)), BigEndian(exp)) % Num(Pow(2, 8 * wordBytes), n)
  {
    var w := 8 * wordBytes;
    var b := Pow(2, w);
    ghost var z := Pow(Num(b, base.digits), BigEndian(exp));
    ValTop(b, n, |n|);
    var zeros, bits, odd := Factor(w, n);
    var powerOfTwo: seq<nat> := seq(zeros, _ => 0) + [Pow(2, bits)];
    var copy := new MPNat(base.digits);
    var x1 := ModpowMontgomery(w, copy, exp, odd);
    PowerOfTwoNum(w, powerOfTwo, bits);
    PowerOfTwoValue(w, zeros, bits);
    var x2 := ModpowWithPowerOfTwo(wordBytes, base, exp, powerOfTwo, bits);
    DivModUnique(w * zeros + bits, w, zeros, bits);
    var inv := KocInverse(w, odd, w * zeros + bits);
    PowAdd(2, bits, w - bits);
    var y := Quotient(b, Pow(2, bits), Pow(2, w - bits), x1, x2, inv, zeros);
    ValBound(b, n, |n|);
    r := Assemble(b, odd, y, x1, |n|, Pow(2, w * zeros + bits), z, Num(b, x2), Num(b, inv));
  }

  lemma PowerOfTwoValue(w: nat, zeros: nat, bits: nat)
    ensures Pow(2, bits) * Pow(Pow(2, w), zeros) == Pow(2, w * zeros + bits)
  {
    PowMul(2, w, zeros);
    MulPos(w, zeros);
    PowAdd(2, w * zeros, bits);
  }

  /** `(x2 - x1) * inv` modulo `f * b^zeros`. */
  method Quotient(b: nat, f: nat, ghost g: nat, x1: seq<nat>, x2: seq<nat>, inv: seq<nat>,
                  zeros: nat) returns (y: seq<nat>)
    requires b >= 2 && b == f * g && f > 0 && g > 0 && IsDigits(b, x1) && IsDigits(b, x2) && IsDigits(b, inv)
    ensures IsDigits(b, y) && f * Pow(b, zeros) > 0 && Num(b, y) < f * Pow(b, zeros)
    ensures Num(b, y) % (f * Pow(b, zeros)) == ((Num(b, x2) - Num(b, x1)) * Num(b, inv)) % (f * Pow(b, zeros))
  {
    var diff, c := WrappingDifference(b, x2, x1, zeros + 1);
    var out := new nat[zeros + 1](_ => 0);
    BigWrappingMul(b, diff, inv, out);
    MaskTop(b, f, g, out[..], Num(b, diff) * Num(b, inv));
    DivModDef(out[zeros], f);
    y := out[..][zeros := out[zeros] % f];
    assert Pow(b, zeros + 1) == g * (f * Pow(b, zeros)) by { Commute(f, g); Assoc(g, f, Pow(b, zeros)); }
    QuotientCong(Num(b, diff), Num(b, x2) - Num(b, x1), c, Num(b, inv), f * Pow(b, zeros), g);
  }

  lemma QuotientCong(d: int, e: int, c: int, i: int, p: nat, q: nat)
    requires p > 0 && q > 0 && d == e + c * (q * p)
    ensures (d * i) % p < p && ((d * i) % p) % p == (e * i) % p
  {
    Assoc(c, q, p);
    CongIntro(d, e, c * q, p);
    CongMul(d, e, i, i, p);
    ModMod(d * i, p);
  }

  method Assemble(b: nat, odd: seq<nat>, y: seq<nat>, x1: seq<nat>, k: nat, ghost p: nat, ghost z: nat, ghost x2: nat,
                  ghost inv: nat) returns (r: seq<nat>)
    requires b >= 2 && IsDigits(b, odd) && IsDigits(b, y) && IsDigits(b, x1) && |x1| <= k
    requires Num(b, odd) > 0 && p > 0 && Num(b, odd) * p < Pow(b, k)
    requires Num(b, x1) == z % Num(b, odd) && x2 == z % p && Num(b, y) < p
    requires (Num(b, odd) * inv) % p == 1 % p && Num(b, y) % p == ((x2 - Num(b, x1)) * inv) % p
    ensures |r| == k && IsDigits(b, r) && Num(b, odd) * p > 0 && Num(b, r) == z % (Num(b, odd) * p)
  {
    var out := new nat[k](_ => 0);
    BigWrappingMul(b, odd, y, out);
    ghost var o, Y := Num(b, odd), Num(b, y);
    MulPos(o, p);
    Recombine(z, o, p, Num(b, x1), x2, inv, Y);
    MulPos(o, Y);
    DivModDef(z, o * p);
    ModSmall(o * Y, Pow(b, k));
    AddInto(b, out, x1);
    r := out[..];
  }

  //// The dispatcher

  function IsPowerOfTwoWord(d: nat): (r: bool)
    ensures r ==> exists t :: 0 <= t && d == Pow(2, t)
  {
    if d == 0 then false
    else if d == 1 then assert Pow(2, 0) == 1; true
    else if d % 2 == 1 then false
    else
      var r := IsPowerOfTwoWord(d / 2);
      assert r ==> exists t :: 0 <= t && d == Pow(2, t) by {
        if r {
          var t :| 0 <= t && d / 2 == Pow(2, t);
          assert d == Pow(2, t + 1);
        }
      }
      r
  }

  /** Exactly one nonzero digit, and that digit a power of two. */
  method IsPowerOfTwo(n: seq<nat>) returns (found: bool)
    ensures found <==> exists i :: 0 <= i < |n| && IsPowerOfTwoWord(n[i]) && forall j :: 0 <= j < |n| && j != i ==>
      n[j] == 0
  {
    found := false;
    ghost var at := 0;
    for k := 0 to |n|
      invariant !found ==> forall j :: 0 <= j < k ==> n[j] == 0
      invariant found ==> 0 <= at < k && IsPowerOfTwoWord(n[at]) && forall j :: 0 <= j < k && j != at ==> n[j] == 0
    {
      var isP2 := IsPowerOfTwoWord(n[k]);
      if (!isP2 && n[k] != 0) || (isP2 && found) {
        assert isP2 ==> n[k] != 0 && n[at] != 0;
        return false;
      } else if isP2 {
        found := true;
        at := k;
      }
    }
  }

  lemma TopDigitOfPowerOfTwo(w: nat, n: seq<nat>) returns (t: nat)
    requires w >= 2 && |n| > 0 && IsDigits(Pow(2, w), n) && n[|n| - 1] > 0
    requires exists i :: 0 <= i < |n| && IsPowerOfTwoWord(n[i]) && forall j :: 0 <= j < |n| && j != i ==> n[j] == 0
    ensures IsPowerOfTwoDigits(w, n, t)
  {
    var i :| 0 <= i < |n| && IsPowerOfTwoWord(n[i]) && forall j :: 0 <= j < |n| && j != i ==> n[j] == 0;
    var k :| 0 <= k && n[i] == Pow(2, k);
    LeadingZerosBound(w, 1, k);
    t := k;
  }

  /** Leading zero bytes do not change an exponent. */
  method StripZeroBytes(a: seq<nat>) returns (r: seq<nat>, isZero: bool)
    requires IsDigits(256, a)
    ensures IsDigits(256, r) && BigEndian(r) == BigEndian(a)
    ensures isZero <==> BigEndian(a) == 0
    ensures !isZero ==> |r| > 0 && r[0] > 0
  {
    var end := 0;
    while end < |a| && a[end] == 0
      invariant end <= |a| && forall i :: 0 <= i < end ==> a[i] == 0
    {
      end := end + 1;
    }
    ZeroBytes(a[..end]);
    BigEndianSplit(a, |a| - end);
    assert a[..|a| - (|a| - end)] == a[..end] && a[|a| - (|a| - end)..] == a[end..];
    if end == |a| { return [], true; }
    r, isZero := a[end..], false;
    NonzeroBytes(r);
  }

  lemma {:induction false} NonzeroBytes(a: seq<nat>)
    requires |a| > 0 && a[0] > 0
    ensures BigEndian(a) > 0
  {
    if |a| > 1 { NonzeroBytes(a[..|a| - 1]); }
  }

  lemma {:induction false} PowBaseMono(x: nat, y: nat, e: nat)
    requires x < y && e > 0
    ensures Pow(x, e) < Pow(y, e)
  {
    if e == 1 {
      PowOne(x);
      PowOne(y);
    } else {
      PowBaseMono(x, y, e - 1);
      MulMono(x, y, Pow(x, e - 1));
      MulMonoStrict(Pow(x, e - 1), Pow(y, e - 1), y);
    }
  }

  /** A modulus with more digits than the power can have: no reduction is needed. */
  lemma SmallPower(b: nat, x: seq<nat>, e: nat, n: seq<nat>)
    requires b >= 2 && IsDigits(b, x) && |n| > |x| * e && n[|n| - 1] > 0 && e > 0
    ensures Pow(Num(b, x), e) < Pow(b, |x| * e) <= Num(b, n)
  {
    ValBound(b, x, |x|);
    PowBaseMono(Num(b, x), Pow(b, |x|), e);
    PowMul(b, |x|, e);
    MulPos(|x|, e);
    ValTop(b, n, |n|);
    PowMono(b, |x| * e, |n| - 1);
  }

  /** `modpow`: `base^exp mod n` for every nonempty base, every big-endian exponent and every modulus
      with a nonzero top digit. */
  method Modpow(wordBytes: nat, base: MPNat, exp0: seq<nat>, n: seq<nat>) returns (r: seq<nat>)
    requires wordBytes >= 1 && |base.digits| > 0 && IsDigits(Pow(2, 8 * wordBytes), base.digits) && IsDigits(256, exp0)
    requires |n| > 0 && IsDigits(Pow(2, 8 * wordBytes), n) && n[|n| - 1] > 0
    modifies base
    ensures |r| > 0 && IsDigits(Pow(2, 8 * wordBytes), r) && Num(Pow(2, 8 * wordBytes), n) > 0
    ensures Num(Pow(2, 8 * wordBytes), r)
         == Pow(old(Num(Pow(2, 8 * wordBytes), base.digits)), BigEndian(exp0)) % Num(Pow(2, 8 * wordBytes), n)
  {
    var w := 8 * wordBytes;
    var b := Pow(2, w);
    PowMono(2, 1, w);
    PowOne(2);
    ValTop(b, n, |n|);
    var exp, expIsZero := StripZeroBytes(exp0);
    if expIsZero {
      r := if |n| == 1 && n[0] == 1 then [0] else [1];
      OneDigitNum(b, r);
      OneModulus(b, n);
      return;
    }
    // The source compares in machine words; a product that overflows one takes the general path.
    if |exp| <= wordBytes && |base.digits| * BigEndian(exp) < b && |n| > |base.digits| * BigEndian(exp) {
      SmallPower(b, base.digits, BigEndian(exp), n);
      MulMono(1, |base.digits|, BigEndian(exp));
      var scratch := new nat[|base.digits| * BigEndian(exp)](_ => 0);
      var result := BigWrappingPow(b, base.digits, exp, scratch);
      ModSmall(Pow(Num(b, base.digits), BigEndian(exp)), Num(b, n));
      ModSmall(Pow(Num(b, base.digits), BigEndian(exp)), Pow(b, scratch.Length));
      r := result[..];
      return;
    }
    var powerOfTwo := IsPowerOfTwo(n);
    if powerOfTwo {
      ghost var t := TopDigitOfPowerOfTwo(w, n);
      r := ModpowWithPowerOfTwo(wordBytes, base, exp, n, t);
    } else if n[0] % 2 == 1 {
      r := ModpowMontgomery(w, base, exp, n);
    } else {
      r := ModpowMixed(wordBytes, base, exp, n);
    }
  }

  /** `1 mod n` is zero only for the one-digit modulus 1. */
  lemma OneModulus(b: nat, n: seq<nat>)
    requires b >= 2 && |n| > 0 && n[|n| - 1] > 0
    ensures Num(b, n) > 0
    ensures 1 % Num(b, n) == if |n| == 1 && n[0] == 1 then 0 else 1
  {
    ValTop(b, n, |n|);
    if |n| == 1 {
      OneDigitNum(b, n);
    } else {
      PowMono(b, 1, |n| - 1);
      PowOne(b);
    }
    if Num(b, n) > 1 { ModSmall(1, Num(b, n)); }
  }
}
