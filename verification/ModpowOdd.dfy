/** `modpow_montgomery`: exponentiation modulo an odd number, in Montgomery form. */
module ModularPowerOdd {
  import opened Digits
  import opened Rows
  import opened Montgomery
  import opened MontgomerySquare
  import opened WordInverse
  import opened RadixResidue
  import opened WrappingArith
  import opened MultiPrecision

  /** Multiplying two numbers in Montgomery form: `u = p*R`, `a = q*R` and `v*R = u*a` give `v = (p*q)*R`. */
  lemma FormMul(b: nat, n: seq<nat>, np: nat, s: nat, u: int, a: int, v: int, p: int, q: int)
    requires b > 0 && |n| > 0 && IsNegInverse(b, n[0], np) && Num(b, n) > 0
    requires u % Num(b, n) == (p * Pow(b, s)) % Num(b, n)
    requires a % Num(b, n) == (q * Pow(b, s)) % Num(b, n)
    requires (v * Pow(b, s)) % Num(b, n) == (u * a) % Num(b, n)
    ensures v % Num(b, n) == ((p * q) * Pow(b, s)) % Num(b, n)
  {
    var r, N := Pow(b, s), Num(b, n);
    CongMul(u, p * r, a, q * r, N);
    Regroup(p, r, q, r);
    Assoc(p * q, r, r);
    CancelRadix(b, n, np, s, v, (p * q) * r);
  }

  /** `xBar` is the reduced Montgomery form of `z` modulo `n`. */
  ghost predicate InForm(b: nat, n: seq<nat>, xBar: seq<nat>, z: int) {
    && |xBar| == |n| && IsDigits(b, xBar) && 0 <= Num(b, xBar) < Num(b, n)
    && Num(b, xBar) % Num(b, n) == (z * Pow(b, |n|)) % Num(b, n)
  }

  /** Keeping the low `k` words of a buffer whose value fits in them. */
  lemma LowWords(b: nat, s: seq<nat>, t: seq<nat>, k: nat)
    requires b > 0 && |t| == k <= |s| && Num(b, s) < Pow(b, k) && forall i :: 0 <= i < k ==> t[i] == s[i]
    ensures Num(b, t) == Num(b, s)
  {
    ValFits(b, s, k, |s|);
    ValSame(b, s, t, k);
  }

  method SquareStep(b: nat, n: seq<nat>, np: nat, xBar: array<nat>, scratch: array<nat>, ghost z: int)
    requires b >= 4 && |n| > 0 && IsDigits(b, n) && IsNegInverse(b, n[0], np)
    requires InForm(b, n, xBar[..], z) && xBar != scratch
    requires scratch.Length == 2 * |n| + 1 && forall i :: 0 <= i < scratch.Length ==> scratch[i] == 0
    modifies xBar, scratch
    ensures InForm(b, n, xBar[..], z * z)
    ensures forall i :: 0 <= i < scratch.Length ==> scratch[i] == 0
  {
    ghost var u := Num(b, xBar[..]);
    ValBound(b, n, |n|);
    ValBound(b, xBar[..], |n|);
    ProductFits(u, u, Num(b, n), Pow(b, |n|));
    Monsq(b, xBar[..], n, np, scratch);
    ghost var result := scratch[..];
    FormMul(b, n, np, |n|, u, u, Num(b, result), z, z);
    forall i | 0 <= i < xBar.Length { xBar[i] := scratch[i]; }
    LowWords(b, result, xBar[..], |n|);
    ghost var x := xBar[..];
    forall i | 0 <= i < scratch.Length { scratch[i] := 0; }
    assert xBar[..] == x;
  }

  method MultiplyStep(b: nat, n: seq<nat>, np: nat, xBar: array<nat>, y: seq<nat>, ghost z: int, ghost q: int)
    requires b >= 4 && |n| > 0 && IsDigits(b, n) && IsDigits(b, y) && IsNegInverse(b, n[0], np)
    requires InForm(b, n, xBar[..], z) && |y| <= |n|
    requires Num(b, y) % Num(b, n) == (q * Pow(b, |n|)) % Num(b, n)
    modifies xBar
    ensures InForm(b, n, xBar[..], z * q)
  {
    var scratch := Product(b, xBar[..], y, n, np);
    FormMul(b, n, np, |n|, Num(b, xBar[..]), Num(b, y), Num(b, scratch), z, q);
    ValBound(b, n, |n|);
    forall i | 0 <= i < xBar.Length { xBar[i] := scratch[i]; }
    LowWords(b, scratch, xBar[..], |n|);
  }

  /** A Montgomery product in a fresh zeroed buffer of `s + 2` words. */
  method Product(b: nat, x: seq<nat>, y: seq<nat>, n: seq<nat>, np: nat) returns (r: seq<nat>)
    requires b >= 2 && |n| > 0 && IsDigits(b, n) && IsDigits(b, x) && IsDigits(b, y) && IsNegInverse(b, n[0], np)
    requires |x| <= |n| && |y| <= |n| && Num(b, x) < Num(b, n)
    ensures |r| == |n| + 2 && IsDigits(b, r) && Num(b, r) < Num(b, n)
    ensures (Num(b, r) * Pow(b, |n|)) % Num(b, n) == (Num(b, x) * Num(b, y)) % Num(b, n)
  {
    var scratch := new nat[|n| + 2](_ => 0);
    ValPad(b, x, |n|);
    ValPad(b, y, |n|);
    ValBound(b, y, |n|);
    ProductFits(Num(b, y), Num(b, x), Num(b, n), Pow(b, |n|));
    Monpro(b, x, y, n, np, scratch);
    r := scratch[..];
  }

  /** One exponent byte: eight square-and-multiply steps. */
  method StepByte(b: nat, n: seq<nat>, np: nat, xBar: array<nat>, aBar: seq<nat>, byte: nat, scratch: array<nat>,
                  ghost x: nat, ghost e0: nat)
    requires b >= 4 && |n| > 0 && IsDigits(b, n) && IsDigits(b, aBar) && IsNegInverse(b, n[0], np)
    requires byte < 256 && |aBar| <= |n| && xBar != scratch
    requires InForm(b, n, xBar[..], Pow(x, e0))
    requires Num(b, aBar) % Num(b, n) == (x * Pow(b, |n|)) % Num(b, n)
    requires scratch.Length == 2 * |n| + 1 && forall i :: 0 <= i < scratch.Length ==> scratch[i] == 0
    modifies xBar, scratch
    ensures InForm(b, n, xBar[..], Pow(x, 256 * e0 + byte))
    ensures forall i :: 0 <= i < scratch.Length ==> scratch[i] == 0
  {
    var mask: nat := 128;
    ghost var e := e0;
    while mask > 0
      invariant IsMask(mask) && e == Progress(e0, byte, mask)
      invariant InForm(b, n, xBar[..], Pow(x, e))
      invariant forall i :: 0 <= i < scratch.Length ==> scratch[i] == 0
    {
      BitStep(e0, byte, mask);
      PowBit(x, e, MaskBit(byte, mask));
      SquareStep(b, n, np, xBar, scratch, Pow(x, e));
      if MaskBit(byte, mask) != 0 {
        MultiplyStep(b, n, np, xBar, aBar, Pow(x, e) * Pow(x, e), x);
      }
      e := 2 * e + MaskBit(byte, mask);
      mask := mask / 2;
    }
  }

  /** `base * R` reduced to the size of the modulus, starting from `R mod n`. */
  method BaseInForm(w: nat, base: MPNat, n: seq<nat>, rModN: seq<nat>) returns (aBar: seq<nat>)
    requires w >= 2 && |base.digits| > 0 && IsDigits(Pow(2, w), base.digits)
    requires |n| > 0 && IsDigits(Pow(2, w), n) && n[|n| - 1] > 0 && Num(Pow(2, w), n) > 0
    requires IsDigits(Pow(2, w), rModN) && |rModN| == |n|
    requires Num(Pow(2, w), rModN) == Pow(Pow(2, w), |n|) % Num(Pow(2, w), n)
    modifies base
    ensures 0 < |aBar| <= |n| && IsDigits(Pow(2, w), aBar)
    ensures Num(Pow(2, w), aBar) % Num(Pow(2, w), n)
         == (old(Num(Pow(2, w), base.digits)) * Pow(Pow(2, w), |n|)) % Num(Pow(2, w), n)
  {
    var b := Pow(2, w);
    PowMono(2, 1, w);
    PowOne(2);
    ghost var X := Num(b, base.digits);
    base.SubToSameSize(w, n);
    var tmp := new nat[2 * |n|](_ => 0);
    BigWrappingMul(b, base.digits, rModN, tmp);
    NoWrap(b, base.digits, rModN, |n|);
    var t := new MPNat(tmp[..]);
    t.SubToSameSize(w, n);
    aBar := t.digits;
    ModMod(Pow(b, |n|), Num(b, n));
    CongMul(Num(b, base.digits), X, Num(b, rModN), Pow(b, |n|), Num(b, n));
  }

  lemma NoWrap(b: nat, x: seq<nat>, y: seq<nat>, s: nat)
    requires b > 0 && IsDigits(b, x) && IsDigits(b, y) && |x| <= s && |y| <= s
    ensures (Num(b, x) * Num(b, y)) % Pow(b, 2 * s) == Num(b, x) * Num(b, y)
  {
    ValPad(b, x, s);
    ValPad(b, y, s);
    ValBound(b, x, s);
    ValBound(b, y, s);
    PowAdd(b, s, s);
    MulMono(Num(b, x), Pow(b, s), Num(b, y));
    MulMonoStrict(Num(b, y), Pow(b, s), Pow(b, s));
    MulPos(Num(b, x), Num(b, y));
    ModSmall(Num(b, x) * Num(b, y), Pow(b, 2 * s));
  }

  /** `base^exp mod n` for every base, big-endian exponent and odd modulus with a nonzero top digit. */
  method ModpowMontgomery(w: nat, base: MPNat, exp: seq<nat>, n: seq<nat>) returns (r: seq<nat>)
    requires w >= 2 && |base.digits| > 0 && IsDigits(Pow(2, w), base.digits) && IsDigits(256, exp)
    requires |n| > 0 && IsDigits(Pow(2, w), n) && n[0] % 2 == 1 && n[|n| - 1] > 0
    modifies base
    ensures |r| == |n| && IsDigits(Pow(2, w), r) && Num(Pow(2, w), n) > 0
    ensures Num(Pow(2, w), r) == Pow(old(Num(Pow(2, w), base.digits)), BigEndian(exp)) % Num(Pow(2, w), n)
  {
    var b := Pow(2, w);
    var s := |n|;
    PowMono(2, 2, w);
    PowOne(2);
    ValTop(b, n, s);
    ghost var X := Num(b, base.digits);
    var np := NegInverse(w, n[0]);
    var xBar := new nat[s](_ => 0);
    var _ := ComputeRModN(w, n, xBar);
    DivModDef(Pow(b, s), Num(b, n));
    var aBar := BaseInForm(w, base, n, xBar[..]);
    var scratch := new nat[2 * s + 1](_ => 0);
    ModMod(Pow(b, s), Num(b, n));
    assert InForm(b, n, xBar[..], Pow(X, 0));
    var i := 0;
    while i < |exp|
      invariant i <= |exp| && InForm(b, n, xBar[..], Pow(X, BigEndian(exp[..i])))
      invariant forall j :: 0 <= j < scratch.Length ==> scratch[j] == 0
    {
      StepByte(b, n, np, xBar, aBar, exp[i], scratch, X, BigEndian(exp[..i]));
      assert exp[..i + 1][..i] == exp[..i];
      i := i + 1;
    }
    assert exp[..|exp|] == exp;
    r := LeaveForm(b, n, np, xBar[..], |aBar|, Pow(X, BigEndian(exp)));
  }

  /** Multiplying by one leaves Montgomery form. */
  method LeaveForm(b: nat, n: seq<nat>, np: nat, xBar: seq<nat>, k: nat, ghost z: int) returns (r: seq<nat>)
    requires b >= 4 && |n| > 0 && IsDigits(b, n) && IsNegInverse(b, n[0], np) && 0 < k <= |n|
    requires InForm(b, n, xBar, z)
    ensures |r| == |n| && IsDigits(b, r) && Num(b, r) == z % Num(b, n)
  {
    var one: seq<nat> := [1] + seq(k - 1, _ => 0);
    OneDigit(b, one);
    var scratch := Product(b, xBar, one, n, np);
    CancelRadix(b, n, np, |n|, Num(b, scratch), z);
    ModSmall(Num(b, scratch), Num(b, n));
    r := scratch[..|n|];
    ValBound(b, n, |n|);
    LowWords(b, scratch, r, |n|);
  }
}
