/** Exponentiation and inversion modulo powers of two. */
module ModularPowerTwo {
  import opened Digits
  import opened Words
  import opened Rows
  import opened WordInverse
  import opened RadixResidue
  import opened WrappingArith
  import opened InPlace
  import opened MultiPrecision

  //// Clearing high bits

  /** `x mod (2^t * b^k)` is `x mod b^(k+1)` with its top digit reduced modulo `2^t`. */
  lemma MaskTop(b: nat, f: nat, g: nat, s: seq<nat>, x: nat)
    requires b == f * g && f > 0 && g > 0 && |s| > 0 && IsDigits(b, s)
    requires Num(b, s) == x % Pow(b, |s|)
    ensures f * Pow(b, |s| - 1) > 0
    ensures Num(b, s[|s| - 1 := s[|s| - 1] % f]) == x % (f * Pow(b, |s| - 1))
  {
    var k := |s| - 1;
    var p, d := Pow(b, k), s[k];
    DivModDef(d, f);
    var m: nat := d % f;
    ValSet(b, s, k, m, k);
    ValBound(b, s, k);
    DivModDef(x, Pow(b, k + 1));
    MaskValue(x, x / Pow(b, k + 1), f, g, p, Val(b, s, k), d);
  }

  lemma MaskValue(x: int, q: int, f: nat, g: nat, p: nat, low: nat, d: nat)
    requires f > 0 && p > 0 && low < p && x == q * ((f * g) * p) + (low + d * p)
    ensures f * p > 0 && x % (f * p) == low + (d % f) * p
  {
    MulPos(f, p);
    DivModDef(d, f);
    var m := d % f;
    MulPos(m, p);
    MulMono(m + 1, f, p);
    Distrib(m, 1, p);
    Distrib((d / f) * f, m, p);
    Assoc(d / f, f, p);
    Assoc(g, f, p);
    Assoc(q, g, f * p);
    Distrib(q * g, d / f, f * p);
    DivModUnique(x, f * p, q * g + d / f, low + m * p);
  }

  //// Reducing the exponent

  /** The square of a number that is `1 mod 2^j` is `1 mod 2^(j+1)`. */
  lemma SquareLift(z: int, p: int)
    requires p >= 2 && p % 2 == 0 && z % p == 1
    ensures (z * z) % (2 * p) == 1
  {
    DivModDef(z, p);
    var c, h := z / p, p / 2;
    Distrib(c * p, 1, z);
    Distrib(c * p, 1, c * p);
    Assoc(c, p, c * p);
    calc {
      z * z;
      (c * p) * (c * p) + 2 * (c * p) + 1;
      { assert p == 2 * h; Regroup(c, p, c, p); Assoc(c * c, p, p); Swap(c * c, 2, h * p); Assoc(2, h, p); }
      ((c * c) * p) * (2 * h) + c * (2 * p) + 1;
      {
        Assoc(c * c, p, 2 * h);
        Assoc(c * c, h, 2 * p);
        assert p * (2 * h) == h * (2 * p) by { Swap(p, 2, h); Swap(h, 2, p); }
      }
      ((c * c) * h) * (2 * p) + c * (2 * p) + 1;
      { Distrib((c * c) * h, c, 2 * p); }
      ((c * c) * h + c) * (2 * p) + 1;
    }
    DivModUnique(z * z, 2 * p, (c * c) * h + c, 1);
  }

  /** An odd number to the power `2^j` is `1 mod 2^j`. */
  lemma {:induction false} OddPow(x: nat, j: nat)
    requires x % 2 == 1 && j >= 1
    ensures Pow(x, Pow(2, j)) % Pow(2, j) == 1
  {
    if j == 1 {
      PowOne(2);
      assert Pow(x, 2) == x * x by { PowOne(x); }
      CongMul(x, 1, x, 1, 2);
    } else {
      OddPow(x, j - 1);
      PowAdd(x, Pow(2, j - 1), Pow(2, j - 1));
      assert Pow(2, j) == Pow(2, j - 1) + Pow(2, j - 1);
      assert Pow(2, j - 1) % 2 == 0 by { assert Pow(2, j - 1) == 2 * Pow(2, j - 2); }
      SquareLift(Pow(x, Pow(2, j - 1)), Pow(2, j - 1));
    }
  }

  lemma {:induction false} PowOneMod(z: nat, h: nat, m: nat)
    requires m > 1 && z % m == 1
    ensures Pow(z, h) % m == 1
  {
    if h != 0 {
      PowOneMod(z, h - 1, m);
      CongMul(z, 1, Pow(z, h - 1), 1, m);
      ModSmall(1, m);
    } else {
      ModSmall(1, m);
    }
  }

  /** Dropping a multiple of `2^j` from the exponent of an odd base, modulo `2^j`. */
  lemma ReduceExponent(x: nat, h: nat, l: nat, j: nat)
    requires x % 2 == 1 && j >= 1
    ensures Pow(x, Pow(2, j) * h + l) % Pow(2, j) == Pow(x, l) % Pow(2, j)
  {
    PowMono(2, 1, j);
    PowOne(2);
    OddPow(x, j);
    DropMultiple(x, Pow(2, j), h, l);
  }

  lemma DropMultiple(x: nat, m: nat, h: nat, l: nat)
    requires m > 1 && Pow(x, m) % m == 1
    ensures Pow(x, m * h + l) % m == Pow(x, l) % m
  {
    PowMul(x, m, h);
    PowOneMod(Pow(x, m), h, m);
    ModSmall(1, m);
    MulPos(m, h);
    PowAdd(x, m * h, l);
    CongMul(Pow(x, m * h), 1, Pow(x, l), Pow(x, l), m);
  }

  lemma {:induction false} BigEndianSplit(s: seq<nat>, k: nat)
    requires k <= |s|
    ensures BigEndian(s) == Pow(256, k) * BigEndian(s[..|s| - k]) + BigEndian(s[|s| - k..])
  {
    if k == 0 {
      assert s[..|s|] == s;
    } else {
      var init, n := s[..|s| - 1], |s|;
      BigEndianSplit(init, k - 1);
      assert init[..n - 1 - (k - 1)] == s[..n - k];
      assert s[n - k..][..k - 1] == init[n - 1 - (k - 1)..];
      var hi := BigEndian(s[..n - k]);
      Assoc(256, Pow(256, k - 1), hi);
    }
  }

  /** Congruence modulo a number implies congruence modulo its divisors. */
  lemma CongDivisor(x: int, y: int, d: nat, e: nat)
    requires d > 0 && e > 0 && d * e > 0 && x % (d * e) == y % (d * e)
    ensures x % d == y % d
  {
    var k := CongElim(x, y, d * e);
    Swap(k, d, e);
    Assoc(k, e, d);
    CongIntro(x, y, k * e, d);
  }

  lemma {:induction false} PowCong(x: nat, y: nat, e: nat, m: nat)
    requires m > 0 && x % m == y % m
    ensures Pow(x, e) % m == Pow(y, e) % m
  {
    if e != 0 {
      PowCong(x, y, e - 1, m);
      CongMul(x, y, Pow(x, e - 1), Pow(y, e - 1), m);
    }
  }

  /** The digits of the modulus `2^t * b^(k-1)`. */
  predicate IsPowerOfTwoDigits(w: nat, n: seq<nat>, t: nat) {
    |n| > 0 && t < w && n[|n| - 1] == Pow(2, t) && forall i :: 0 <= i < |n| - 1 ==> n[i] == 0
  }

  lemma PowerOfTwoNum(w: nat, n: seq<nat>, t: nat)
    requires IsPowerOfTwoDigits(w, n, t)
    ensures Num(Pow(2, w), n) == Pow(2, t) * Pow(Pow(2, w), |n| - 1) > 0
  {
    ValZero(Pow(2, w), n, |n| - 1);
    MulPos(Pow(2, t), Pow(Pow(2, w), |n| - 1));
  }

  /** `modpow_with_power_of_two`: the exponent of an odd base is cut to as many bytes as the modulus has. */
  method ModpowWithPowerOfTwo(wordBytes: nat, base: MPNat, exp: seq<nat>, n: seq<nat>,
                              ghost t: nat) returns (r: seq<nat>)
    requires wordBytes >= 1 && IsDigits(Pow(2, 8 * wordBytes), base.digits) && IsDigits(256, exp)
    requires IsPowerOfTwoDigits(8 * wordBytes, n, t)
    modifies base
    ensures |r| == |n| && IsDigits(Pow(2, 8 * wordBytes), r) && Num(Pow(2, 8 * wordBytes), n) > 0
    ensures Num(Pow(2, 8 * wordBytes), r)
         == Pow(old(Num(Pow(2, 8 * wordBytes), base.digits)), BigEndian(exp)) % Num(Pow(2, 8 * wordBytes), n)
  {
    var w := 8 * wordBytes;
    var b, f := Pow(2, w), n[|n| - 1];
    ghost var g := Pow(2, w - t);
    PowAdd(2, t, w - t);
    PowMono(2, 1, w);
    PowOne(2);
    PowerOfTwoNum(w, n, t);
    ghost var X, M := Num(b, base.digits), Num(b, n);
    ReduceBase(b, f, g, base, |n|);
    var x := base.digits;
    var long := x[0] % 2 == 1 && |exp| > wordBytes * |n|;
    var cut := if long then exp[|exp| - wordBytes * |n|..] else exp;
    r := PowMasked(b, f, g, x, cut);
    ModMod(X, M);
    PowCong(Num(b, x), X, BigEndian(exp), M);
    if long { CutExponent(wordBytes, x, exp, |n|, t); }
  }

  /** Reduces the base to `k` digits and clears its top bits. */
  method ReduceBase(b: nat, f: nat, ghost g: nat, base: MPNat, k: nat)
    requires b >= 2 && b == f * g && f > 0 && g > 0 && k > 0 && IsDigits(b, base.digits)
    modifies base
    ensures |base.digits| == k && IsDigits(b, base.digits) && f * Pow(b, k - 1) > 0
    ensures Num(b, base.digits) == old(Num(b, base.digits)) % (f * Pow(b, k - 1))
  {
    ghost var X := Num(b, base.digits);
    base.ForceSameSize(b, k);
    MaskTop(b, f, g, base.digits, X);
    DivModDef(base.digits[k - 1], f);
    base.digits := base.digits[k - 1 := base.digits[k - 1] % f];
  }

  method PowMasked(b: nat, f: nat, ghost g: nat, x: seq<nat>, exp: seq<nat>) returns (r: seq<nat>)
    requires b >= 2 && b == f * g && f > 0 && g > 0 && |x| > 0 && IsDigits(b, x) && IsDigits(256, exp)
    ensures |r| == |x| && IsDigits(b, r) && f * Pow(b, |x| - 1) > 0
    ensures Num(b, r) == Pow(Num(b, x), BigEndian(exp)) % (f * Pow(b, |x| - 1))
  {
    var k := |x|;
    var scratch := new nat[k](_ => 0);
    var result := BigWrappingPow(b, x, exp, scratch);
    MaskTop(b, f, g, result[..], Pow(Num(b, x), BigEndian(exp)));
    DivModDef(result[k - 1], f);
    r := result[..][k - 1 := result[k - 1] % f];
  }

  lemma CutExponent(wordBytes: nat, s: seq<nat>, exp: seq<nat>, k: nat, t: nat)
    requires wordBytes >= 1 && k > 0 && |exp| > wordBytes * k && |s| == k && s[0] % 2 == 1 && t < 8 * wordBytes
    ensures var w := 8 * wordBytes;
            var m := Pow(2, t) * Pow(Pow(2, w), k - 1);
            m > 0 && Pow(Num(Pow(2, w), s), BigEndian(exp)) % m
                  == Pow(Num(Pow(2, w), s), BigEndian(exp[|exp| - wordBytes * k..])) % m
  {
    var w := 8 * wordBytes;
    var x, L := Num(Pow(2, w), s), wordBytes * k;
    var hi, lo := BigEndian(exp[..|exp| - L]), BigEndian(exp[|exp| - L..]);
    OddNumber(w, s);
    MulPos(w, k);
    MulPos(w, k - 1);
    MulMono(1, k, w);
    BigEndianSplit(exp, L);
    assert Pow(256, L) == Pow(2, w * k) by { Pow256(); PowMul(2, 8, L); Assoc(8, wordBytes, k); }
    ReduceExponent(x, hi, lo, w * k);
    // 2^(w*k) is a multiple of the modulus
    PowMul(2, w, k - 1);
    PowMul(2, w, k);
    PowAdd(2, t, w - t);
    var m := Pow(2, t) * Pow(Pow(2, w), k - 1);
    MulPos(Pow(2, t), Pow(Pow(2, w), k - 1));
    assert Pow(2, w * k) == m * Pow(2, w - t) by {
      Swap(Pow(2, t), Pow(2, w - t), Pow(Pow(2, w), k - 1));
      Assoc(Pow(2, t), Pow(2, w - t), Pow(Pow(2, w), k - 1));
    }
    CongDivisor(Pow(x, BigEndian(exp)), Pow(x, lo), m, Pow(2, w - t));
  }

  lemma Pow256()
    ensures Pow(2, 8) == 256
  {
    assert Pow(2, 4) == 16;
    PowAdd(2, 4, 4);
  }

  //// Inversion modulo a power of two

  function Signed(neg: bool, v: nat): (s: int) { if neg then 0 - v else v }

  /** One bit of the inverse; `sv` is the running signed remainder, `st` the folded one and `sb` its half. */
  lemma KocStep(A: int, M: int, p: int, res: int, sv: int, x: int, c: int, st: int, sb: int)
    requires M > 0 && (A * res + p * sv) % M == 1 % M
    requires st == sv - x * A + c * M && st == 2 * sb
    ensures (A * (res + x * p) + (2 * p) * sb) % M == 1 % M
  {
    calc {
      (2 * p) * sb;
      { Assoc(2, p, sb); Swap(2, p, sb); }
      p * st;
      { Distrib(sv - x * A, c * M, p); Distrib(sv, x * A, p); Assoc(p, c, M); }
      p * sv - p * (x * A) + (p * c) * M;
    }
    Distrib(res, x * p, A);
    assert A * (x * p) == p * (x * A) by { Swap(A, x, p); Swap(p, x, A); }
    CongIntro(A * (res + x * p) + (2 * p) * sb, A * res + p * sv, p * c, M);
  }

  /** `a * res + 2^i * sv = 1` modulo the buffer size. */
  ghost predicate KocInvariant(b: nat, a: seq<nat>, res: int, sv: int, i: nat)
    requires b > 0
  {
    (Num(b, a) * res + Pow(2, i) * sv) % Pow(b, |a|) == 1 % Pow(b, |a|)
  }

  /** The weight of bit `bitPos` of word `wordPos`. */
  lemma BitWeight(w: nat, b: nat, wordPos: nat, bitPos: nat, i: nat)
    requires b == Pow(2, w) && bitPos < w && i == w * wordPos + bitPos
    ensures Pow(2, i) == Pow(2, bitPos) * Pow(b, wordPos) && Pow(2, i + 1) == 2 * Pow(2, i)
    ensures 2 * Pow(2, bitPos) <= b
  {
    MulPos(w, wordPos);
    PowMul(2, w, wordPos);
    PowAdd(2, bitPos, w * wordPos);
    PowMono(2, bitPos + 1, w);
  }

  /** Setting bit `bitPos` of word `wordPos` in a result whose bits from there on are still clear; `p` is its weight. */
  method SetBit(b: nat, res: array<nat>, wordPos: nat, bitPos: nat, x: nat, ghost h: nat, ghost p: nat)
    requires wordPos < res.Length && x < 2 && h == Pow(2, bitPos) && 2 * h <= b && p == h * Pow(b, wordPos)
    requires IsDigits(b, res[..]) && Num(b, res[..]) < p
    modifies res
    ensures IsDigits(b, res[..])
    ensures Num(b, res[..]) == old(Num(b, res[..])) + x * p < 2 * p
  {
    ghost var prev := res[..];
    BitRoom(b, prev, wordPos, h, p);
    // the bit is clear, so the source's `|` is an addition
    var d: nat := res[wordPos] + if x == 1 then Pow(2, bitPos) else 0;
    res[wordPos] := d;
    assert res[..] == prev[wordPos := d];
    ValSet(b, prev, wordPos, d, |prev|);
    assert (d - prev[wordPos]) * Pow(b, wordPos) == x * p by { Assoc(x, h, Pow(b, wordPos)); }
  }

  lemma BitRoom(b: nat, s: seq<nat>, wordPos: nat, h: nat, p: nat)
    requires b > 0 && wordPos < |s| && p == h * Pow(b, wordPos) && Num(b, s) < p
    ensures s[wordPos] < h
  {
    ValMono(b, s, wordPos + 1, |s|);
    assert s[wordPos] * Pow(b, wordPos) <= Num(b, s);
    MulCancelLt(s[wordPos], h, Pow(b, wordPos));
  }

  /** Replaces `bv` by `a - bv` or `bv + a` (wrapping), tracking the sign. */
  method FoldIn(b: nat, bv: array<nat>, a: seq<nat>, neg: bool) returns (ghost c: int)
    requires b >= 2 && bv.Length == |a| && IsDigits(b, bv[..]) && IsDigits(b, a)
    modifies bv
    ensures IsDigits(b, bv[..])
    ensures Signed(true, Num(b, bv[..])) == Signed(neg, old(Num(b, bv[..]))) - Num(b, a) + c * Pow(b, |a|)
  {
    if neg {
      assert Window(bv[..], 0, |a|) == bv[..];
      var carry := InPlaceAdd(b, bv, 0, a);
      assert Window(bv[..], 0, |a|) == bv[..];
      return if carry then 1 else 0;
    }
    var tmp := new nat[|a|](i requires 0 <= i < |a| => a[i]);
    assert Window(tmp[..], 0, |a|) == a;
    ghost var v := bv[..];
    var borrow := InPlaceMulSub(b, tmp, 0, bv[..], 1);
    assert Window(tmp[..], 0, |a|) == tmp[..];
    ghost var difference := tmp[..];
    assert Num(b, difference) + Num(b, v) == Num(b, a) + borrow * Pow(b, |a|);
    NegMul(borrow, Pow(b, |a|));
    forall i | 0 <= i < |a| { bv[i] := tmp[i]; }
    assert bv[..] == difference;
    c := -(borrow as int);
  }

  /** Koç's bit-serial inversion: the inverse of an odd number modulo `2^k`. */
  method KocInverse(w: nat, aa: seq<nat>, k: nat) returns (r: seq<nat>)
    requires w >= 2 && |aa| > 0 && IsDigits(Pow(2, w), aa) && aa[0] % 2 == 1
    ensures |r| == k / w + 1 && IsDigits(Pow(2, w), r)
    ensures (Num(Pow(2, w), aa) * Num(Pow(2, w), r)) % Pow(2, k) == 1 % Pow(2, k)
  {
    var b, length := Pow(2, w), k / w + 1;
    DivModDef(k, w);
    PowMono(2, 1, w);
    PowOne(2);
    var a := new MPNat(aa);
    a.ForceSameSize(b, length);
    KocStart(w, aa, a.digits, length);
    ghost var sv;
    r, sv := KocLoop(w, b, a.digits, k);
    Distrib(k / w, 1, w);
    KocEnd(w, Num(b, aa), Num(b, a.digits), Num(b, r), sv, k, length);
  }

  method KocLoop(w: nat, b: nat, a: seq<nat>, k: nat) returns (r: seq<nat>, ghost sv: int)
    requires w >= 2 && b == Pow(2, w) && b >= 2 && |a| == k / w + 1 && IsDigits(b, a) && a[0] % 2 == 1
    ensures |r| == |a| && IsDigits(b, r) && KocInvariant(b, a, Num(b, r), sv, k)
  {
    var bv, res := new nat[|a|](_ => 0), new nat[|a|](_ => 0);
    bv[0] := 1;
    OneDigit(b, bv[..]);
    ValZero(b, res[..], |a|);
    assert KocInvariant(b, a, 0, 1, 0) by { assert Num(b, a) * 0 == 0; }
    var neg, wordPos: nat, bitPos: nat := false, 0, 0;
    var i := 0;
    while i < k
      invariant i <= k && IsDigits(b, bv[..]) && IsDigits(b, res[..])
      invariant bitPos < w && i == w * wordPos + bitPos && Num(b, res[..]) < Pow(2, i)
      invariant KocInvariant(b, a, Num(b, res[..]), Signed(neg, Num(b, bv[..])), i)
    {
      neg := KocBit(w, b, bv, a, res, neg, wordPos, bitPos, i, k);
      Distrib(wordPos, 1, w);
      bitPos := bitPos + 1;
      if bitPos == w { bitPos, wordPos := 0, wordPos + 1; }
      i := i + 1;
    }
    r, sv := res[..], Signed(neg, Num(b, bv[..]));
  }

  method KocBit(w: nat, b: nat, bv: array<nat>, a: seq<nat>, res: array<nat>, neg: bool, wordPos: nat, bitPos: nat,
                ghost i: nat, ghost k: nat) returns (neg': bool)
    requires w >= 2 && b == Pow(2, w) && |a| == bv.Length == res.Length == k / w + 1 && bv != res && i < k
    requires IsDigits(b, bv[..]) && IsDigits(b, res[..]) && IsDigits(b, a)
    requires a[0] % 2 == 1 && bitPos < w && i == w * wordPos + bitPos && Num(b, res[..]) < Pow(2, i)
    requires KocInvariant(b, a, Num(b, res[..]), Signed(neg, Num(b, bv[..])), i)
    modifies bv, res
    ensures IsDigits(b, bv[..]) && IsDigits(b, res[..]) && Num(b, res[..]) < Pow(2, i + 1)
    ensures KocInvariant(b, a, Num(b, res[..]), Signed(neg', Num(b, bv[..])), i + 1)
  {
    ghost var rv, sv := Num(b, res[..]), Signed(neg, Num(b, bv[..]));
    InBounds(w, wordPos, bitPos, k);
    BitWeight(w, b, wordPos, bitPos, i);
    var x;
    ghost var c;
    x, neg', c := HalveRemainder(w, b, bv, a, neg);
    ghost var sb := Signed(neg', Num(b, bv[..]));
    KocStep(Num(b, a), Pow(b, |a|), Pow(2, i), rv, sv, x, c, 2 * sb, sb);
    ghost var bv' := bv[..];
    SetBit(b, res, wordPos, bitPos, x, Pow(2, bitPos), Pow(2, i));
    assert bv[..] == bv';
  }

  /** Makes the signed remainder even by folding in `a`, and halves it. */
  method HalveRemainder(w: nat, b: nat, bv: array<nat>, a: seq<nat>, neg: bool) returns (x: nat, neg': bool,
                        ghost c: int)
    requires w >= 2 && b == Pow(2, w) && |a| == bv.Length > 0 && IsDigits(b, bv[..]) && IsDigits(b, a) && a[0] % 2 == 1
    modifies bv
    ensures x < 2 && IsDigits(b, bv[..])
    ensures 2 * Signed(neg', Num(b, bv[..])) == Signed(neg, old(Num(b, bv[..]))) - x * Num(b, a) + c * Pow(b, |a|)
  {
    ghost var v, A, M := Num(b, bv[..]), Num(b, a), Pow(b, |a|);
    OddNumber(w, bv[..]);
    OddNumber(w, a);
    x := bv[0] % 2;
    neg', c := neg, 0;
    if x != 0 {
      c := FoldIn(b, bv, a, neg);
      neg' := true;
    }
    ghost var t := Num(b, bv[..]);
    FoldedEven(w, |a|, neg, v, A, x, c, neg', t, M);
    HalveInPlace(w, b, bv);
    assert 2 * Signed(neg', Num(b, bv[..])) == Signed(neg', t) by { EvenHalf(neg', t); }
  }

  lemma EvenHalf(neg: bool, t: nat)
    requires t % 2 == 0
    ensures 2 * Signed(neg, t / 2) == Signed(neg, t)
  {}

  method HalveInPlace(w: nat, b: nat, bv: array<nat>)
    requires w >= 2 && b == Pow(2, w) && IsDigits(b, bv[..])
    modifies bv
    ensures IsDigits(b, bv[..]) && Num(b, bv[..]) == old(Num(b, bv[..])) / 2
  {
    PowOne(2);
    var _ := InPlaceShr(w, bv, bv.Length, 1);
  }

  lemma FoldedEven(w: nat, n: nat, neg: bool, v: nat, A: nat, x: nat, c: int, neg': bool, t: nat, M: nat)
    requires w >= 1 && n >= 1 && A % 2 == 1 && x == v % 2 && M == Pow(Pow(2, w), n)
    requires x == 0 ==> neg' == neg && t == v && c == 0
    requires x == 1 ==> neg' && Signed(true, t) == Signed(neg, v) - A + c * M
    ensures t % 2 == 0 && Signed(neg', t) == Signed(neg, v) - x * A + c * M
  {
    var m := Pow(2, w - 1) * Pow(Pow(2, w), n - 1);
    assert M == 2 * m by { Assoc(2, Pow(2, w - 1), Pow(Pow(2, w), n - 1)); }
    FoldedParity(neg, v, A, x, c, neg', t, M, m);
  }

  lemma FoldedParity(neg: bool, v: nat, A: nat, x: nat, c: int, neg': bool, t: nat, M: int, m: int)
    requires A % 2 == 1 && x == v % 2 && M == 2 * m
    requires x == 0 ==> neg' == neg && t == v && c == 0
    requires x == 1 ==> neg' && Signed(true, t) == Signed(neg, v) - A + c * M
    ensures t % 2 == 0 && Signed(neg', t) == Signed(neg, v) - x * A + c * M
  {
    Swap(c, 2, m);
    Parity(Signed(neg, v), A, x, c * m, Signed(neg', t));
  }

  lemma InBounds(w: nat, wordPos: nat, bitPos: nat, k: nat)
    requires w > 0 && bitPos < w && w * wordPos + bitPos < k
    ensures wordPos < k / w + 1
  {
    DivModDef(k, w);
    if wordPos >= k / w + 1 { MulMono(k / w + 1, wordPos, w); Distrib(k / w, 1, w); }
  }

  lemma Parity(sv: int, A: int, x: int, h: int, st: int)
    requires A % 2 == 1 && x == sv % 2 && st == sv - x * A + 2 * h
    ensures st % 2 == 0
  {
    if x == 1 { assert x * A == A; } else { assert x * A == 0; }
  }

  lemma KocStart(w: nat, aa: seq<nat>, a: seq<nat>, length: nat)
    requires w >= 1 && |aa| > 0 && length > 0 && |a| == length && aa[0] % 2 == 1
    requires Num(Pow(2, w), a) == Num(Pow(2, w), aa) % Pow(Pow(2, w), length)
    ensures a[0] % 2 == 1
  {
    var b := Pow(2, w);
    OddNumber(w, aa);
    OddNumber(w, a);
    ModMod(Num(b, aa), Pow(b, length));
    var m := Pow(2, w - 1) * Pow(b, length - 1);
    assert Pow(b, length) == 2 * m by { Assoc(2, Pow(2, w - 1), Pow(b, length - 1)); }
    CongDivisor(Num(b, a), Num(b, aa), 2, m);
  }

  lemma KocEnd(w: nat, aa: nat, A: nat, r: nat, t: int, k: nat, length: nat)
    requires w >= 1 && k < w * length && A == aa % Pow(Pow(2, w), length)
    requires (A * r + Pow(2, k) * t) % Pow(Pow(2, w), length) == 1 % Pow(Pow(2, w), length)
    ensures (aa * r) % Pow(2, k) == 1 % Pow(2, k)
  {
    PowMul(2, w, length);
    MulPos(w, length);
    PowAdd(2, k, w * length - k);
    KocCong(aa, A, r, t, Pow(2, k), Pow(2, w * length - k));
  }

  lemma KocCong(aa: nat, A: nat, r: nat, t: int, p: nat, q: nat)
    requires p > 0 && q > 0 && p * q > 0 && A == aa % (p * q)
    requires (A * r + p * t) % (p * q) == 1 % (p * q)
    ensures (aa * r) % p == 1 % p
  {
    ModMod(aa, p * q);
    CongMul(A, aa, r, r, p * q);
    CongDivisor(A * r, aa * r, p, q);
    CongDivisor(A * r + p * t, 1, p, q);
    ModShift(A * r, t, p);
  }
}
