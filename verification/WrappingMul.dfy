/** Products and powers modulo `b^s`, where `s` is the size of the output buffer. */
module WrappingArith {
  import opened Digits
  import opened Words
  import opened Rows

  /** Dropping the digits above `k` changes a number by a multiple of `b^k`. */
  lemma LowDigits(b: nat, x: seq<nat>, k: nat) returns (h: nat)
    ensures Num(b, x) == Val(b, x, k) + Pow(b, k) * h
  {
    if k <= |x| {
      ValSplit(b, x, k, |x| - k);
      h := Val(b, x[k..], |x| - k);
    } else {
      ValPad(b, x, k);
      h := 0;
    }
  }

  lemma RowCong(b: nat, x: seq<nat>, s: nat, i: nat, d: nat, v: int, v': int, c: int, yi: int)
    requires b >= 2 && i <= s
    requires v % Pow(b, s) == (Num(b, x) * yi) % Pow(b, s)
    requires v' + c * Pow(b, s) == v + (d * Pow(b, i)) * Val(b, x, s - i)
    ensures v' % Pow(b, s) == (Num(b, x) * (yi + d * Pow(b, i))) % Pow(b, s)
  {
    var h := LowDigits(b, x, s - i);
    PowAdd(b, i, s - i);
    DropHigh(Num(b, x), Val(b, x, s - i), h, d, Pow(b, i), Pow(b, s - i));
    AddTerm(v, v', Num(b, x), yi, d * Pow(b, i), c, d * h, Pow(b, s));
  }

  lemma AddTerm(v: int, v': int, x: int, yi: int, w: int, c: int, e: int, m: int)
    requires m > 0 && v % m == (x * yi) % m && v' + c * m == v + x * w - e * m
    ensures v' % m == (x * (yi + w)) % m
  {
    Distrib(c, e, m);
    CongIntro(v', v + x * w, -(c + e), m);
    CongAdd(v, x * yi, x * w, x * w, m);
    Distrib(yi, w, x);
  }

  lemma DropHigh(x: int, low: int, h: int, d: int, p: int, q: int)
    requires x == low + q * h
    ensures (d * p) * low == x * (d * p) - (d * h) * (p * q)
  {
    calc {
      x * (d * p) - (d * p) * low;
      { Distrib(x, low, d * p); }
      (d * p) * (q * h);
      { assert q * h == h * q; Regroup(d, p, h, q); }
      (d * h) * (p * q);
    }
  }

  /** `big_wrapping_mul`: the product of two numbers modulo `b^s`, into `s` zeroed words. */
  method BigWrappingMul(b: nat, x: seq<nat>, y: seq<nat>, out: array<nat>)
    requires b >= 2 && IsDigits(b, x) && IsDigits(b, y)
    requires forall i :: 0 <= i < out.Length ==> out[i] == 0
    modifies out
    ensures IsDigits(b, out[..])
    ensures Num(b, out[..]) == (Num(b, x) * Num(b, y)) % Pow(b, out.Length)
  {
    var s := out.Length;
    ValZero(b, out[..], s);
    assert Num(b, x) * Val(b, y, 0) == 0;
    var i := 0;
    while i < s
      invariant i <= s && IsDigits(b, out[..])
      invariant Num(b, out[..]) % Pow(b, s) == (Num(b, x) * Val(b, y, i)) % Pow(b, s)
    {
      ghost var v := Num(b, out[..]);
      var c := MulRowAt(b, x, s - i, Get(y, i), i, out);
      RowCong(b, x, s, i, Get(y, i), v, Num(b, out[..]), c, Val(b, y, i));
      i := i + 1;
    }
    ValBound(b, out[..], s);
    ModSmall(Num(b, out[..]), Pow(b, s));
    var h := LowDigits(b, y, s);
    CongIntro(Num(b, y), Val(b, y, s), h, Pow(b, s));
    CongMul(Num(b, x), Num(b, x), Num(b, y), Val(b, y, s), Pow(b, s));
  }

  //// Scanning an exponent bit by bit

  function BigEndian(bytes: seq<nat>): (v: nat)
  {
    if |bytes| == 0 then 0 else 256 * BigEndian(bytes[..|bytes| - 1]) + bytes[|bytes| - 1]
  }

  lemma {:induction false} ZeroBytes(a: seq<nat>)
    requires forall i :: 0 <= i < |a| ==> a[i] == 0
    ensures BigEndian(a) == 0
  {
    if |a| > 0 { ZeroBytes(a[..|a| - 1]); }
  }

  predicate IsMask(mask: nat) {
    mask in {0, 1, 2, 4, 8, 16, 32, 64, 128}
  }

  /** The exponent read so far: earlier bytes give `e0`, and the bits of `byte` above the mask follow. */
  function Progress(e0: nat, byte: nat, mask: nat): (e: nat)
  {
    match mask
    case 128 => e0 + byte / 256
    case 64 => 2 * e0 + byte / 128
    case 32 => 4 * e0 + byte / 64
    case 16 => 8 * e0 + byte / 32
    case 8 => 16 * e0 + byte / 16
    case 4 => 32 * e0 + byte / 8
    case 2 => 64 * e0 + byte / 4
    case 1 => 128 * e0 + byte / 2
    case _ => 256 * e0 + byte
  }

  /** `byte & mask` for a one-bit mask, as a digit. */
  function MaskBit(byte: nat, mask: nat): (bit: nat)
    ensures bit < 2
  {
    match mask
    case 128 => (byte / 128) % 2
    case 64 => (byte / 64) % 2
    case 32 => (byte / 32) % 2
    case 16 => (byte / 16) % 2
    case 8 => (byte / 8) % 2
    case 4 => (byte / 4) % 2
    case 2 => (byte / 2) % 2
    case 1 => byte % 2
    case _ => 0
  }

  lemma BitStep(e0: nat, byte: nat, mask: nat)
    requires IsMask(mask) && mask > 0 && byte < 256
    ensures IsMask(mask / 2)
    ensures Progress(e0, byte, mask / 2) == 2 * Progress(e0, byte, mask) + MaskBit(byte, mask)
  {
    match mask
    case 128 => Halve(byte, 128, 256);
    case 64 => Halve(byte, 64, 128);
    case 32 => Halve(byte, 32, 64);
    case 16 => Halve(byte, 16, 32);
    case 8 => Halve(byte, 8, 16);
    case 4 => Halve(byte, 4, 8);
    case 2 => Halve(byte, 2, 4);
    case 1 => Halve(byte, 1, 2);
  }

  /** One more leading bit of a number. */
  lemma Halve(x: nat, d: nat, e: nat)
    requires d > 0 && e == 2 * d
    ensures x / d == 2 * (x / e) + (x / d) % 2
  {
    var q := x / d;
    DivModDef(x, d);
    DivModDef(x, e);
    DivModDef(q, 2);
    var h, r := q / 2, q % 2;
    assert x == h * e + (r * d + x % d) by { Distrib(2 * h, r, d); Assoc(h, 2, d); Commute(2, h); }
    assert 0 <= r * d <= d by { MulMono(r, 1, d); MulPos(r, d); }
    DivModUnique(x, e, h, r * d + x % d);
  }

  lemma PowBit(x: nat, e: nat, bit: nat)
    requires bit < 2
    ensures Pow(x, 2 * e + bit) == (Pow(x, e) * Pow(x, e)) * (if bit == 1 then x else 1)
  {
    PowAdd(x, e, e);
    assert bit == 1 ==> 2 * e + 1 - 1 == e + e;
  }

  /** The same step on residues: square, then multiply by `x` if the bit is set. */
  lemma PowBitMod(x: nat, e: nat, bit: nat, m: nat)
    requires bit < 2 && m > 0
    ensures var r := Pow(x, e) % m;
            Pow(x, 2 * e + bit) % m == if bit == 1 then (((r * r) % m) * x) % m else (r * r) % m
  {
    var z := Pow(x, e);
    var r := z % m;
    PowBit(x, e, bit);
    ModMod(z, m);
    CongMul(r, z, r, z, m);
    ModMod(r * r, m);
    CongMul((r * r) % m, z * z, x, x, m);
  }

  /** `result := result * y mod b^s`, through a scratch buffer that is left zeroed again. */
  method MulThroughScratch(b: nat, result: array<nat>, y: seq<nat>, scratch: array<nat>)
    requires b >= 2 && IsDigits(b, result[..]) && IsDigits(b, y)
    requires result != scratch && result.Length == scratch.Length
    requires forall i :: 0 <= i < scratch.Length ==> scratch[i] == 0
    modifies result, scratch
    ensures IsDigits(b, result[..])
    ensures forall i :: 0 <= i < scratch.Length ==> scratch[i] == 0
    ensures Num(b, result[..]) == (old(Num(b, result[..])) * Num(b, y)) % Pow(b, result.Length)
  {
    BigWrappingMul(b, result[..], y, scratch);
    ghost var product := scratch[..];
    forall i | 0 <= i < result.Length { result[i] := scratch[i]; }
    assert result[..] == product;
    forall i | 0 <= i < scratch.Length { scratch[i] := 0; }
    assert result[..] == product;
  }

  /** `big_wrapping_pow`: `base^exp mod b^s` for a big-endian exponent, by the binary method. */
  method BigWrappingPow(b: nat, base: seq<nat>, exp: seq<nat>, scratch: array<nat>) returns (result: array<nat>)
    requires b >= 2 && IsDigits(b, base) && IsDigits(256, exp) && scratch.Length > 0
    requires forall i :: 0 <= i < scratch.Length ==> scratch[i] == 0
    modifies scratch
    ensures fresh(result) && result.Length == scratch.Length && IsDigits(b, result[..])
    ensures forall i :: 0 <= i < scratch.Length ==> scratch[i] == 0
    ensures Num(b, result[..]) == Pow(Num(b, base), BigEndian(exp)) % Pow(b, scratch.Length)
  {
    var s := scratch.Length;
    result := new nat[s](_ => 0);
    result[0] := 1;
    OneDigit(b, result[..]);
    var i := 0;
    while i < |exp|
      invariant i <= |exp| && IsDigits(b, result[..])
      invariant forall j :: 0 <= j < s ==> scratch[j] == 0
      invariant Num(b, result[..]) == Pow(Num(b, base), BigEndian(exp[..i])) % Pow(b, s)
    {
      PowByte(b, base, exp[i], BigEndian(exp[..i]), result, scratch);
      assert exp[..i + 1][..i] == exp[..i];
      i := i + 1;
    }
    assert exp[..|exp|] == exp;
  }

  lemma OneDigit(b: nat, s: seq<nat>)
    requires b >= 2 && |s| > 0 && s[0] == 1 && forall i :: 0 < i < |s| ==> s[i] == 0
    ensures Num(b, s) == 1 == Pow(b, 0) % Pow(b, |s|)
  {
    ValSplit(b, s, 1, |s| - 1);
    ValZero(b, s[1..], |s| - 1);
    assert Val(b, s, 1) == Val(b, s, 0) + s[0] * Pow(b, 0);
    PowMono(b, 1, |s|);
    PowOne(b);
    ModSmall(1, Pow(b, |s|));
  }

  method PowByte(b: nat, base: seq<nat>, byte: nat, ghost e0: nat, result: array<nat>, scratch: array<nat>)
    requires b >= 2 && byte < 256 && IsDigits(b, base) && IsDigits(b, result[..])
    requires result != scratch && result.Length == scratch.Length
    requires forall i :: 0 <= i < scratch.Length ==> scratch[i] == 0
    requires Num(b, result[..]) == Pow(Num(b, base), e0) % Pow(b, result.Length)
    modifies result, scratch
    ensures IsDigits(b, result[..])
    ensures forall i :: 0 <= i < scratch.Length ==> scratch[i] == 0
    ensures Num(b, result[..]) == Pow(Num(b, base), 256 * e0 + byte) % Pow(b, result.Length)
  {
    ghost var X, M := Num(b, base), Pow(b, result.Length);
    var mask: nat := 128;
    ghost var e := e0;
    while mask > 0
      invariant IsMask(mask) && IsDigits(b, result[..])
      invariant forall i :: 0 <= i < scratch.Length ==> scratch[i] == 0
      invariant e == Progress(e0, byte, mask)
      invariant Num(b, result[..]) == Pow(X, e) % M
    {
      BitStep(e0, byte, mask);
      var bit := MaskBit(byte, mask);
      PowBitMod(X, e, bit, M);
      MulThroughScratch(b, result, result[..], scratch);
      if bit != 0 {
        MulThroughScratch(b, result, base, scratch);
      }
      e := 2 * e + bit;
      mask := mask / 2;
    }
  }
}
