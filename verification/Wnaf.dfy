/** Windowed non-adjacent recoding of a scalar into signed odd digits. */
module Wnaf {
  import opened Digits

  /** `count` bits of `s` from position `offset`. */
  function Bits(s: nat, offset: nat, count: nat): (r: nat) {
    DivModDef(s, Pow(2, offset));
    DivModDef(s / Pow(2, offset), Pow(2, count));
    (s / Pow(2, offset)) % Pow(2, count)
  }

  /** Two's complement truncation to 32 bits. */
  function Wrap32(x: int): (r: int) {
    (x + 0x8000_0000) % 0x1_0000_0000 - 0x8000_0000
  }

  /** The number the first `n` digits stand for. */
  ghost function DigitSum(d: seq<int>, n: nat): (r: int)
    requires n <= |d|
  {
    if n == 0 then 0 else DigitSum(d, n - 1) + d[n - 1] * Pow(2, n - 1)
  }

  /** An odd digit of magnitude below `half`. */
  ghost predicate OddBelow(d: int, half: int) {
    d % 2 == 1 && -half < d < half
  }

  /** Nonzero digits are odd, below half the window, and a window apart. */
  ghost predicate IsWnaf(d: seq<int>, w: nat)
    requires w >= 1
  {
    && (forall i :: 0 <= i < |d| && d[i] != 0 ==> OddBelow(d[i], Pow(2, w - 1)))
    && (forall i, j :: 0 <= i < j < |d| && d[i] != 0 && d[j] != 0 ==> j - i >= w)
  }

  lemma {:induction false} SumSame(d: seq<int>, e: seq<int>, n: nat)
    requires n <= |d| && n <= |e| && d[..n] == e[..n]
    ensures DigitSum(d, n) == DigitSum(e, n)
  {
    if n > 0 {
      assert d[..n][..n - 1] == d[..n - 1] && e[..n][..n - 1] == e[..n - 1];
      assert d[n - 1] == d[..n][n - 1] == e[n - 1];
      SumSame(d, e, n - 1);
    }
  }

  lemma {:induction false} SumGap(d: seq<int>, i: nat, j: nat)
    requires i < j <= |d| && forall k :: i < k < j ==> d[k] == 0
    ensures DigitSum(d, j) == DigitSum(d, i) + d[i] * Pow(2, i)
  {
    if i + 1 < j { SumGap(d, i, j - 1); }
  }

  /** Reading `count` more bits extends the residue read so far. */
  lemma BitsExtend(s: nat, offset: nat, count: nat)
    ensures s % Pow(2, offset + count) == s % Pow(2, offset) + Bits(s, offset, count) * Pow(2, offset)
    ensures Bits(s, offset, count) < Pow(2, count)
  {
    var p, q := Pow(2, offset), Pow(2, count);
    DivModDef(s, p);
    DivModDef(s / p, q);
    PowAdd(2, offset, count);
    var h, m, l := s / p / q, Bits(s, offset, count), s % p;
    assert s == h * (p * q) + (l + m * p) by { Distrib(h * q, m, p); Assoc(h, q, p); Commute(p, q); }
    assert 0 <= l + m * p < p * q by { MulMono(m, q - 1, p); Distrib(q, 1, p); MulPos(m, p); Commute(p, q); }
    DivModUnique(s, p * q, h, l + m * p);
  }

  lemma EvenModulus(x: nat, q: nat)
    requires q > 0
    ensures (x % (2 * q)) % 2 == x % 2
  {
    var k := x / (2 * q);
    DivModDef(x, 2 * q);
    Assoc(k, q, 2);
    CongIntro(x, x % (2 * q), k * q, 2);
  }

  lemma PowEven(n: nat)
    requires n >= 1
    ensures Pow(2, n) == 2 * Pow(2, n - 1)
  {}

  /** The lowest of several bits. */
  lemma BitsParity(s: nat, offset: nat, count: nat)
    requires count >= 1
    ensures Bits(s, offset, count) % 2 == Bits(s, offset, 1)
  {
    PowEven(count);
    PowOne(2);
    DivModDef(s, Pow(2, offset));
    EvenModulus(s / Pow(2, offset), Pow(2, count - 1));
  }

  /** What the loop keeps: the digits so far and the carry stand for the bits so far. */
  ghost predicate ValueSoFar(d: seq<int>, s: nat, sign: int, bit: nat, carry: int) {
    && bit <= |d| && (carry == 0 || carry == 1)
    && sign * DigitSum(d, bit) + carry * Pow(2, bit) == s % Pow(2, bit)
    && (carry == 1 ==> bit >= 1 && s % Pow(2, bit) >= Pow(2, bit - 1))
  }

  /** What the loop keeps: only a window before `bit`, or at the very end, are digits written. */
  ghost predicate ShapeSoFar(d: seq<int>, w: nat, bit: nat, last: int)
    requires w >= 1
  {
    && bit <= |d| && IsWnaf(d, w)
    && (forall i :: bit <= i < |d| ==> d[i] == 0)
    && (forall i :: 0 <= i < bit && d[i] != 0 ==> i + w <= bit || bit == |d|)
    && -1 <= last < bit && (last >= 0 ==> d[last] != 0) && (forall i :: last < i < |d| ==> d[i] == 0)
  }

  lemma SkipBit(d: seq<int>, s: nat, sign: int, bit: nat, carry: int)
    requires ValueSoFar(d, s, sign, bit, carry) && bit < |d| && d[bit] == 0 && Bits(s, bit, 1) == carry
    ensures ValueSoFar(d, s, sign, bit + 1, carry)
  {
    BitsExtend(s, bit, 1);
    PowEven(bit + 1);
    DivModDef(s, Pow(2, bit));
  }

  /** The digit of a window of `n` values out of `2 * half`: odd, small, and equal to the bits plus the carry
      minus the new carry. */
  lemma WindowDigit(half: nat, n: nat, bits: nat, carry: int, word: int, carry': int)
    requires half > 0 && half % 2 == 0 && n % 2 == 0 && (n == 2 * half || n <= half)
    requires bits < n && (carry == 0 || carry == 1)
    requires bits % 2 != carry && word == bits + carry && carry' == (word / half) % 2
    ensures word < n
    ensures carry' == 0 || (carry' == 1 && n == 2 * half && bits >= half)
    ensures OddBelow(word - carry' * (2 * half), half)
  {
    if word < half { DivModUnique(word, half, 0, word); } else { DivModUnique(word, half, 1, word - half); }
  }

  /** The 32-bit subtraction is exact, also when `size` itself wraps. */
  lemma WrapExact(size: nat, word: int, carry: int)
    requires (2 * size <= 0x8000_0000 || size == 0x8000_0000) && 0 <= word < size && (carry == 0 || carry == 1)
    requires carry == 1 ==> 2 * word >= size
    ensures Wrap32(word - Wrap32(carry * size)) == word - carry * size
  {
    if carry == 1 && size == 0x8000_0000 {
      assert Wrap32(size) == -0x8000_0000;
    }
  }

  lemma WindowSize(w: nat)
    requires 2 <= w <= 31
    ensures 2 * Pow(2, w) <= 0x8000_0000 || Pow(2, w) == 0x8000_0000
  {
    ThirtyOne(31);
    if w < 31 {
      PowMono(2, w + 1, 31);
      PowEven(w + 1);
    }
  }

  lemma ThirtyOne(n: nat)
    requires n == 31
    ensures Pow(2, n) == 0x8000_0000
  {
    assert Pow(2, 4) == 16 && Pow(2, 3) == 8;
    PowAdd(2, 4, 4);
    PowAdd(2, 8, 8);
    PowAdd(2, 4, 3);
    PowAdd(2, 8, 7);
    PowAdd(2, 16, 15);
  }

  lemma WindowInt(size: nat, half: nat, n: nat, bits: nat, carry: int, word: int, carry': int)
    requires size == 2 * half && half > 0 && half % 2 == 0 && n % 2 == 0 && (n == size || n <= half)
    requires 2 * size <= 0x8000_0000 || size == 0x8000_0000
    requires bits < n && (carry == 0 || carry == 1)
    requires bits % 2 != carry && word == bits + carry && carry' == (word / half) % 2
    ensures carry' == 0 || (carry' == 1 && n == size && bits >= half)
    ensures Wrap32(word - Wrap32(carry' * size)) == word - carry' * size
    ensures OddBelow(word - carry' * size, half)
  {
    WindowDigit(half, n, bits, carry, word, carry');
    WrapExact(size, word, carry');
  }

  lemma Sizes(w: nat, now: nat)
    requires 2 <= w <= 31 && 1 <= now <= w
    ensures var size, half, n := Pow(2, w), Pow(2, w - 1), Pow(2, now);
      && size == 2 * half && half > 0 && half % 2 == 0 && n % 2 == 0
      && (if now == w then n == size else n <= half)
      && (2 * size <= 0x8000_0000 || size == 0x8000_0000)
  {
    assert Pow(2, w) == 2 * Pow(2, w - 1) by { PowEven(w); }
    assert Pow(2, w - 1) % 2 == 0 by { PowEven(w - 1); }
    assert Pow(2, now) % 2 == 0 by { PowEven(now); }
    if now < w { PowMono(2, now, w - 1); }
    WindowSize(w);
  }

  /** The value equation across a window. */
  lemma WindowValue(u: nat, size: nat, step: nat, sign: int, sum: int, bits: nat, carry: int, carry': int, digit: int)
    requires sign == 1 || sign == -1
    requires digit == bits + carry - carry' * size && (carry' == 0 || carry' == 1)
    requires carry' == 1 ==> step == size * u
    ensures sign * (sum + (sign * digit) * u) + carry' * step == sign * sum + carry * u + bits * u
  {
    Distrib(bits + carry, carry' * size, u);
    Distrib(bits, carry, u);
    assert sign * ((sign * digit) * u) == digit * u;
    Distrib(sum, (sign * digit) * u, sign);
  }

  lemma TakeWindow(d: seq<int>, d': seq<int>, w: nat, s: nat, sign: int, bit: nat, carry: int, now: nat, carry': int,
                   digit: int)
    requires w >= 1 && ValueSoFar(d, s, sign, bit, carry) && (sign == 1 || sign == -1)
    requires 1 <= now && bit + now <= |d| && (forall i :: bit < i < |d| ==> d[i] == 0)
    requires digit == Bits(s, bit, now) + carry - carry' * Pow(2, w)
    requires d' == d[bit := sign * digit]
    requires carry' == 0 || (carry' == 1 && now == w && Bits(s, bit, now) >= Pow(2, w - 1))
    ensures ValueSoFar(d', s, sign, bit + now, carry')
  {
    SumSame(d, d', bit);
    SumGap(d', bit, bit + now);
    BitsExtend(s, bit, now);
    PowAdd(2, w, bit);
    WindowValue(Pow(2, bit), Pow(2, w), Pow(2, bit + now), sign, DigitSum(d, bit), Bits(s, bit, now), carry, carry',
                digit);
    if carry' == 1 { TopBit(s, bit, w); }
  }

  lemma TakeDigit(d: seq<int>, d': seq<int>, w: nat, sign: int, bit: nat, last: int, now: nat, digit: int)
    requires w >= 1 && ShapeSoFar(d, w, bit, last) && (sign == 1 || sign == -1)
    requires 1 <= now && bit + now <= |d| && (now == w || bit + now == |d|)
    requires OddBelow(digit, Pow(2, w - 1)) && d' == d[bit := sign * digit]
    ensures ShapeSoFar(d', w, bit + now, bit)
  {
    assert OddBelow(sign * digit, Pow(2, w - 1)) && sign * digit != 0 by { if sign == -1 { NegMul(1, digit); } }
    Spacing(d, d', w, bit);
  }

  lemma TopBit(s: nat, bit: nat, w: nat)
    requires w >= 1 && Bits(s, bit, w) >= Pow(2, w - 1)
    ensures s % Pow(2, bit + w) >= Pow(2, bit + w - 1)
  {
    BitsExtend(s, bit, w);
    MulMono(Pow(2, w - 1), Bits(s, bit, w), Pow(2, bit));
    PowAdd(2, w - 1, bit);
    DivModDef(s, Pow(2, bit));
  }

  lemma Spacing(d: seq<int>, d': seq<int>, w: nat, bit: nat)
    requires w >= 1 && IsWnaf(d, w) && bit < |d| == |d'| && (forall i :: bit <= i < |d| ==> d[i] == 0)
    requires forall i :: 0 <= i < bit && d[i] != 0 ==> i + w <= bit
    requires d' == d[bit := d'[bit]] && OddBelow(d'[bit], Pow(2, w - 1))
    ensures IsWnaf(d', w)
  {
    forall i, j | 0 <= i < j < |d'| && d'[i] != 0 && d'[j] != 0 ensures j - i >= w {
      assert j <= bit && d[i] != 0;
    }
  }

  /** One window: `now` bits and the carry become a signed digit and a new carry, in 32-bit arithmetic. */
  method WriteDigit(wnaf: array<int>, S: nat, sign: int, w: nat, bit: nat, c: int, ghost last: int)
    returns (now: nat, c': int)
    requires 2 <= w <= 31 && bit < wnaf.Length && Bits(S, bit, 1) != c && (sign == 1 || sign == -1)
    requires ValueSoFar(wnaf[..], S, sign, bit, c) && ShapeSoFar(wnaf[..], w, bit, last)
    modifies wnaf
    ensures now > 0 && bit + now <= wnaf.Length
    ensures ValueSoFar(wnaf[..], S, sign, bit + now, c') && ShapeSoFar(wnaf[..], w, bit + now, bit)
  {
    ghost var d := wnaf[..];
    now := if w > wnaf.Length - bit then wnaf.Length - bit else w;
    var bits := Bits(S, bit, now);
    BitsExtend(S, bit, now);
    BitsParity(S, bit, now);
    Sizes(w, now);
    var word := bits + c;
    c' := (word / Pow(2, w - 1)) % 2;
    WindowInt(Pow(2, w), Pow(2, w - 1), Pow(2, now), bits, c, word, c');
    word := Wrap32(word - Wrap32(c' * Pow(2, w)));
    wnaf[bit] := sign * word;
    assert wnaf[..] == d[bit := sign * word];
    TakeWindow(d, wnaf[..], w, S, sign, bit, c, now, c', word);
    TakeDigit(d, wnaf[..], w, sign, bit, last, now, word);
  }

  /** `Wnaf::new` and `wnaf`: `carry` is what the final debug assertion compares with zero. */
  method Recode(wnaf: array<int>, s: nat, order: nat, top: nat, w: nat) returns (bits: int, ghost carry: int)
    requires 2 <= w <= 31 && s < order
    requires forall i :: 0 <= i < wnaf.Length ==> wnaf[i] == 0
    modifies wnaf
    ensures IsWnaf(wnaf[..], w) && 0 <= bits <= wnaf.Length
    ensures bits > 0 ==> wnaf[bits - 1] != 0
    ensures forall i :: bits <= i < wnaf.Length ==> wnaf[i] == 0
    ensures RecodedTo(wnaf[..], if Bits(s, top, 1) > 0 then order - s else s, Bits(s, top, 1) > 0, carry)
  {
    var S, sign := s, 1;
    if Bits(s, top, 1) > 0 { S, sign := order - s, -1; }
    var c, bit, last := 0, 0, -1;
    ModSmall(0, 1);
    while bit < wnaf.Length
      invariant ValueSoFar(wnaf[..], S, sign, bit, c)
      invariant ShapeSoFar(wnaf[..], w, bit, last)
    {
      if Bits(S, bit, 1) == c {
        SkipBit(wnaf[..], S, sign, bit, c);
        bit := bit + 1;
        continue;
      }
      var now;
      now, c := WriteDigit(wnaf, S, sign, w, bit, c, last);
      last, bit := bit, bit + now;
    }
    carry := c;
    bits := last + 1;
    Complete(wnaf[..], S, sign, c);
  }

  /** The digits stand for `s`, negated or not, up to a final carry that is zero when `s` leaves the top bit free. */
  ghost predicate RecodedTo(d: seq<int>, s: nat, negated: bool, carry: int) {
    var sum := if negated then -DigitSum(d, |d|) else DigitSum(d, |d|);
    && (carry == 0 || carry == 1)
    && sum + carry * Pow(2, |d|) == s % Pow(2, |d|)
    && (|d| > 0 && s < Pow(2, |d| - 1) ==> carry == 0 && sum == s)
  }

  lemma Complete(d: seq<int>, s: nat, sign: int, carry: int)
    requires ValueSoFar(d, s, sign, |d|, carry) && (sign == 1 || sign == -1)
    ensures RecodedTo(d, s, sign == -1, carry)
  {
    if sign == -1 { NegMul(1, DigitSum(d, |d|)); }
    if |d| > 0 && s < Pow(2, |d| - 1) {
      PowEven(|d|);
      ModSmall(s, Pow(2, |d|));
    }
  }
}
