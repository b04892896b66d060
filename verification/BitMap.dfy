/** Bitmaps over machine words, and their little-endian byte image. */
module BitMaps {
  import opened Digits
  import opened Wnaf

  /** Bit `i` of a number. */
  function BitAt(x: nat, i: nat): (b: bool) { Bits(x, i, 1) == 1 }

  lemma DivDiv(x: nat, a: nat, c: nat)
    requires a > 0 && c > 0
    ensures a * c > 0 && x / (a * c) == (x / a) / c && x / a >= 0
  {
    MulMonoStrict(0, a, c);
    DivModDef(x, a);
    DivModDef(x / a, c);
    var q, r, l := (x / a) / c, (x / a) % c, x % a;
    assert x == q * (a * c) + (l + r * a) by { Distrib(q * c, r, a); Assoc(q, c, a); Commute(a, c); }
    assert 0 <= l + r * a < a * c by { MulMono(r, c - 1, a); Distrib(c, 1, a); MulPos(r, a); Commute(a, c); }
    DivModUnique(x, a * c, q, l + r * a);
  }

  lemma DivSum(x: nat, k: nat, a: nat)
    requires a > 0
    ensures (x + k * a) / a == x / a + k
  {
    DivModDef(x, a);
    Distrib(x / a, k, a);
    DivModUnique(x + k * a, a, x / a + k, x % a);
  }

  /** A higher bit is a bit of the quotient. */
  lemma BitShift(x: nat, i: nat, j: nat)
    ensures x / Pow(2, i) >= 0
    ensures BitAt(x, i + j) == BitAt(x / Pow(2, i), j)
  {
    PowAdd(2, i, j);
    DivDiv(x, Pow(2, i), Pow(2, j));
  }

  /** Adding a multiple of a higher power leaves a bit alone. */
  lemma BitBelow(x: nat, k: nat, i: nat, j: nat)
    requires i < j
    ensures k * Pow(2, j) >= 0
    ensures BitAt(x + k * Pow(2, j), i) == BitAt(x, i)
  {
    MulPos(k, Pow(2, j));
    var h := Pow(2, j - i - 1);
    PowAdd(2, i + 1, j - i - 1);
    PowEven(i + 1);
    assert k * Pow(2, j) == (k * h * 2) * Pow(2, i) by {
      Assoc(2, Pow(2, i), h);
      assert Pow(2, j) == 2 * (Pow(2, i) * h);
      Assoc(k, 2 * h, Pow(2, i));
      Commute(Pow(2, i), h);
      Assoc(2, h, Pow(2, i));
      Assoc(k, h, 2);
      Commute(h, 2);
    }
    MulPos(k, h);
    DivSum(x, k * h * 2, Pow(2, i));
    PowOne(2);
    DivModDef(x, Pow(2, i));
    ModShift(x / Pow(2, i), k * h, 2);
  }

  /** Bits of a number are bits of its digits. */
  lemma DigitBit(bits: nat, s: seq<nat>, k: nat, r: nat)
    requires IsDigits(Pow(2, bits), s) && k < |s| && r < bits
    ensures BitAt(Num(Pow(2, bits), s), k * bits + r) == BitAt(s[k], r)
  {
    var b := Pow(2, bits);
    RadixPower(bits, k);
    SplitAt(b, s, k);
    ValBound(b, s, k);
    BitOfParts(Num(b, s), k * bits, Pow(b, k), Val(b, s, k), Num(b, s[k..]), s[k], Num(b, s[k + 1..]), b, bits, r);
  }

  lemma RadixPower(bits: nat, k: nat)
    ensures k * bits >= 0 && Pow(Pow(2, bits), k) == Pow(2, k * bits)
  {
    MulPos(k, bits);
    Commute(k, bits);
    PowMul(2, bits, k);
  }

  /** A number below, at and above digit `k`. */
  lemma SplitAt(b: nat, s: seq<nat>, k: nat)
    requires k < |s|
    ensures Num(b, s) == Val(b, s, k) + Num(b, s[k..]) * Pow(b, k)
    ensures Num(b, s[k..]) == s[k] + Num(b, s[k + 1..]) * b
  {
    ValSplit(b, s, k, |s| - k);
    Commute(Pow(b, k), Num(b, s[k..]));
    NumCons(b, s[k..]);
    assert s[k..][1..] == s[k + 1..];
    Commute(b, Num(b, s[k + 1..]));
  }

  lemma BitOfParts(n: nat, pos: nat, p: nat, low: nat, high: nat, d: nat, rest: nat, b: nat, bits: nat, r: nat)
    requires p == Pow(2, pos) && n == low + high * p && low < p && high == d + rest * b && b == Pow(2, bits) && r < bits
    ensures BitAt(n, pos + r) == BitAt(d, r)
  {
    DivModUnique(n, p, high, low);
    BitShift(n, pos, r);
    BitBelow(d, rest, r, bits);
  }

  /** `word | (1 << i)` */
  function SetBit(word: nat, i: nat): (r: nat) {
    if BitAt(word, i) then word else word + Pow(2, i)
  }

  lemma SetBitReads(word: nat, i: nat, j: nat)
    ensures BitAt(SetBit(word, i), j) == (i == j || BitAt(word, j))
  {
    if !BitAt(word, i) {
      if j < i {
        BitBelow(word, 1, j, i);
      } else {
        BitShift(word, i, j - i);
        BitShift(word + Pow(2, i), i, j - i);
        DivSum(word, 1, Pow(2, i));
        DivModDef(word, Pow(2, i));
        Increment(word / Pow(2, i), j - i);
      }
    }
  }

  /** Adding one to an even number sets its lowest bit only. */
  lemma Increment(x: nat, j: nat)
    requires !BitAt(x, 0)
    ensures BitAt(x + 1, j) == (j == 0 || BitAt(x, j))
  {
    PowOne(2);
    BitShift(x, 0, 0);
    assert Pow(2, 0) == 1;
    assert x / 1 == x && x % 2 == 0;
    if j > 0 {
      BitShift(x, 1, j - 1);
      BitShift(x + 1, 1, j - 1);
      assert (x + 1) / 2 == x / 2;
    }
  }

  lemma SetBitFits(word: nat, i: nat, bits: nat)
    requires i < bits && word < Pow(2, bits)
    ensures SetBit(word, i) < Pow(2, bits)
  {
    if !BitAt(word, i) {
      BitsExtend(word, i, 1);
      PowAdd(2, i + 1, bits - i - 1);
      PowEven(i + 1);
      var a, c := Pow(2, i + 1), Pow(2, bits - i - 1);
      DivModDef(word, a);
      DivModDef(word, Pow(2, i));
      assert word % a < Pow(2, i);
      var q := word / a;
      Commute(a, c);
      if q >= c { MulMono(c, q, a); }
      MulMono(q, c - 1, a);
      Distrib(c, 1, a);
    }
  }

  /** The owned bitmap. */
  class BitMapOwned {
    const bits: nat
    const inner: array<nat>

    ghost predicate Valid()
      reads this, inner
    {
      bits > 0 && IsDigits(Pow(2, bits), inner[..])
    }

    ghost function Value(): (v: nat)
      reads this, inner
    {
      Num(Pow(2, bits), inner[..])
    }

    /** `allocate_for_bit_capacity`: whole 64-bit groups of words, all zero. */
    constructor (capacity: nat, bits: nat)
      requires bits == 32 || bits == 64
      ensures Valid() && this.bits == bits && fresh(inner) && Value() == 0
      ensures capacity <= inner.Length * bits && (inner.Length * bits) % 64 == 0
    {
      this.bits := bits;
      AllocatedBits(capacity, bits);
      var groups := (capacity + 63) / 64;
      inner := new nat[groups * (64 / bits)](_ => 0);
      new;
      ValZero(Pow(2, bits), inner[..], inner.Length);
    }

    /** `set_bit_on_unchecked` */
    method SetBitOn(pos: nat)
      requires Valid() && pos < inner.Length * bits
      modifies inner
      ensures Valid()
      ensures forall i :: 0 <= i < inner.Length * bits ==> BitAt(Value(), i) == (i == pos || BitAt(old(Value()), i))
    {
      ghost var s := inner[..];
      var k, r := pos / bits, pos % bits;
      Position(pos, bits, inner.Length);
      SetBitFits(inner[k], r, bits);
      inner[k] := SetBit(inner[k], r);
      ghost var t := inner[..];
      assert t == s[k := SetBit(s[k], r)];
      forall i | 0 <= i < inner.Length * bits
        ensures BitAt(Num(Pow(2, bits), t), i) == (i == pos || BitAt(Num(Pow(2, bits), s), i))
      {
        SetWord(bits, s, t, k, r, i);
      }
    }

    /** `get_bit_unchecked` */
    method GetBit(pos: nat) returns (b: bool)
      requires Valid() && pos < inner.Length * bits
      ensures b == BitAt(Value(), pos)
    {
      Position(pos, bits, inner.Length);
      DigitBit(bits, inner[..], pos / bits, pos % bits);
      b := BitAt(inner[pos / bits], pos % bits);
    }
  }

  lemma AllocatedBits(capacity: nat, bits: nat)
    requires bits == 32 || bits == 64
    ensures var n := ((capacity + 63) / 64) * (64 / bits); n >= 0 && capacity <= n * bits && (n * bits) % 64 == 0
  {
    var groups := (capacity + 63) / 64;
    if bits == 32 {
      assert groups * (64 / bits) == 2 * groups;
      assert (2 * groups) * 32 == groups * 64;
    } else {
      assert groups * (64 / bits) == groups;
    }
  }

  lemma Position(pos: nat, bits: nat, n: nat)
    requires bits > 0 && pos < n * bits
    ensures 0 <= pos / bits < n && 0 <= pos % bits < bits && pos == (pos / bits) * bits + pos % bits
  {
    DivModDef(pos, bits);
    if pos / bits >= n { MulMono(n, pos / bits, bits); }
  }

  lemma SetWord(bits: nat, s: seq<nat>, t: seq<nat>, k: nat, r: nat, i: nat)
    requires bits > 0 && IsDigits(Pow(2, bits), s) && IsDigits(Pow(2, bits), t) && k < |s| && r < bits && i < |s| * bits
    requires t == s[k := SetBit(s[k], r)]
    ensures BitAt(Num(Pow(2, bits), t), i) == (i == k * bits + r || BitAt(Num(Pow(2, bits), s), i))
  {
    Position(i, bits, |s|);
    var j, q := i / bits, i % bits;
    DigitBit(bits, s, j, q);
    DigitBit(bits, t, j, q);
    SetBitReads(s[k], r, q);
    if i == k * bits + r { DivModUnique(i, bits, k, r); }
  }

  //// Byte image

  /** The little-endian bytes of a word of `n` bytes. */
  function LittleEndian(n: nat, d: nat): (s: seq<nat>)
    ensures |s| == n && IsDigits(256, s)
    ensures d < Pow(256, n) ==> Num(256, s) == d
  {
    if n == 0 then []
    else
      DivModDef(d, 256);
      var s := [d % 256] + LittleEndian(n - 1, d / 256);
      NumCons(256, s);
      assert s[1..] == LittleEndian(n - 1, d / 256);
      assert d < Pow(256, n) ==> d / 256 < Pow(256, n - 1);
      s
  }

  /** `as_slice`: the bytes of the words in memory order. */
  function AsSlice(n: nat, words: seq<nat>): (s: seq<nat>)
    ensures |s| == |words| * n && IsDigits(256, s)
  {
    if words == [] then [] else LittleEndian(n, words[0]) + AsSlice(n, words[1..])
  }

  /** `from_raw`: the words of a byte slice, which the source asserts to be whole. */
  function FromRaw(n: nat, bytes: seq<nat>): (words: seq<nat>)
    requires n > 0 && |bytes| % n == 0
    decreases |bytes|
  {
    if bytes == [] then [] else
    WholeWords(|bytes|, n);
    [Num(256, bytes[..n])] + FromRaw(n, bytes[n..])
  }

  lemma WholeWords(len: nat, n: nat)
    requires n > 0 && len > 0 && len % n == 0
    ensures n <= len && (len - n) % n == 0
  {
    if len < n { ModSmall(len, n); }
    ModShift(len - n, 1, n);
  }

  lemma NumConcat(b: nat, s: seq<nat>, t: seq<nat>)
    ensures Num(b, s + t) == Num(b, s) + Pow(b, |s|) * Num(b, t)
  {
    var st := s + t;
    ValSplit(b, st, |s|, |t|);
    assert st[|s|..] == t;
    ValSame(b, st, s, |s|);
  }

  lemma {:induction false} AsSliceValue(n: nat, words: seq<nat>)
    requires IsDigits(Pow(256, n), words)
    ensures Num(256, AsSlice(n, words)) == Num(Pow(256, n), words)
  {
    if words != [] {
      var first, rest := LittleEndian(n, words[0]), AsSlice(n, words[1..]);
      AsSliceValue(n, words[1..]);
      NumConcat(256, first, rest);
      NumCons(Pow(256, n), words);
    }
  }

  lemma {:induction false} FromRawValue(n: nat, bytes: seq<nat>)
    requires n > 0 && |bytes| % n == 0 && IsDigits(256, bytes)
    ensures |FromRaw(n, bytes)| * n == |bytes|
    ensures IsDigits(Pow(256, n), FromRaw(n, bytes))
    ensures Num(Pow(256, n), FromRaw(n, bytes)) == Num(256, bytes)
    decreases |bytes|
  {
    var words := FromRaw(n, bytes);
    if bytes != [] {
      WholeWords(|bytes|, n);
      FromRawValue(n, bytes[n..]);
      NumCons(Pow(256, n), words);
      assert words[1..] == FromRaw(n, bytes[n..]);
      NumConcat(256, bytes[..n], bytes[n..]);
      assert bytes[..n] + bytes[n..] == bytes;
      ValBound(256, bytes[..n], n);
      assert |words| == 1 + |FromRaw(n, bytes[n..])|;
      Distrib(1, |FromRaw(n, bytes[n..])|, n);
    }
  }
}
