/** The byte interface: `modexp(base, exp, modulus)` on big-endian byte strings. */
module ByteInterface {
  import opened Digits
  import opened Words
  import opened WrappingArith
  import opened MultiPrecision
  import opened ModularPowerTwo
  import opened ModularPower

  /** `Word::to_be_bytes`. */
  function WordBytes(k: nat, d: nat): (s: seq<nat>)
    ensures |s| == k && IsDigits(256, s)
    ensures d < Pow(256, k) ==> BigEndian(s) == d
  {
    if k == 0 then []
    else
      DivModDef(d, 256);
      var s := WordBytes(k - 1, d / 256) + [d % 256];
      assert s[..k - 1] == WordBytes(k - 1, d / 256);
      assert d < Pow(256, k) ==> d / 256 < Pow(256, k - 1);
      s
  }

  lemma BaseOfBytes(wordBytes: nat)
    ensures Pow(256, wordBytes) == Pow(2, 8 * wordBytes)
  {
    Pow256();
    PowMul(2, 8, wordBytes);
  }

  lemma {:induction false} BigEndianBound(s: seq<nat>)
    requires IsDigits(256, s)
    ensures BigEndian(s) < Pow(256, |s|)
  {
    if |s| > 0 { BigEndianBound(s[..|s| - 1]); }
  }

  /** Digits `i..` of a number being filled from the top; the new digit goes below them. */
  lemma PrependDigit(b: nat, s: seq<nat>, i: nat)
    requires i < |s|
    ensures Num(b, s[i..]) == s[i] + b * Num(b, s[i + 1..])
  {
    NumCons(b, s[i..]);
    assert s[i..][1..] == s[i + 1..];
  }

  /** Appending a word of bytes to a big-endian prefix. */
  lemma TakeWord(bytes: seq<nat>, j: nat, k: nat)
    requires j + k <= |bytes|
    ensures BigEndian(bytes[..j + k]) == Pow(256, k) * BigEndian(bytes[..j]) + BigEndian(bytes[j..j + k])
  {
    BigEndianSplit(bytes[..j + k], k);
    assert bytes[..j + k][..j] == bytes[..j];
    assert bytes[..j + k][j..] == bytes[j..j + k];
  }

  /** `from_big_endian`: the digits of a byte string, without leading zeros. */
  method FromBigEndian(wordBytes: nat, bytes: seq<nat>) returns (n: MPNat)
    requires wordBytes >= 1 && IsDigits(256, bytes)
    ensures fresh(n) && |n.digits| > 0 && IsDigits(Pow(2, 8 * wordBytes), n.digits)
    ensures |n.digits| > 1 ==> n.digits[|n.digits| - 1] != 0
    ensures Num(Pow(2, 8 * wordBytes), n.digits) == BigEndian(bytes)
  {
    var b := Pow(2, 8 * wordBytes);
    BaseOfBytes(wordBytes);
    if |bytes| == 0 {
      n := new MPNat([0]);
      OneDigitNum(b, [0]);
      return;
    }
    var digits := WordsOf(b, wordBytes, bytes);
    n := new MPNat(digits);
    n.StripLeadingZeros(b);
  }

  /** The words of a nonempty byte string; a short leading group becomes the top word. */
  method WordsOf(b: nat, wordBytes: nat, bytes: seq<nat>) returns (s: seq<nat>)
    requires wordBytes >= 1 && IsDigits(256, bytes) && |bytes| > 0 && b == Pow(256, wordBytes)
    ensures |s| > 0 && IsDigits(b, s) && Num(b, s) == BigEndian(bytes)
  {
    var r := |bytes| % wordBytes;
    DivModDef(|bytes|, wordBytes);
    var q := |bytes| / wordBytes;
    if r == 0 {
      assert q > 0 by { if q == 0 { Commute(q, wordBytes); } }
      var digits := new nat[q](_ => 0);
      assert digits[..][q..] == [] && bytes[..0] == [];
      FillWords(b, wordBytes, bytes, digits, q, 0);
      s := digits[..];
    } else {
      var digits := new nat[q + 1](_ => 0);
      BigEndianBound(bytes[..r]);
      PowMono(256, r, wordBytes);
      digits[q] := BigEndian(bytes[..r]);
      assert digits[..][q..] == [digits[q]];
      OneDigitNum(b, [digits[q]]);
      FillWords(b, wordBytes, bytes, digits, q, r);
      s := digits[..];
    }
  }

  /** Fills words `i-1` down to `0` from the bytes at `j`, most significant first. */
  method FillWords(b: nat, wordBytes: nat, bytes: seq<nat>, digits: array<nat>, count: nat, start: nat)
    requires wordBytes >= 1 && IsDigits(256, bytes) && b == Pow(256, wordBytes)
    requires count <= digits.Length && start + count * wordBytes == |bytes| && IsDigits(b, digits[..])
    requires Num(b, digits[..][count..]) == BigEndian(bytes[..start])
    modifies digits
    ensures IsDigits(b, digits[..]) && Num(b, digits[..]) == BigEndian(bytes)
  {
    var i, j := count, start;
    while i > 0
      invariant 0 <= i <= count && 0 <= j && j + i * wordBytes == |bytes|
      invariant IsDigits(b, digits[..])
      invariant Num(b, digits[..][i..]) == BigEndian(bytes[..j])
    {
      i := i - 1;
      Distrib(i, 1, wordBytes);
      MulPos(i, wordBytes);
      BigEndianBound(bytes[j..j + wordBytes]);
      TakeWord(bytes, j, wordBytes);
      ghost var above := digits[..][i + 1..];
      digits[i] := BigEndian(bytes[j..j + wordBytes]);
      assert digits[..][i + 1..] == above;
      PrependDigit(b, digits[..], i);
      j := j + wordBytes;
    }
    assert bytes[..j] == bytes && digits[..][0..] == digits[..];
  }

  /** `to_big_endian`: the top digit without its leading zero bytes, then every other digit in full. */
  method ToBigEndian(wordBytes: nat, digits: seq<nat>) returns (result: seq<nat>)
    requires wordBytes >= 1 && |digits| > 0 && IsDigits(Pow(2, 8 * wordBytes), digits)
    ensures IsDigits(256, result) && BigEndian(result) == Num(Pow(2, 8 * wordBytes), digits)
  {
    var b := Pow(2, 8 * wordBytes);
    BaseOfBytes(wordBytes);
    if forall i :: 0 <= i < |digits| ==> digits[i] == 0 {
      ValZero(b, digits, |digits|);
      assert BigEndian([0]) == 0;
      return [0];
    }
    var n := |digits|;
    var initial, _ := StripZeroBytes(WordBytes(wordBytes, digits[n - 1]));
    MulPos(n - 1, wordBytes);
    var out := new nat[(n - 1) * wordBytes](_ => 0);
    FillBytes(b, wordBytes, digits, out);
    result := initial + out[..];
    PrefixWord(wordBytes, initial, out[..], n - 1);
  }

  /** Writes words `0..n-2` as full byte groups, the least significant group last. */
  method FillBytes(b: nat, wordBytes: nat, digits: seq<nat>, out: array<nat>)
    requires wordBytes >= 1 && |digits| > 0 && b == Pow(256, wordBytes) && IsDigits(b, digits)
    requires out.Length == (|digits| - 1) * wordBytes && IsDigits(256, out[..])
    modifies out
    ensures IsDigits(256, out[..]) && BigEndian(out[..]) == Val(b, digits, |digits| - 1)
  {
    var n := |digits|;
    var i, j := 0, out.Length;
    while i < n - 1
      invariant i <= n - 1 && out.Length - j == i * wordBytes && 0 <= j <= out.Length
      invariant IsDigits(256, out[..])
      invariant BigEndian(out[j..]) == Val(b, digits, i)
    {
      var bytes := WordBytes(wordBytes, digits[i]);
      MulMono(i + 1, n - 1, wordBytes);
      Distrib(i, 1, wordBytes);
      ghost var tail := out[j..];
      WriteBlock(out, j - wordBytes, bytes);
      PrefixWord(wordBytes, bytes, tail, i);
      j := j - wordBytes;
      i := i + 1;
    }
    assert out[0..] == out[..];
  }

  method WriteBlock(out: array<nat>, at: nat, block: seq<nat>)
    requires at + |block| <= out.Length && IsDigits(256, out[..]) && IsDigits(256, block)
    modifies out
    ensures IsDigits(256, out[..])
    ensures out[at..] == block + old(out[at + |block|..])
  {
    forall k | 0 <= k < |block| { out[at + k] := block[k]; }
  }

  /** A block of bytes placed in front of a tail of `i` words. */
  lemma PrefixWord(wordBytes: nat, block: seq<nat>, tail: seq<nat>, i: nat)
    requires |tail| == i * wordBytes
    ensures BigEndian(block + tail) == BigEndian(block) * Pow(Pow(256, wordBytes), i) + BigEndian(tail)
  {
    BigEndianSplit(block + tail, |tail|);
    assert (block + tail)[..|block|] == block && (block + tail)[|block|..] == tail;
    PowMul(256, wordBytes, i);
    Commute(i, wordBytes);
    Commute(BigEndian(block), Pow(256, |tail|));
  }

  /** `modexp`: `base^exp mod modulus` on big-endian byte strings of any length, leading zeros included;
      a zero modulus gives the empty string. */
  method Modexp(wordBytes: nat, base: seq<nat>, exp: seq<nat>, modulus: seq<nat>) returns (result: seq<nat>)
    requires wordBytes >= 1 && IsDigits(256, base) && IsDigits(256, exp) && IsDigits(256, modulus)
    ensures IsDigits(256, result)
    ensures BigEndian(modulus) == 0 ==> result == []
    ensures BigEndian(modulus) > 0 ==>
              BigEndian(result) == Pow(BigEndian(base), BigEndian(exp)) % BigEndian(modulus)
  {
    ghost var b := Pow(2, 8 * wordBytes);
    var m := FromBigEndian(wordBytes, modulus);
    if |m.digits| == 1 { OneDigitNum(b, m.digits); } else { ValTop(b, m.digits, |m.digits|); }
    if |m.digits| == 1 && m.digits[0] == 0 { return []; }
    var x := FromBigEndian(wordBytes, base);
    var r := Modpow(wordBytes, x, exp, m.digits);
    result := ToBigEndian(wordBytes, r);
  }
}
