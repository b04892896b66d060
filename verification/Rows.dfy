/** Multiply-accumulate rows: the inner loop shared by every schoolbook product. */
module Rows {
  import opened Digits
  import opened Words

  /** One carry step of a multiply-accumulate row, scaled to the weight `p` of its word. */
  lemma RowStep(b: nat, o: int, o': int, x: int, y: int, c: int, c': int, p: int)
    requires o' + b * c' == o + x * y + c
    ensures (o' - o) * p + c' * (b * p) == (x * p) * y + c * p
  {
    Distrib(o', o, p);
    calc {
      c' * (b * p);
      { Assoc(c', b, p); }
      (b * c') * p;
      { Distrib(o + x * y + c, o', p); }
      (o + x * y + c) * p - o' * p;
      { Distrib(o + x * y, c, p); Distrib(o, x * y, p); }
      o * p + (x * y) * p + c * p - o' * p;
      { Assoc(x, y, p); Assoc(x, p, y); }
      o * p + (x * p) * y + c * p - o' * p;
    }
  }

  lemma AddStep(b: int, o: int, c: int, sum: int, carry: bool, p: int)
    requires sum + (if carry then b else 0) == o + c
    ensures sum * p + Bit(carry) * (b * p) == o * p + c * p
  {
    Distrib(o, c, p);
    Distrib(sum, if carry then b else 0, p);
  }

  lemma AddDigitStep(b: int, o: int, x: int, f: int, sum: int, f': int, p: int)
    requires sum + b * f' == o + x + f
    ensures sum * p + f' * (b * p) == o * p + x * p + f * p
  {
    Distrib(o + x, f, p);
    Distrib(o, x, p);
    Distrib(sum, b * f', p);
    Assoc(f', b, p);
  }

  lemma Regroup(u: int, p: int, v: int, q: int)
    ensures (u * p) * (v * q) == (u * v) * (p * q)
  {
    Assoc(u, p, v * q);
    Swap(p, v, q);
    Assoc(u, v, p * q);
  }

  lemma RowWeight(m: int, d: int, p: int, q: int)
    ensures (d * (p * q)) * m == (m * p) * (d * q)
  {
    Regroup(m, p, d, q);
    Assoc(m, d, p * q);
  }

  /** Adds `m * b^i` times the low `k` digits of `x` to `out`, returning the carry out of word `i + k - 1`. */
  method MulRowAt(b: nat, x: seq<nat>, k: nat, m: nat, i: nat, out: array<nat>) returns (c: nat)
    requires b >= 2 && m < b && IsDigits(b, x) && IsDigits(b, out[..]) && i + k <= out.Length
    modifies out
    ensures IsDigits(b, out[..]) && c < b
    ensures forall l :: 0 <= l < out.Length && !(i <= l < i + k) ==> out[l] == old(out[l])
    ensures k > 0 ==> out[i] == (old(out[i]) + Get(x, 0) * m) % b
    ensures Num(b, out[..]) + c * Pow(b, i + k) == old(Num(b, out[..])) + (m * Pow(b, i)) * Val(b, x, k)
  {
    c := 0;
    ghost var v0 := Num(b, out[..]);
    ghost var w := m * Pow(b, i);
    var j := 0;
    while j < k
      invariant j <= k && c < b && IsDigits(b, out[..])
      invariant forall l :: 0 <= l < out.Length && !(i <= l < i + j) ==> out[l] == old(out[l])
      invariant if j == 0 then c == 0 else out[i] == (old(out[i]) + Get(x, 0) * m) % b
      invariant Num(b, out[..]) + c * Pow(b, i + j) == v0 + w * Val(b, x, j)
    {
      var (prod, carry) := ShiftedCarryingMul(b, out[i + j], Get(x, j), m, c);
      if j == 0 { DivModUnique(out[i] + Get(x, 0) * m, b, carry, prod); }
      RowStep(b, out[i + j], prod, Get(x, j), m, c, carry, Pow(b, i + j));
      PowAdd(b, i, j);
      RowWeight(m, Get(x, j), Pow(b, i), Pow(b, j));
      Distrib(Val(b, x, j), Get(x, j) * Pow(b, j), w);
      ValSet(b, out[..], i + j, prod, out.Length);
      ghost var prev := out[..];
      out[i + j] := prod;
      assert out[..] == prev[i + j := prod];
      c := carry;
      j := j + 1;
    }
  }
}
