/** Single-word arithmetic with explicit carries, over machine words `0 <= w < b`.
    Double-word intermediates are unbounded integers; each contract bounds them below `b * b`. */
module Words {
  import opened Digits

  /** `a + x*y + c` split into low word and carry. */
  function ShiftedCarryingMul(b: nat, a: nat, x: nat, y: nat, c: nat): (r: (nat, nat))
    requires a < b && x < b && y < b && c < b
    ensures r.0 < b && r.1 < b
    ensures r.0 + b * r.1 == a + x * y + c < b * b
  {
    var wide := a + x * y + c;
    WideBound(b, a, x, y, c);
    (wide % b, (wide / b) % b)
  }

  lemma WideBound(b: nat, a: nat, x: nat, y: nat, c: nat)
    requires a < b && x < b && y < b && c < b
    ensures 0 <= a + x * y + c < b * b
    ensures (a + x * y + c) / b < b
    ensures ((a + x * y + c) / b) % b == (a + x * y + c) / b
    ensures (a + x * y + c) % b + b * ((a + x * y + c) / b) == a + x * y + c
  {
    assert 0 <= x * y <= (b - 1) * (b - 1) by { MulPos(x, y); MulMono(x, b - 1, y); MulMono(y, b - 1, b - 1); }
    assert (b - 1) * (b - 1) == b * b - 2 * b + 1 by { Distrib(b, 1, b - 1); Distrib(b, 1, b); }
    TwoWords(b, a + x * y + c);
  }

  /** A number below `b * b` is a low word and a high word. */
  lemma TwoWords(b: nat, wide: nat)
    requires wide < b * b
    ensures 0 <= wide / b < b && (wide / b) % b == wide / b
    ensures 0 <= wide % b < b && wide % b + b * (wide / b) == wide
  {
    DivModDef(wide, b);
    Commute(b, wide / b);
    if wide / b >= b { MulMono(b, wide / b, b); }
    ModSmall(wide / b, b);
  }

  /** `x*y + c` split into low word and carry. */
  function CarryingMul(b: nat, x: nat, y: nat, c: nat): (r: (nat, nat))
    requires x < b && y < b && c < b
    ensures r.0 < b && r.1 < b && r.0 + b * r.1 == x * y + c
  {
    var wide := x * y + c;
    WideBound(b, 0, x, y, c);
    (wide % b, (wide / b) % b)
  }

  function Bit(f: bool): (d: nat) { if f then 1 else 0 }

  function OverflowingAdd(b: nat, x: nat, y: nat): (r: (nat, bool))
    requires x < b && y < b
    ensures r.0 < b && r.0 + (if r.1 then b else 0) == x + y
  {
    if x + y < b then (x + y, false) else (x + y - b, true)
  }

  function OverflowingSub(b: nat, x: nat, y: nat): (r: (nat, bool))
    requires x < b && y < b
    ensures r.0 < b && r.0 + y == x + (if r.1 then b else 0)
  {
    if y <= x then (x - y, false) else (x + b - y, true)
  }

  /** Addition with carry in and out: two overflowing additions, at most one of which overflows. */
  function CarryingAdd(b: nat, x: nat, y: nat, carry: bool): (r: (nat, bool))
    requires b >= 2 && x < b && y < b
    ensures r.0 < b && r.0 + (if r.1 then b else 0) == x + y + Bit(carry)
  {
    var (a, f) := OverflowingAdd(b, x, y);
    var (c, g) := OverflowingAdd(b, a, Bit(carry));
    (c, f || g)
  }

  function BorrowingSub(b: nat, x: nat, y: nat, borrow: bool): (r: (nat, bool))
    requires b >= 2 && x < b && y < b
    ensures r.0 < b && r.0 + y + Bit(borrow) == x + (if r.1 then b else 0)
  {
    var (a, f) := OverflowingSub(b, x, y);
    var (c, g) := OverflowingSub(b, a, Bit(borrow));
    (c, f || g)
  }

  function JoinAsDouble(b: nat, hi: nat, lo: nat): (r: nat)
    requires hi < b && lo < b
    ensures r < b * b && r / b == hi && r % b == lo
  {
    MulMono(hi, b - 1, b);
    Distrib(b - 1, 1, b);
    MulPos(hi, b);
    DivModUnique(hi * b + lo, b, hi, lo);
    hi * b + lo
  }

  /** Compares the `k` low digits of two numbers from the top, as the source's final-subtraction test does. */
  method DigitsLess(b: nat, a: array<nat>, n: seq<nat>, k: nat) returns (less: bool)
    requires b > 0 && k <= a.Length && IsDigits(b, a[..]) && IsDigits(b, n)
    ensures less <==> Val(b, a[..], k) < Val(b, n, k)
  {
    var i := k;
    while i > 0
      invariant 0 <= i <= k
      invariant Val(b, a[..], k) - Val(b, a[..], i) == Val(b, n, k) - Val(b, n, i)
    {
      i := i - 1;
      var d := Get(n, i);
      ValBound(b, a[..], i);
      ValBound(b, n, i);
      if a[i] < d {
        MulMono(a[i] + 1, d, Pow(b, i));
        Distrib(a[i], 1, Pow(b, i));
        return true;
      } else if a[i] > d {
        MulMono(d + 1, a[i], Pow(b, i));
        Distrib(d, 1, Pow(b, i));
        return false;
      }
    }
    return false;
  }

  /** `a -= n` over the `k` low words, returning the borrow. */
  method SubtractInPlace(b: nat, a: array<nat>, n: seq<nat>, k: nat) returns (borrow: bool)
    requires b >= 2 && k <= a.Length && IsDigits(b, a[..]) && IsDigits(b, n)
    modifies a
    ensures IsDigits(b, a[..])
    ensures forall i :: k <= i < a.Length ==> a[i] == old(a[i])
    ensures Val(b, a[..], k) + Val(b, n, k) == old(Val(b, a[..], k)) + (if borrow then Pow(b, k) else 0)
  {
    borrow := false;
    var i := 0;
    ghost var before := a[..];
    while i < k
      invariant i <= k && IsDigits(b, a[..])
      invariant forall l :: i <= l < a.Length ==> a[l] == old(a[l])
      invariant Val(b, a[..], i) + Val(b, n, i) == Val(b, before, i) + (if borrow then Pow(b, i) else 0)
    {
      var (diff, borrow') := BorrowingSub(b, a[i], Get(n, i), borrow);
      SubStep(b, a[i], Get(n, i), borrow, diff, borrow', Pow(b, i));
      ValSet(b, a[..], i, diff, i);
      ghost var prev := a[..];
      a[i] := diff;
      assert a[..] == prev[i := diff];
      borrow := borrow';
      i := i + 1;
    }
  }

  lemma SubStep(b: nat, x: nat, y: nat, borrow: bool, d: nat, borrow': bool, p: nat)
    requires d + y + Bit(borrow) == x + (if borrow' then b else 0)
    ensures d * p + y * p + (if borrow then p else 0) == x * p + (if borrow' then b * p else 0)
  {
    Distrib(d, y, p);
    Distrib(d + y, Bit(borrow), p);
    Distrib(x, if borrow' then b else 0, p);
  }
}
