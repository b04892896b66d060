/** Shifts, addition and multiply-subtract on runs of words inside a buffer. */
module InPlace {
  import opened Digits
  import opened Words
  import opened Rows

  /** The `k` words of a buffer that start at word `off`. */
  function Window(a: seq<nat>, off: nat, k: nat): (s: seq<nat>)
    requires off + k <= |a|
    ensures |s| == k && forall i :: 0 <= i < k ==> s[i] == a[off + i]
  {
    a[off..off + k]
  }

  /** `a += x` on a window, returning the carry. */
  method InPlaceAdd(b: nat, a: array<nat>, off: nat, x: seq<nat>) returns (carry: bool)
    requires b >= 2 && off + |x| <= a.Length && IsDigits(b, a[..]) && IsDigits(b, x)
    modifies a
    ensures IsDigits(b, a[..])
    ensures forall l :: 0 <= l < a.Length && !(off <= l < off + |x|) ==> a[l] == old(a[l])
    ensures Num(b, Window(a[..], off, |x|)) + (if carry then Pow(b, |x|) else 0)
         == old(Num(b, Window(a[..], off, |x|))) + Num(b, x)
  {
    carry := false;
    ghost var before := a[..];
    var i := 0;
    while i < |x|
      invariant i <= |x| && IsDigits(b, a[..])
      invariant forall l :: 0 <= l < a.Length && !(off <= l < off + i) ==> a[l] == before[l]
      invariant Val(b, Window(a[..], off, |x|), i) + Bit(carry) * Pow(b, i)
             == Val(b, Window(before, off, |x|), i) + Val(b, x, i)
    {
      var (sum, carry') := CarryingAdd(b, a[off + i], x[i], carry);
      AddDigitStep(b, a[off + i], x[i], Bit(carry), sum, Bit(carry'), Pow(b, i));
      ghost var prev := Window(a[..], off, |x|);
      a[off + i] := sum;
      assert Window(a[..], off, |x|) == prev[i := sum];
      ValSet(b, prev, i, sum, i);
      carry := carry';
      i := i + 1;
    }
  }

  /** `a -= x*y` on a window, returning the borrow word. The running carry is stored offset by `b - 1`. */
  method InPlaceMulSub(b: nat, a: array<nat>, off: nat, x: seq<nat>, y: nat) returns (borrow: nat)
    requires b >= 2 && y < b && off + |x| <= a.Length && IsDigits(b, a[..]) && IsDigits(b, x)
    modifies a
    ensures IsDigits(b, a[..]) && borrow < b
    ensures forall l :: 0 <= l < a.Length && !(off <= l < off + |x|) ==> a[l] == old(a[l])
    ensures Num(b, Window(a[..], off, |x|)) + y * Num(b, x)
         == old(Num(b, Window(a[..], off, |x|))) + borrow * Pow(b, |x|)
  {
    if y == 0 { return 0; }
    var offsetCarry := b - 1;
    ghost var before := a[..];
    assert y * Val(b, x, 0) == 0 && (b - 1 - offsetCarry) * Pow(b, 0) == 0;
    var i := 0;
    while i < |x|
      invariant i <= |x| && IsDigits(b, a[..]) && 0 <= offsetCarry < b
      invariant forall l :: 0 <= l < a.Length && !(off <= l < off + i) ==> a[l] == before[l]
      invariant Val(b, Window(a[..], off, |x|), i) + y * Val(b, x, i)
             == Val(b, Window(before, off, |x|), i) + (b - 1 - offsetCarry) * Pow(b, i)
    {
      OffsetSum(b, a[off + i], offsetCarry, x[i], y);
      var offsetSum := JoinAsDouble(b, b - 1, a[off + i]) - (b - 1) + offsetCarry - x[i] * y;
      var newX: nat := offsetSum % b;
      MulSubStep(b, a[off + i], newX, x[i], y, b - 1 - offsetCarry, b - 1 - offsetSum / b, Pow(b, i));
      Distrib(Val(b, x, i), x[i] * Pow(b, i), y);
      ghost var prev := Window(a[..], off, |x|);
      a[off + i] := newX;
      assert Window(a[..], off, |x|) == prev[i := newX];
      ValSet(b, prev, i, newX, i);
      offsetCarry := offsetSum / b;
      i := i + 1;
    }
    borrow := b - 1 - offsetCarry;
  }

  /** The offset sum is a non-negative double word whatever the operands. */
  lemma OffsetSum(b: nat, a: nat, oc: nat, x: nat, y: nat)
    requires b >= 2 && a < b && oc < b && x < b && y < b
    ensures var z := JoinAsDouble(b, b - 1, a) - (b - 1) + oc - x * y;
            0 <= z < b * b && 0 <= z / b < b && 0 <= z % b < b
            && z % b - b * (b - 1 - z / b) == a - (b - 1 - oc) - x * y
  {
    var z := (b - 1) * b + a - (b - 1) + oc - x * y;
    MulMono(x, b - 1, y);
    MulMono(y, b - 1, b - 1);
    MulPos(x, y);
    Distrib(b, 1, b - 1);
    Distrib(b, 1, b);
    DivModDef(z, b);
    if z / b >= b { MulMono(b, z / b, b); }
    Distrib(b - 1, z / b, b);
  }

  lemma MulSubStep(b: int, o: int, o': int, x: int, y: int, c: int, c': int, p: int)
    requires o' - b * c' == o - c - x * y
    ensures o' * p + y * (x * p) + c * p == o * p + c' * (b * p)
  {
    calc {
      c' * (b * p);
      { Assoc(c', b, p); }
      (b * c') * p;
      { Distrib(o' - o + c, x * y, p); Distrib(o' - o, c, p); Distrib(o', o, p); }
      o' * p - o * p + c * p + (x * y) * p;
      { Assoc(y, x, p); }
      o' * p - o * p + c * p + y * (x * p);
    }
  }

  /** `a <<= shift` over the low `k` words, returning the bits shifted out. The low `shift` bits of a
      shifted word are zero and the carry is below `2^shift`, so the source's `|` is an addition. */
  method InPlaceShl(w: nat, a: array<nat>, k: nat, shift: nat) returns (c: nat)
    requires shift < w && k <= a.Length && IsDigits(Pow(2, w), a[..])
    modifies a
    ensures IsDigits(Pow(2, w), a[..])
    ensures forall l :: k <= l < a.Length ==> a[l] == old(a[l])
    ensures shift > 0 ==> c < Pow(2, shift)
    ensures shift > 0 ==>
      Val(Pow(2, w), a[..], k) + c * Pow(Pow(2, w), k) == Pow(2, shift) * old(Val(Pow(2, w), a[..], k))
    ensures shift == 0 ==> Smeared(old(a[..k]), a[..k], true) && c == Last(old(a[..k]), true)
  {
    if shift == 0 {
      c := SmearUp(w, a, k);
    } else {
      PowAdd(2, shift, w - shift);
      c := ShlWords(Pow(2, w), Pow(2, shift), Pow(2, w - shift), a, k);
    }
  }

  method ShlWords(b: nat, f: nat, g: nat, a: array<nat>, k: nat) returns (c: nat)
    requires b == f * g && f > 0 && g > 0 && k <= a.Length && IsDigits(b, a[..])
    modifies a
    ensures IsDigits(b, a[..]) && c < f
    ensures forall l :: k <= l < a.Length ==> a[l] == old(a[l])
    ensures Val(b, a[..], k) + c * Pow(b, k) == f * old(Val(b, a[..], k))
  {
    ghost var before := a[..];
    c := 0;
    var i := 0;
    assert c * Pow(b, i) == 0 == f * Val(b, before, i);
    while i < k
      invariant i <= k && c < f && IsDigits(b, a[..])
      invariant forall l :: i <= l < a.Length ==> a[l] == before[l]
      invariant Val(b, a[..], i) + c * Pow(b, i) == f * Val(b, before, i)
    {
      ShlDigit(f, g, a[i], c);
      var carry := a[i] / g;
      var d: nat := (a[i] * f) % b + c;
      ShlStep(b, f, a[i], d, c, carry, Pow(b, i));
      Distrib(Val(b, before, i), a[i] * Pow(b, i), f);
      ghost var prev := a[..];
      ValSet(b, prev, i, d, i);
      a[i] := d;
      assert a[..] == prev[i := d];
      c := carry;
      i := i + 1;
    }
  }

  lemma ShlDigit(f: nat, g: nat, d: nat, c: nat)
    requires f > 0 && g > 0 && d < f * g && c < f
    ensures 0 <= d / g < f
    ensures (d * f) % (f * g) == f * (d % g)
    ensures (d * f) % (f * g) + c < f * g
    ensures (d * f) % (f * g) + (f * g) * (d / g) == f * d
  {
    DivModDef(d, g);
    if d / g >= f { MulMono(f, d / g, g); }
    Distrib((d / g) * g, d % g, f);
    Swap(f, d / g, g);
    MulMono(d % g, g - 1, f);
    Distrib(g, 1, f);
    MulPos(f, d % g);
    DivModUnique(d * f, f * g, d / g, f * (d % g));
  }

  lemma ShlStep(b: int, f: int, o: int, d: int, c: int, c': int, p: int)
    requires d - c + b * c' == f * o
    ensures d * p + c' * (b * p) == f * (o * p) + c * p
  {
    Assoc(f, o, p);
    Distrib(d - c, b * c', p);
    Distrib(d, c, p);
    Assoc(c', b, p);
  }

  /** `a >>= shift` over the low `k` words, from the top down, returning the bits shifted out at the bottom,
      left-aligned in a word. */
  method InPlaceShr(w: nat, a: array<nat>, k: nat, shift: nat) returns (br: nat)
    requires shift < w && k <= a.Length && IsDigits(Pow(2, w), a[..])
    modifies a
    ensures IsDigits(Pow(2, w), a[..])
    ensures forall l :: k <= l < a.Length ==> a[l] == old(a[l])
    ensures shift > 0 ==> Val(Pow(2, w), a[..], k) == old(Val(Pow(2, w), a[..], k)) / Pow(2, shift)
    ensures shift > 0 ==> br == Pow(2, w - shift) * (old(Val(Pow(2, w), a[..], k)) % Pow(2, shift))
    ensures shift == 0 ==> Smeared(old(a[..k]), a[..k], false) && br == Last(old(a[..k]), false)
  {
    if shift == 0 {
      br := SmearDown(w, a, k);
    } else {
      PowAdd(2, shift, w - shift);
      br := ShrWords(Pow(2, w), Pow(2, shift), Pow(2, w - shift), a, k);
    }
  }

  method ShrWords(b: nat, f: nat, g: nat, a: array<nat>, k: nat) returns (br: nat)
    requires b == f * g && f > 0 && g > 0 && k <= a.Length && IsDigits(b, a[..])
    modifies a
    ensures IsDigits(b, a[..])
    ensures forall l :: k <= l < a.Length ==> a[l] == old(a[l])
    ensures Val(b, a[..], k) == old(Val(b, a[..], k)) / f
    ensures br == g * (old(Val(b, a[..], k)) % f)
  {
    ghost var before := a[..];
    ghost var rest: nat := 0;
    br := 0;
    var i := k;
    while i > 0
      invariant 0 <= i <= k && IsDigits(b, a[..])
      invariant rest < f && br == g * rest
      invariant forall l :: 0 <= l < a.Length && !(i <= l < k) ==> a[l] == before[l]
      invariant Shifted(b, f, before, a[..], i, k, rest)
    {
      i := i - 1;
      ghost var prev := a[..];
      ShrDigit(b, f, g, a[i], rest);
      var borrow: nat := (a[i] * g) % b;
      var d: nat := a[i] / f + br;
      a[i] := d;
      ShrInvariant(b, f, g, before, prev, a[..], i, k, rest, d);
      rest := before[i] % f;
      br := borrow;
    }
    ShrEnd(b, f, before, a[..], k, rest);
  }

  /** The digits from `i` on are divided by `f`, with `rest` left over in units of digit `i`. */
  ghost predicate Shifted(b: nat, f: nat, before: seq<nat>, now: seq<nat>, i: nat, k: nat, rest: int) {
    f * (Val(b, now, k) - Val(b, now, i)) + rest * Pow(b, i) == Val(b, before, k) - Val(b, before, i)
  }

  lemma ShrEnd(b: nat, f: nat, before: seq<nat>, now: seq<nat>, k: nat, rest: nat)
    requires rest < f && Shifted(b, f, before, now, 0, k, rest)
    ensures Val(b, now, k) == Val(b, before, k) / f && rest == Val(b, before, k) % f
  {
    assert Pow(b, 0) == 1;
    Commute(f, Val(b, now, k));
    DivModUnique(Val(b, before, k), f, Val(b, now, k), rest);
  }

  lemma ShrDigit(b: nat, f: nat, g: nat, d: nat, r: nat)
    requires b == f * g && f > 0 && g > 0 && d < b && r < f
    ensures 0 <= d / f < g && 0 <= d % f < f
    ensures 0 <= (d * g) % b && (d * g) % b == g * (d % f)
    ensures 0 <= d / f + g * r < b
  {
    ShlDigit(g, f, d, 0);
    Commute(f, g);
    DivModDef(d, f);
    MulMono(r, f - 1, g);
    MulPos(g, r);
    MulPos(g, d % f);
    Distrib(f, 1, g);
  }

  lemma ShrStep(b: int, f: int, g: int, o: int, d: int, r: int, r': int, p: int)
    requires b == f * g && f > 0 && d == o / f + g * r && r' == o % f
    ensures f * (d * p) + r' * p == o * p + r * (b * p)
  {
    DivModDef(o, f);
    calc {
      f * (d * p) + r' * p;
      { Assoc(f, d, p); Distrib(f * d, r', p); }
      (f * d + r') * p;
      { Distrib(o / f, g * r, f); Assoc(f, g, r); }
      (o + b * r) * p;
      { Distrib(o, b * r, p); Assoc(r, b, p); }
      o * p + r * (b * p);
    }
  }

  lemma ShrInvariant(b: nat, f: nat, g: nat, before: seq<nat>, prev: seq<nat>, now: seq<nat>, i: nat, k: nat, r: int,
                     d: nat)
    requires b == f * g && f > 0 && i < k <= |before| && |prev| == |before| && prev[i] == before[i]
    requires now == prev[i := d]
    requires d == before[i] / f + g * r && Shifted(b, f, before, prev, i + 1, k, r)
    ensures Shifted(b, f, before, now, i, k, before[i] % f)
  {
    var p, t := Pow(b, i), Val(b, prev, k) - Val(b, prev, i + 1);
    ShrStep(b, f, g, before[i], d, r, before[i] % f, p);
    assert Val(b, now, k) - Val(b, now, i) == t + d * p by {
      ValSet(b, prev, i, d, k);
      ValSet(b, prev, i, d, i);
      Distrib(d, prev[i], p);
    }
    Distrib(t, d * p, f);
  }

  //// A shift by zero: the complementary shift is masked to zero too, so every digit is carried into the next

  /** `x | y` */
  function Or(x: nat, y: nat): (r: nat)
    ensures r >= x && r >= y && (y == 0 ==> r == x) && (x == 0 ==> r == y)
    decreases x + y
  {
    if x == 0 then y else if y == 0 then x
    else 2 * Or(x / 2, y / 2) + if x % 2 == 1 || y % 2 == 1 then 1 else 0
  }

  lemma {:induction false} OrBound(w: nat, x: nat, y: nat)
    requires x < Pow(2, w) && y < Pow(2, w)
    ensures Or(x, y) < Pow(2, w)
  {
    if x > 0 && y > 0 && w > 0 { OrBound(w - 1, x / 2, y / 2); }
  }

  /** Where the low bits are zero, `|` is an addition: so it is in every other shift. */
  lemma {:induction false} OrDisjoint(s: nat, x: nat, c: nat)
    requires c < Pow(2, s)
    ensures Pow(2, s) * x >= 0 && Or(Pow(2, s) * x, c) == Pow(2, s) * x + c
  {
    MulPos(Pow(2, s), x);
    if x > 0 && c > 0 && s > 0 {
      Assoc(2, Pow(2, s - 1), x);
      OrDisjoint(s - 1, x, c / 2);
      MulMonoStrict(0, x, Pow(2, s));
    }
  }

  function Beside(s: seq<nat>, i: nat, up: bool): (d: nat) {
    if up then (if 0 < i <= |s| then s[i - 1] else 0) else (if i + 1 < |s| then s[i + 1] else 0)
  }

  function Last(s: seq<nat>, up: bool): (d: nat) { if s == [] then 0 else if up then s[|s| - 1] else s[0] }

  ghost predicate Smeared(s: seq<nat>, t: seq<nat>, up: bool) {
    |t| == |s| && forall i :: 0 <= i < |s| ==> t[i] == Or(s[i], Beside(s, i, up))
  }

  method SmearUp(w: nat, a: array<nat>, k: nat) returns (c: nat)
    requires k <= a.Length && IsDigits(Pow(2, w), a[..])
    modifies a
    ensures IsDigits(Pow(2, w), a[..]) && forall l :: k <= l < a.Length ==> a[l] == old(a[l])
    ensures Smeared(old(a[..k]), a[..k], true) && c == Last(old(a[..k]), true)
  {
    ghost var before := a[..k];
    c := 0;
    for i := 0 to k
      invariant IsDigits(Pow(2, w), a[..]) && c < Pow(2, w) && c == Beside(before, i, true)
      invariant forall l :: i <= l < a.Length ==> a[l] == old(a[l])
      invariant forall l :: 0 <= l < i ==> a[l] == Or(before[l], Beside(before, l, true))
    {
      var carry := a[i];
      OrBound(w, a[i], c);
      a[i] := Or(a[i], c);
      c := carry;
    }
  }

  method SmearDown(w: nat, a: array<nat>, k: nat) returns (c: nat)
    requires k <= a.Length && IsDigits(Pow(2, w), a[..])
    modifies a
    ensures IsDigits(Pow(2, w), a[..]) && forall l :: k <= l < a.Length ==> a[l] == old(a[l])
    ensures Smeared(old(a[..k]), a[..k], false) && c == Last(old(a[..k]), false)
  {
    ghost var before := a[..k];
    c := 0;
    for i := k downto 0
      invariant IsDigits(Pow(2, w), a[..]) && c < Pow(2, w) && c == if i < k then before[i] else 0
      invariant forall l :: 0 <= l < a.Length && !(i <= l < k) ==> a[l] == old(a[l])
      invariant forall l :: i <= l < k ==> a[l] == Or(before[l], Beside(before, l, false))
    {
      var borrow := a[i];
      OrBound(w, a[i], c);
      a[i] := Or(a[i], c);
      c := borrow;
    }
  }

  /** A shift by zero leaves the number alone, with nothing shifted out, if and only if the number is zero. */
  lemma ShiftByZero(w: nat, s: seq<nat>, t: seq<nat>, up: bool)
    requires IsDigits(Pow(2, w), s) && Smeared(s, t, up)
    ensures Num(Pow(2, w), t) == Num(Pow(2, w), s) && Last(s, up) == 0 <==> Num(Pow(2, w), s) == 0
  {
    var b := Pow(2, w);
    forall i | 0 <= i < |t| ensures t[i] < b { OrBound(w, s[i], Beside(s, i, up)); }
    if Num(b, t) == Num(b, s) && Last(s, up) == 0 { UnchangedIsZero(b, s, t, up); }
    if Num(b, s) == 0 { ZeroUnchanged(b, s, t, up); }
  }

  lemma UnchangedIsZero(b: nat, s: seq<nat>, t: seq<nat>, up: bool)
    requires b > 0 && IsDigits(b, s) && IsDigits(b, t) && Smeared(s, t, up) && Num(b, t) == Num(b, s)
    requires Last(s, up) == 0
    ensures Num(b, s) == 0
  {
    ValInjective(b, t, s, |s|);
    forall i | 0 <= i < |s| ensures Beside(s, i, up) <= s[i] {
      assert Get(t, i) == t[i] && Get(s, i) == s[i];
      OrAbove(t[i], s[i], Beside(s, i, up));
    }
    forall i | 0 <= i < |s| ensures Get(s, i) == 0 { if up { ZeroDown(s, i); } else { ZeroUp(s, i); } }
    ValZero(b, s, |s|);
  }

  lemma ZeroUnchanged(b: nat, s: seq<nat>, t: seq<nat>, up: bool)
    requires b > 0 && Smeared(s, t, up) && Num(b, s) == 0
    ensures t == s && Last(s, up) == 0
  {
    ValZeroInv(b, s, |s|);
    forall i | 0 <= i < |s| ensures s[i] == 0 { assert Get(s, i) == s[i]; }
    forall i | 0 <= i < |s| ensures t[i] == s[i] { assert Beside(s, i, up) == 0; }
  }

  lemma OrAbove(d: nat, x: nat, y: nat)
    requires d == Or(x, y)
    ensures d >= y
  {}

  /** Every digit is at least its neighbour. */
  ghost predicate Absorbs(s: seq<nat>, up: bool) { forall i :: 0 <= i < |s| ==> Beside(s, i, up) <= s[i] }

  lemma {:induction false} ZeroDown(s: seq<nat>, i: nat)
    requires Absorbs(s, true) && i < |s| && s[|s| - 1] == 0
    ensures s[i] == 0
    decreases |s| - i
  {
    if i < |s| - 1 {
      ZeroDown(s, i + 1);
      assert Beside(s, i + 1, true) == s[i];
    }
  }

  lemma {:induction false} ZeroUp(s: seq<nat>, i: nat)
    requires Absorbs(s, false) && i < |s| && s[0] == 0
    ensures s[i] == 0
  {
    if i > 0 {
      ZeroUp(s, i - 1);
      assert Beside(s, i - 1, false) == s[i];
    }
  }
}
