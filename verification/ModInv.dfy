/** Inversion of an odd word modulo `2^w`, one bit at a time. */
module WordInverse {
  import opened Digits
  import opened Montgomery

  lemma ModOfMod(z: int, d: nat, e: nat)
    requires d > 0 && e > 0 && d * e > 0
    ensures (z % (d * e)) % d == z % d
  {
    var q := z / (d * e);
    DivModDef(z, d * e);
    Assoc(q, e, d);
    assert q * (d * e) == (q * e) * d by { Swap(q, d, e); }
    CongIntro(z, z % (d * e), q * e, d);
  }

  /** If `x*y = 1 (mod q)` then `x*y mod 2q` is `1` or `1 + q`, and adding `q` to `y` in the second case lifts. */
  lemma Lift(x: nat, y: nat, q: nat)
    requires q >= 2 && x % 2 == 1 && (x * y) % q == 1
    ensures var r := (x * y) % (2 * q);
            (r < q ==> r == 1) && (r >= q ==> (x * (y + q)) % (2 * q) == 1)
  {
    var z := x * y;
    var r := z % (2 * q);
    ModOfMod(z, q, 2);
    DivModDef(r, q);
    if r < q {
      ModSmall(r, q);
    } else {
      DivModUnique(r, q, 1, r - q);
      DivModDef(z, 2 * q);
      var k := x / 2;
      calc {
        x * (y + q);
        { Distrib(y, q, x); }
        z + x * q;
        { assert x == 2 * k + 1; Distrib(2 * k, 1, q); Assoc(2, k, q); Swap(2, k, q); }
        z + k * (2 * q) + q;
        { Distrib(z / (2 * q), k, 2 * q); }
        (z / (2 * q) + k) * (2 * q) + r + q;
        { Distrib(z / (2 * q) + k, 1, 2 * q); }
        (z / (2 * q) + k + 1) * (2 * q) + 1;
      }
      DivModUnique(x * (y + q), 2 * q, z / (2 * q) + k + 1, 1);
    }
  }

  /** `mod_inv`: for every odd word, the inverse modulo the word base. */
  method ModInv(w: nat, x: nat) returns (y: nat)
    requires w >= 2 && x < Pow(2, w) && x % 2 == 1
    ensures y < Pow(2, w) && (x * y) % Pow(2, w) == 1
  {
    y := 1;
    PowOne(2);
    var i := 2;
    while i < w
      invariant 2 <= i <= w && y < Pow(2, i - 1)
      invariant (x * y) % Pow(2, i - 1) == 1
    {
      PowMono(2, 1, i - 1);
      PowAdd(2, i, w - i);
      var xy := ((x * y) % Pow(2, w)) % Pow(2, i);
      ModOfMod(x * y, Pow(2, i), Pow(2, w - i));
      var q := Pow(2, i - 1);
      Lift(x, y, q);
      ModSmall(1, q);
      if xy >= q { y := y + q; }
      i := i + 1;
    }
    PowMono(2, 1, w - 1);
    var xy := (x * y) % Pow(2, w);
    var q := Pow(2, w - 1);
    Lift(x, y, q);
    if xy >= q { y := y + q; }
  }

  /** `n' = 2^w - inv(n0)` is the reduction constant Montgomery multiplication needs. */
  method NegInverse(w: nat, n0: nat) returns (np: nat)
    requires w >= 2 && n0 < Pow(2, w) && n0 % 2 == 1
    ensures IsNegInverse(Pow(2, w), n0, np)
  {
    var b := Pow(2, w);
    var inv := ModInv(w, n0);
    np := b - 1 - inv + 1;
    PowMono(2, 1, w);
    assert inv > 0 by { if inv == 0 { assert n0 * inv == 0; ModSmall(0, b); assert false; } }
    DivModDef(n0 * inv, b);
    Distrib(b, inv, n0);
    Distrib(n0, (n0 * inv) / b, b);
    DivModUnique(n0 * np + 1, b, n0 - (n0 * inv) / b, 0);
  }
}
