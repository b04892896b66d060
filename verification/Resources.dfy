/** The pair of counters every computation is charged to. */
module ResourceCounters {
  const U64_MAX: nat := 0xffff_ffff_ffff_ffff
  const ERGS_PER_GAS: nat := 256
  const MAX_NATIVE_COMPUTATIONAL: nat := 0x8_0000_0000

  datatype Resources = Resources(ergs: nat, native: nat)

  datatype Charge = Paid | OutOfErgs | OutOfNative

  /** `charge`: native first; a counter that falls short is emptied, and a short native counter decides the error. */
  function Charged(r: Resources, cost: Resources): (o: (Resources, Charge))
    ensures o.1.Paid? <==> cost.ergs <= r.ergs && cost.native <= r.native
    ensures o.1.OutOfNative? <==> cost.native > r.native
    ensures o.1.Paid? ==> o.0.ergs + cost.ergs == r.ergs && o.0.native + cost.native == r.native
    ensures o.0.ergs <= r.ergs && o.0.native <= r.native
  {
    var ergs := if r.ergs < cost.ergs then 0 else r.ergs - cost.ergs;
    if r.native < cost.native then (Resources(ergs, 0), OutOfNative)
    else (Resources(ergs, r.native - cost.native), if r.ergs < cost.ergs then OutOfErgs else Paid)
  }

  /** Both counters cover a cost in gas and native. */
  ghost predicate Affords(r: Resources, gas: nat, native: nat) {
    gas * ERGS_PER_GAS <= U64_MAX && gas * ERGS_PER_GAS <= r.ergs && native <= r.native
  }

  /** `spend_gas_and_native`: gas whose ergs overflow 64 bits is never affordable. */
  function SpendGas(r: Resources, gas: nat, native: nat): (o: (Resources, Charge))
    ensures o.1.Paid? <==> Affords(r, gas, native)
    ensures o.1.Paid? ==> o.0.ergs + gas * ERGS_PER_GAS == r.ergs && o.0.native + native == r.native
    ensures o.0.ergs <= r.ergs && o.0.native <= r.native
  {
    if gas * ERGS_PER_GAS > U64_MAX then (r, OutOfErgs) else Charged(r, Resources(gas * ERGS_PER_GAS, native))
  }

  /** The saturating operations on 64-bit counters. */
  function SaturatingMul(a: nat, b: nat): (r: nat) {
    if a == 0 || b == 0 then 0 else if a * b > U64_MAX then U64_MAX else assert a * b >= 0; a * b
  }

  function SaturatingAdd(a: nat, b: nat): (r: nat) {
    if a + b > U64_MAX then U64_MAX else a + b
  }

  function Max(a: nat, b: nat): (m: nat) { if a < b then b else a }
}
