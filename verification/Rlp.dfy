/** Streaming RLP encoding: length estimates, emitted bytes, block headers and contract addresses. */
module Rlp {
  import opened Options
  import opened Sequences
  import opened Digits
  import opened WrappingArith
  import ByteInterface

  //// The encoding (appendix B of the Yellow Paper)

  /** Big-endian bytes without leading zeros. */
  ghost function Minimal(n: nat): (s: seq<nat>)
    ensures IsDigits(256, s) && (n > 0 ==> |s| > 0 && s[0] > 0)
  {
    if n == 0 then [] else Minimal(n / 256) + [n % 256]
  }

  ghost function Prefix(len: nat, offset: nat): (s: seq<nat>) {
    if len < 56 then [offset + len] else [offset + 55 + |Minimal(len)|] + Minimal(len)
  }

  ghost function EncodeBytes(s: seq<nat>): (r: seq<nat>) {
    if |s| == 1 && s[0] < 128 then s else Prefix(|s|, 128) + s
  }

  ghost function EncodeAll(items: seq<seq<nat>>): (r: seq<nat>) {
    if items == [] then [] else EncodeBytes(items[0]) + EncodeAll(items[1..])
  }

  ghost function EncodeList(items: seq<seq<nat>>): (r: seq<nat>) {
    Prefix(|EncodeAll(items)|, 192) + EncodeAll(items)
  }

  //// What the source emits

  /** The bytes from the first nonzero one on. */
  function Strip(s: seq<nat>): (r: seq<nat>) {
    if s != [] && s[0] == 0 then Strip(s[1..]) else s
  }

  lemma {:induction false} StripSnoc(s: seq<nat>, d: nat)
    ensures Strip(s + [d]) == if Strip(s) == [] then Strip([d]) else Strip(s) + [d]
  {
    if s == [] {
      assert s + [d] == [d];
    } else if s[0] == 0 {
      assert (s + [d])[1..] == s[1..] + [d];
      StripSnoc(s[1..], d);
    }
  }

  /** Fixed-width bytes without their leading zeros are the minimal ones. */
  lemma {:induction false} StripFixed(k: nat, n: nat)
    requires n < Pow(256, k)
    ensures Strip(ByteInterface.WordBytes(k, n)) == Minimal(n)
  {
    if k > 0 {
      DivModDef(n, 256);
      assert n / 256 < Pow(256, k - 1);
      StripFixed(k - 1, n / 256);
      StripSnoc(ByteInterface.WordBytes(k - 1, n / 256), n % 256);
      if n / 256 == 0 { assert Minimal(n / 256) == []; }
    }
  }

  /** `estimate_length_encoding_len`; `usize` has `k` bytes. */
  function EstimateLength(k: nat, len: nat): (n: nat) {
    if len < 56 then 1 else 1 + |Strip(ByteInterface.WordBytes(k, len))|
  }

  /** `estimate_bytes_encoding_len` */
  function EstimateBytes(k: nat, s: seq<nat>): (n: nat) {
    if |s| == 1 && s[0] < 128 then 1 else EstimateLength(k, |s|) + |s|
  }

  /** `estimate_number_encoding_len` */
  function EstimateNumber(k: nat, s: seq<nat>): (n: nat) { EstimateBytes(k, Strip(s)) }

  /** The hasher's input so far. */
  class Hasher {
    var data: seq<nat>

    constructor ()
      ensures data == []
    {
      data := [];
    }

    method Update(s: seq<nat>)
      modifies this
      ensures data == old(data) + s
    {
      data := data + s;
    }

    /** `apply_length_encoding_to_hash`: the first byte never overflows. */
    method ApplyLength(k: nat, len: nat, offset: nat)
      requires k <= 8 && len < Pow(256, k) && offset <= 192
      modifies this
      ensures data == old(data) + Prefix(len, offset) && |Prefix(len, offset)| == EstimateLength(k, len)
    {
      if len < 56 {
        Update([offset + len]);
      } else {
        var s := Strip(ByteInterface.WordBytes(k, len));
        LongPrefix(k, len, offset, s);
        assert offset + 55 + |s| <= 255;
        ghost var before := data;
        Update([offset + 55 + |s|]);
        Update(s);
        Chained(before, [offset + 55 + |s|], s);
      }
    }

    /** `apply_bytes_encoding_to_hash` */
    method ApplyBytes(k: nat, s: seq<nat>)
      requires k <= 8 && |s| < Pow(256, k)
      modifies this
      ensures data == old(data) + EncodeBytes(s) && |EncodeBytes(s)| == EstimateBytes(k, s)
    {
      if |s| == 1 && s[0] < 128 {
        Update(s);
        return;
      }
      ghost var before := data;
      ApplyLength(k, |s|, 128);
      Update(s);
      Chained(before, Prefix(|s|, 128), s);
    }

    /** `apply_number_encoding_to_hash` */
    method ApplyNumber(k: nat, s: seq<nat>)
      requires k <= 8 && |s| < Pow(256, k)
      modifies this
      ensures data == old(data) + EncodeBytes(Strip(s)) && |EncodeBytes(Strip(s))| == EstimateNumber(k, s)
    {
      StripShort(s);
      ApplyBytes(k, Strip(s));
    }
  }

  lemma LongPrefix(k: nat, len: nat, offset: nat, s: seq<nat>)
    requires len >= 56 && len < Pow(256, k) && s == Strip(ByteInterface.WordBytes(k, len))
    ensures |s| <= k && Prefix(len, offset) == [offset + 55 + |s|] + s
  {
    StripFixed(k, len);
    StripShort(ByteInterface.WordBytes(k, len));
  }

  lemma {:induction false} StripShort(s: seq<nat>)
    ensures |Strip(s)| <= |s|
  {
    if s != [] && s[0] == 0 { StripShort(s[1..]); }
  }

  //// Decoding

  /** One byte string from the front of a stream. */
  ghost function Decode(s: seq<nat>): (r: Option<(seq<nat>, seq<nat>)>) {
    if s == [] then None
    else if s[0] < 128 then Some((s[..1], s[1..]))
    else if s[0] < 184 then
      var n := s[0] - 128;
      if |s| < 1 + n then None else Some((s[1..1 + n], s[1 + n..]))
    else if s[0] < 192 then
      var k := s[0] - 183;
      if |s| < 1 + k then None else
      var n := BigEndian(s[1..1 + k]);
      if |s| < 1 + k + n then None else Some((s[1 + k..1 + k + n], s[1 + k + n..]))
    else None
  }

  lemma {:induction false} MinimalValue(n: nat)
    ensures BigEndian(Minimal(n)) == n
  {
    if n > 0 {
      MinimalValue(n / 256);
      assert Minimal(n)[..|Minimal(n)| - 1] == Minimal(n / 256);
    }
  }

  lemma {:induction false} MinimalLength(n: nat, k: nat)
    requires n < Pow(256, k)
    ensures |Minimal(n)| <= k
  {
    if n > 0 {
      DivModDef(n, 256);
      assert n / 256 < Pow(256, k - 1);
      MinimalLength(n / 256, k - 1);
    }
  }

  /** An encoded byte string is read back whatever follows it. */
  lemma DecodeEncoded(s: seq<nat>, rest: seq<nat>)
    requires IsDigits(256, s) && |s| < Pow(256, 8)
    ensures Decode(EncodeBytes(s) + rest) == Some((s, rest))
  {
    var e := EncodeBytes(s) + rest;
    if |s| == 1 && s[0] < 128 {
      assert e[..1] == s && e[1..] == rest;
    } else if |s| < 56 {
      assert e[1..1 + |s|] == s && e[1 + |s|..] == rest;
    } else {
      MinimalLength(|s|, 8);
      MinimalValue(|s|);
      DecodeLong(s, rest, Minimal(|s|));
    }
  }

  lemma DecodeLong(s: seq<nat>, rest: seq<nat>, m: seq<nat>)
    requires |s| >= 56 && 0 < |m| <= 8 && BigEndian(m) == |s|
    ensures Decode([183 + |m|] + m + s + rest) == Some((s, rest))
  {
    var k := |m|;
    var e := [183 + k] + m + s + rest;
    assert e[1..1 + k] == m;
    assert e[1 + k..1 + k + |s|] == s;
    assert e[1 + k + |s|..] == rest;
  }

  /** All byte strings of a payload. */
  ghost function DecodeAll(s: seq<nat>): (r: Option<seq<seq<nat>>>)
    decreases |s|
  {
    if s == [] then Some([])
    else
      match Decode(s)
      case None => None
      case Some((item, rest)) =>
        if |rest| >= |s| then None
        else match DecodeAll(rest) { case None => None case Some(items) => Some([item] + items) }
  }

  ghost predicate Encodable(items: seq<seq<nat>>) {
    forall i :: 0 <= i < |items| ==> IsDigits(256, items[i]) && |items[i]| < Pow(256, 8)
  }

  lemma {:induction false} DecodeAllEncoded(items: seq<seq<nat>>)
    requires Encodable(items)
    ensures DecodeAll(EncodeAll(items)) == Some(items)
  {
    if items != [] {
      DecodeEncoded(items[0], EncodeAll(items[1..]));
      DecodeAllEncoded(items[1..]);
      assert |EncodeBytes(items[0])| > 0;
      assert items == [items[0]] + items[1..];
    }
  }

  /** A list of byte strings: its header names exactly the payload. */
  ghost function DecodeList(s: seq<nat>): (r: Option<seq<seq<nat>>>) {
    if s == [] || s[0] < 192 then None
    else if s[0] < 248 then (if |s| != 1 + (s[0] - 192) then None else DecodeAll(s[1..]))
    else
      var k := s[0] - 247;
      if |s| < 1 + k || |s| != 1 + k + BigEndian(s[1..1 + k]) then None else DecodeAll(s[1 + k..])
  }

  lemma ListLong(p: seq<nat>, m: seq<nat>)
    requires |p| >= 56 && 0 < |m| <= 8 && BigEndian(m) == |p|
    ensures DecodeList([247 + |m|] + m + p) == DecodeAll(p)
  {
    var e := [247 + |m|] + m + p;
    assert e[1..1 + |m|] == m && e[1 + |m|..] == p;
  }

  /** The whole stream decodes back to its fields. */
  lemma ListRoundTrip(items: seq<seq<nat>>)
    requires Encodable(items) && |EncodeAll(items)| < Pow(256, 8)
    ensures DecodeList(EncodeList(items)) == Some(items)
  {
    var p := EncodeAll(items);
    var e := EncodeList(items);
    DecodeAllEncoded(items);
    if |p| < 56 {
      assert e[1..] == p;
    } else {
      MinimalLength(|p|, 8);
      MinimalValue(|p|);
      ListLong(p, Minimal(|p|));
    }
  }
}
