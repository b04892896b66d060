/** Block header hashing and contract address derivation over the RLP stream. */
module BlockHeaders {
  import opened Options
  import opened Digits
  import opened WrappingArith
  import opened Rlp
  import ByteInterface

  const ADDRESS_ENCODING_LEN: nat := 21

  /** A header, its numbers as the fixed-width big-endian bytes they are written from. */
  datatype Header = Header(parentHash: seq<nat>, ommersHash: seq<nat>, beneficiary: seq<nat>, stateRoot: seq<nat>,
                           transactionsRoot: seq<nat>, receiptsRoot: seq<nat>, logsBloom: seq<nat>, difficulty: seq<nat>,
                           number: seq<nat>, gasLimit: seq<nat>, gasUsed: seq<nat>, timestamp: seq<nat>, extraData: seq<nat>,
                           mixHash: seq<nat>, nonce: seq<nat>, baseFee: seq<nat>)

  ghost predicate Bytes(s: seq<nat>, n: nat) { |s| == n && IsDigits(256, s) }

  ghost predicate WellFormed(h: Header) {
    && Bytes(h.parentHash, 32) && Bytes(h.ommersHash, 32) && Bytes(h.beneficiary, 20) && Bytes(h.stateRoot, 32)
    && Bytes(h.transactionsRoot, 32) && Bytes(h.receiptsRoot, 32) && Bytes(h.logsBloom, 256) && Bytes(h.difficulty, 32)
    && Bytes(h.number, 8) && Bytes(h.gasLimit, 8) && Bytes(h.gasUsed, 8) && Bytes(h.timestamp, 8)
    && |h.extraData| <= 32 && IsDigits(256, h.extraData) && Bytes(h.mixHash, 32) && Bytes(h.nonce, 8) && Bytes(h.baseFee, 8)
  }

  /** The header as the list of byte strings it stands for: numbers without leading zeros. */
  ghost function Fields(h: Header): (f: seq<seq<nat>>) {
    [h.parentHash, h.ommersHash, h.beneficiary, h.stateRoot, h.transactionsRoot, h.receiptsRoot, h.logsBloom,
     Strip(h.difficulty), Strip(h.number), Strip(h.gasLimit), Strip(h.gasUsed), Strip(h.timestamp),
     h.extraData, h.mixHash, h.nonce, Strip(h.baseFee)]
  }

  lemma {:induction false} EncodeAllSnoc(done: seq<seq<nat>>, s: seq<nat>)
    ensures EncodeAll(done + [s]) == EncodeAll(done) + EncodeBytes(s)
  {
    if done == [] {
      assert done + [s] == [s];
      assert [s][1..] == [];
    } else {
      assert (done + [s])[1..] == done[1..] + [s];
      EncodeAllSnoc(done[1..], s);
    }
  }

  /** An estimate is the length of what will be emitted. */
  lemma EstimateExact(k: nat, s: seq<nat>)
    requires |s| < Pow(256, k)
    ensures |EncodeBytes(s)| == EstimateBytes(k, s)
  {
    StripFixed(k, |s|);
  }

  lemma SmallFits(k: nat)
    requires k == 4 || k == 8
    ensures 1000 < Pow(256, k)
  {
    assert Pow(256, 2) == 65536;
    PowMono(256, 2, k);
  }

  ghost predicate ShortFields(f: seq<seq<nat>>) {
    |f| == 16 && forall i :: 0 <= i < |f| ==> |f[i]| <= 256
  }

  lemma FieldsShort(h: Header)
    requires WellFormed(h)
    ensures ShortFields(Fields(h))
  {
    StripShort(h.difficulty);
    StripShort(h.number);
    StripShort(h.gasLimit);
    StripShort(h.gasUsed);
    StripShort(h.timestamp);
    StripShort(h.baseFee);
  }

  lemma {:induction false} Taken(f: seq<seq<nat>>, i: nat)
    requires i < |f|
    ensures f[..i] + [f[i]] == f[..i + 1]
  {}

  /** One more estimate: the total stays the length of the encoded fields. */
  lemma Grown(k: nat, f: seq<seq<nat>>, i: nat)
    requires (k == 4 || k == 8) && i < |f| && ShortFields(f)
    ensures |EncodeAll(f[..i + 1])| == |EncodeAll(f[..i])| + EstimateBytes(k, f[i])
  {
    SmallFits(k);
    Taken(f, i);
    EncodeAllSnoc(f[..i], f[i]);
    EstimateExact(k, f[i]);
  }

  /** The fields as the source reads them: byte strings, and fixed-width numbers without leading zeros. */
  ghost predicate Matches(f: seq<seq<nat>>, h: Header) {
    && |f| == 16 && WellFormed(h)
    && f[0] == h.parentHash && f[1] == h.ommersHash && f[2] == h.beneficiary && f[3] == h.stateRoot
    && f[4] == h.transactionsRoot && f[5] == h.receiptsRoot && f[6] == h.logsBloom && f[12] == h.extraData
    && f[13] == h.mixHash && f[14] == h.nonce
    && f[7] == Strip(h.difficulty)
    && f[8] == Strip(h.number)
    && f[9] == Strip(h.gasLimit)
    && f[10] == Strip(h.gasUsed)
    && f[11] == Strip(h.timestamp)
    && f[15] == Strip(h.baseFee)
  }

  lemma FieldsMatch(h: Header)
    requires WellFormed(h)
    ensures Matches(Fields(h), h) && ShortFields(Fields(h))
  {
    FieldsShort(h);
  }

  method Tally(k: nat, total: nat, estimate: nat, ghost f: seq<seq<nat>>, ghost i: nat) returns (t: nat)
    requires (k == 4 || k == 8) && i < |f| && ShortFields(f) && total == |EncodeAll(f[..i])|
    requires estimate == EstimateBytes(k, f[i])
    ensures t == |EncodeAll(f[..i + 1])|
  {
    Grown(k, f, i);
    t := total + estimate;
  }

  /** The length of the header's list payload, by estimates alone; `usize` has `k` bytes. */
  method PayloadLength(h: Header, k: nat, ghost f: seq<seq<nat>>) returns (total: nat)
    requires Matches(f, h) && ShortFields(f) && (k == 4 || k == 8)
    ensures total == |EncodeAll(f)|
  {
    total := RootsLength(h, k, f);
    total := ScalarsLength(h, k, f, total);
    assert f[..16] == f;
  }

  lemma AddressEstimate(k: nat, s: seq<nat>)
    requires |s| == 20
    ensures EstimateBytes(k, s) == ADDRESS_ENCODING_LEN
  {}

  method RootsLength(h: Header, k: nat, ghost f: seq<seq<nat>>) returns (total: nat)
    requires Matches(f, h) && ShortFields(f) && (k == 4 || k == 8)
    ensures total == |EncodeAll(f[..7])|
  {
    assert f[..0] == [];
    AddressEstimate(k, f[2]);
    total := 0;
    total := Tally(k, total, EstimateBytes(k, h.parentHash), f, 0);
    total := Tally(k, total, EstimateBytes(k, h.ommersHash), f, 1);
    total := Tally(k, total, ADDRESS_ENCODING_LEN, f, 2);
    total := Tally(k, total, EstimateBytes(k, h.stateRoot), f, 3);
    total := Tally(k, total, EstimateBytes(k, h.transactionsRoot), f, 4);
    total := Tally(k, total, EstimateBytes(k, h.receiptsRoot), f, 5);
    total := Tally(k, total, EstimateBytes(k, h.logsBloom), f, 6);
  }

  method ScalarsLength(h: Header, k: nat, ghost f: seq<seq<nat>>, roots: nat) returns (total: nat)
    requires Matches(f, h) && ShortFields(f) && (k == 4 || k == 8) && roots == |EncodeAll(f[..7])|
    ensures total == |EncodeAll(f[..16])|
  {
    total := roots;
    total := Tally(k, total, EstimateNumber(k, h.difficulty), f, 7);
    total := Tally(k, total, EstimateNumber(k, h.number), f, 8);
    total := Tally(k, total, EstimateNumber(k, h.gasLimit), f, 9);
    total := Tally(k, total, EstimateNumber(k, h.gasUsed), f, 10);
    total := Tally(k, total, EstimateNumber(k, h.timestamp), f, 11);
    total := Tally(k, total, EstimateBytes(k, h.extraData), f, 12);
    total := Tally(k, total, EstimateBytes(k, h.mixHash), f, 13);
    total := Tally(k, total, EstimateBytes(k, h.nonce), f, 14);
    total := Tally(k, total, EstimateNumber(k, h.baseFee), f, 15);
  }

  lemma Appended(start: seq<nat>, f: seq<seq<nat>>, i: nat)
    requires i < |f|
    ensures start + EncodeAll(f[..i + 1]) == start + EncodeAll(f[..i]) + EncodeBytes(f[i])
  {
    EncodeAllSnoc(f[..i], f[i]);
    Taken(f, i);
  }

  method PutBytes(hasher: Hasher, k: nat, s: seq<nat>, ghost start: seq<nat>, ghost f: seq<seq<nat>>, ghost i: nat)
    requires (k == 4 || k == 8) && |s| <= 1000 && i < |f| && s == f[i] && hasher.data == start + EncodeAll(f[..i])
    modifies hasher
    ensures hasher.data == start + EncodeAll(f[..i + 1])
  {
    SmallFits(k);
    Appended(start, f, i);
    hasher.ApplyBytes(k, s);
  }

  method PutNumber(hasher: Hasher, k: nat, s: seq<nat>, ghost start: seq<nat>, ghost f: seq<seq<nat>>, ghost i: nat)
    requires (k == 4 || k == 8) && |s| <= 1000 && i < |f| && Strip(s) == f[i]
    requires hasher.data == start + EncodeAll(f[..i])
    modifies hasher
    ensures hasher.data == start + EncodeAll(f[..i + 1])
  {
    SmallFits(k);
    Appended(start, f, i);
    hasher.ApplyNumber(k, s);
  }

  /** `BlockHeader::hash` up to the final digest: the stream is the header's list encoding. */
  method Stream(h: Header, k: nat) returns (data: seq<nat>)
    requires WellFormed(h) && (k == 4 || k == 8)
    ensures data == EncodeList(Fields(h))
  {
    FieldsMatch(h);
    PayloadFits(h, k);
    data := StreamFields(h, k, Fields(h));
  }

  method StreamFields(h: Header, k: nat, ghost f: seq<seq<nat>>) returns (data: seq<nat>)
    requires Matches(f, h) && ShortFields(f) && (k == 4 || k == 8) && |EncodeAll(f)| < Pow(256, k)
    ensures data == EncodeList(f)
  {
    var total := PayloadLength(h, k, f);
    var hasher := new Hasher();
    hasher.ApplyLength(k, total, 192);
    ghost var start := hasher.data;
    PutRoots(hasher, h, k, start, f);
    PutScalars(hasher, h, k, start, f);
    assert f[..16] == f;
    data := hasher.data;
  }

  /** The header's hashes, beneficiary and bloom. */
  method PutRoots(hasher: Hasher, h: Header, k: nat, ghost start: seq<nat>, ghost f: seq<seq<nat>>)
    requires Matches(f, h) && ShortFields(f) && (k == 4 || k == 8) && hasher.data == start
    modifies hasher
    ensures hasher.data == start + EncodeAll(f[..7])
  {
    PutBytes(hasher, k, h.parentHash, start, f, 0);
    PutBytes(hasher, k, h.ommersHash, start, f, 1);
    PutBytes(hasher, k, h.beneficiary, start, f, 2);
    PutBytes(hasher, k, h.stateRoot, start, f, 3);
    PutBytes(hasher, k, h.transactionsRoot, start, f, 4);
    PutBytes(hasher, k, h.receiptsRoot, start, f, 5);
    PutBytes(hasher, k, h.logsBloom, start, f, 6);
  }

  /** The header's numbers and the fields between them. */
  method PutScalars(hasher: Hasher, h: Header, k: nat, ghost start: seq<nat>, ghost f: seq<seq<nat>>)
    requires Matches(f, h) && ShortFields(f) && (k == 4 || k == 8) && hasher.data == start + EncodeAll(f[..7])
    modifies hasher
    ensures hasher.data == start + EncodeAll(f[..16])
  {
    PutNumber(hasher, k, h.difficulty, start, f, 7);
    PutNumber(hasher, k, h.number, start, f, 8);
    PutNumber(hasher, k, h.gasLimit, start, f, 9);
    PutNumber(hasher, k, h.gasUsed, start, f, 10);
    PutNumber(hasher, k, h.timestamp, start, f, 11);
    PutBytes(hasher, k, h.extraData, start, f, 12);
    PutBytes(hasher, k, h.mixHash, start, f, 13);
    PutBytes(hasher, k, h.nonce, start, f, 14);
    PutNumber(hasher, k, h.baseFee, start, f, 15);
  }

  lemma PayloadFits(h: Header, k: nat)
    requires WellFormed(h) && (k == 4 || k == 8)
    ensures |EncodeAll(Fields(h))| < Pow(256, k) && |EncodeAll(Fields(h))| < Pow(256, 8)
  {
    FieldsShort(h);
    ShortItems(Fields(h));
    SixteenBits(k);
    SixteenBits(8);
  }

  lemma SixteenBits(k: nat)
    requires k >= 2
    ensures 65536 <= Pow(256, k)
  {
    assert Pow(256, 2) == 65536;
    PowMono(256, 2, k);
  }

  lemma {:induction false} ShortItems(f: seq<seq<nat>>)
    requires forall i :: 0 <= i < |f| ==> |f[i]| <= 256
    ensures |EncodeAll(f)| <= 300 * |f|
  {
    if f != [] {
      ShortItems(f[1..]);
      assert Pow(256, 2) == 65536;
      MinimalLength(|f[0]|, 2);
    }
  }

  /** The stream determines the header. */
  lemma HeaderRoundTrip(h: Header)
    requires WellFormed(h)
    ensures DecodeList(EncodeList(Fields(h))) == Some(Fields(h))
  {
    PayloadFits(h, 8);
    FieldsEncodable(h);
    ListRoundTrip(Fields(h));
  }

  lemma FieldsEncodable(h: Header)
    requires WellFormed(h)
    ensures Encodable(Fields(h))
  {
    FieldsShort(h);
    SixteenBits(8);
    StripDigits(h.difficulty);
    StripDigits(h.number);
    StripDigits(h.gasLimit);
    StripDigits(h.gasUsed);
    StripDigits(h.timestamp);
    StripDigits(h.baseFee);
  }

  lemma {:induction false} StripDigits(s: seq<nat>)
    requires IsDigits(256, s)
    ensures IsDigits(256, Strip(s))
  {
    if s != [] && s[0] == 0 { StripDigits(s[1..]); }
  }

  /** With the width known, the leading zeros are. */
  lemma {:induction false} StripInjective(s: seq<nat>, t: seq<nat>)
    requires |s| == |t| && Strip(s) == Strip(t)
    ensures s == t
  {
    if s != [] {
      StripShort(s[1..]);
      StripShort(t[1..]);
      if s[0] == 0 && t[0] == 0 {
        StripInjective(s[1..], t[1..]);
        assert s == [s[0]] + s[1..] && t == [t[0]] + t[1..];
      }
    }
  }

  /** Two headers with the same stream are the same header. */
  lemma StreamInjective(h: Header, h': Header)
    requires WellFormed(h) && WellFormed(h') && EncodeList(Fields(h)) == EncodeList(Fields(h'))
    ensures h == h'
  {
    HeaderRoundTrip(h);
    HeaderRoundTrip(h');
    FieldsMatch(h);
    FieldsMatch(h');
    SameHeader(Fields(h), h, h');
  }

  lemma SameHeader(f: seq<seq<nat>>, h: Header, h': Header)
    requires Matches(f, h) && Matches(f, h')
    ensures h == h'
  {
    StripInjective(h.difficulty, h'.difficulty);
    StripInjective(h.number, h'.number);
    StripInjective(h.gasLimit, h'.gasLimit);
    StripInjective(h.gasUsed, h'.gasUsed);
    StripInjective(h.timestamp, h'.timestamp);
    StripInjective(h.baseFee, h'.baseFee);
  }

  //// Contract addresses

  /** `create_quasi_rlp`: the list of an address and a nonce of eight bytes, written out by hand. */
  function CreateQuasiRlp(address: seq<nat>, nonce: seq<nat>): (s: seq<nat>)
    requires |address| == 20 && |nonce| == 8
  {
    var stripped := Strip(nonce);
    if |stripped| == 1 && nonce[7] < 128 then [0xc0 + 1 + 20 + 1, 0x80 + 20] + (address + [nonce[7]])
    else [0xc0 + (1 + 20 + 1 + |stripped|), 0x80 + 20] + (address + ([0x80 + |stripped|] + stripped))
  }

  /** It is the general encoding of the address and the number, for every nonce, zero included. */
  lemma QuasiRlpIsRlp(address: seq<nat>, nonce: nat, width: nat)
    requires |address| == 20 && width == 8 && nonce < Pow(256, width)
    ensures CreateQuasiRlp(address, ByteInterface.WordBytes(width, nonce)) == EncodeList([address, Minimal(nonce)])
  {
    StripFixed(width, nonce);
    MinimalLength(nonce, width);
    QuasiOfBytes(address, ByteInterface.WordBytes(width, nonce));
  }

  lemma QuasiOfBytes(address: seq<nat>, nonce: seq<nat>)
    requires |address| == 20 && |nonce| == 8 && |Strip(nonce)| <= 8
    ensures CreateQuasiRlp(address, nonce) == EncodeList([address, Strip(nonce)])
  {
    LastByte(nonce);
    PairPayload(address, Strip(nonce));
    QuasiParts(address, nonce, Strip(nonce), EncodeAll([address, Strip(nonce)]));
  }

  lemma QuasiParts(address: seq<nat>, nonce: seq<nat>, m: seq<nat>, p: seq<nat>)
    requires |address| == 20 && |nonce| == 8 && |m| <= 8 && m == Strip(nonce) && (|m| > 0 ==> m[|m| - 1] == nonce[7])
    requires p == [0x94] + address + EncodeBytes(m)
    ensures CreateQuasiRlp(address, nonce) == Prefix(|p|, 192) + p
  {
    if |m| == 1 && nonce[7] < 128 {
      assert m == [nonce[7]];
      assert p == [0x94] + address + m;
      assert Prefix(|p|, 192) == [0xc0 + 22];
      assert [0xc0 + 22, 0x94] + (address + [nonce[7]]) == [0xc0 + 22] + ([0x94] + address + m);
    } else {
      QuasiLong(address, nonce, m, p);
    }
  }

  lemma QuasiLong(address: seq<nat>, nonce: seq<nat>, m: seq<nat>, p: seq<nat>)
    requires |address| == 20 && |nonce| == 8 && |m| <= 8 && m == Strip(nonce) && !(|m| == 1 && nonce[7] < 128)
    requires p == [0x94] + address + ([0x80 + |m|] + m)
    ensures CreateQuasiRlp(address, nonce) == Prefix(|p|, 192) + p
  {
    var n := 0xc0 + 22 + |m|;
    assert Prefix(|p|, 192) == [n];
    assert CreateQuasiRlp(address, nonce) == [n, 0x94] + (address + ([0x80 + |m|] + m));
    assert [n, 0x94] + (address + ([0x80 + |m|] + m)) == [n] + p;
  }

  lemma PairPayload(address: seq<nat>, m: seq<nat>)
    requires |address| == 20
    ensures EncodeAll([address, m]) == [0x94] + address + EncodeBytes(m)
  {
    var items, tail: seq<seq<nat>> := [address, m], [m];
    assert items[1..] == tail && tail[1..] == [];
    assert EncodeAll(tail) == EncodeBytes(m) + [];
  }

  /** Stripping leading zeros keeps the last byte of what remains. */
  lemma {:induction false} LastByte(s: seq<nat>)
    requires |s| > 0
    ensures |Strip(s)| > 0 ==> Strip(s)[|Strip(s)| - 1] == s[|s| - 1]
  {
    if s[0] == 0 && |s| > 1 { LastByte(s[1..]); }
  }
}
