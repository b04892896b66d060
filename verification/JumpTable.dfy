/** Jump destinations: the bitmap built on deployment, its stored image, and its readers. */
module JumpTable {
  import opened Digits
  import opened Wnaf
  import opened BitMaps

  const JUMPDEST: nat := 0x5b
  const PUSH1: nat := 0x60
  const PUSH32: nat := 0x7f

  /** The position after the instruction at `i`, immediate included. */
  function Next(code: seq<nat>, i: nat): (n: nat)
    requires i < |code|
    ensures n > i
  {
    if PUSH1 <= code[i] <= PUSH32 then i + 1 + (code[i] - PUSH1 + 1) else i + 1
  }

  /** `i` is reached by stepping over whole instructions from `start`. */
  ghost predicate Reaches(code: seq<nat>, start: nat, i: nat)
    decreases |code| - start
  {
    start == i || (start < i && start < |code| && Reaches(code, Next(code, start), i))
  }

  /** An instruction starts at `i` (section 9.4.3 of the Yellow Paper). */
  ghost predicate Boundary(code: seq<nat>, i: nat) {
    Reaches(code, 0, i)
  }

  ghost predicate IsJumpdest(code: seq<nat>, i: nat) {
    i < |code| && code[i] == JUMPDEST && Boundary(code, i)
  }

  /** Beyond a boundary, boundaries are those reached from it. */
  lemma {:induction false} ReachesThrough(code: seq<nat>, start: nat, i: nat, p: nat)
    requires Reaches(code, start, i) && i <= p
    ensures Reaches(code, start, p) <==> Reaches(code, i, p)
    decreases |code| - start
  {
    if start != i { ReachesThrough(code, Next(code, start), i, p); }
  }

  lemma NextBoundary(code: seq<nat>, i: nat)
    requires i < |code| && Boundary(code, i)
    ensures Boundary(code, Next(code, i))
    ensures forall p :: i < p < Next(code, i) ==> !Boundary(code, p)
  {
    ReachesThrough(code, 0, i, Next(code, i));
    forall p | i < p < Next(code, i) ensures !Boundary(code, p) {
      ReachesThrough(code, 0, i, p);
    }
  }

  /** `analyze`: bit `i` is set exactly when a jump destination starts there. */
  method Analyze(code: seq<nat>, bits: nat) returns (jumps: BitMapOwned)
    requires bits == 32 || bits == 64
    ensures jumps.Valid() && jumps.bits == bits && fresh(jumps) && fresh(jumps.inner)
    ensures |code| <= jumps.inner.Length * bits && (jumps.inner.Length * bits) % 64 == 0
    ensures forall i :: 0 <= i < jumps.inner.Length * bits ==> BitAt(jumps.Value(), i) == IsJumpdest(code, i)
  {
    jumps := new BitMapOwned(|code|, bits);
    forall i: nat ensures !BitAt(0, i) { ZeroBit(i); }
    var i := 0;
    while i < |code|
      invariant jumps.Valid() && fresh(jumps.inner) && Boundary(code, i)
      invariant forall p :: 0 <= p < jumps.inner.Length * bits ==> BitAt(jumps.Value(), p) == (p < i && IsJumpdest(code, p))
    {
      NextBoundary(code, i);
      var op := code[i];
      if op == JUMPDEST {
        jumps.SetBitOn(i);
        i := i + 1;
      } else if PUSH1 <= op <= PUSH32 {
        i := i + 1 + (op - PUSH1 + 1);
      } else {
        i := i + 1;
      }
    }
  }

  lemma ZeroBit(i: nat)
    ensures !BitAt(0, i)
  {
    DivModUnique(0, Pow(2, i), 0, 0);
    PowOne(2);
  }

  //// Stored image

  /** `Panic` is a failed assertion. */
  datatype Result<+T> = Ok(value: T) | Err | Panic

  /** Code length and bitmap words of `bits` bits each. */
  datatype Preprocessing = Preprocessing(codeLen: nat, bits: nat, words: seq<nat>)

  /** `is_valid_jumpdest` */
  function IsValidJumpdest(p: Preprocessing, off: nat): (b: bool)
    requires p.bits > 0 && p.codeLen <= |p.words| * p.bits
  {
    if off < p.codeLen then
      Position(off, p.bits, |p.words|);
      BitAt(p.words[off / p.bits], off % p.bits)
    else false
  }

  /** `parse_bytecode`: splits a stored blob into code and bitmap; a blob too short for both is an error, and a bitmap
      that is not in whole 64-bit groups fails an assertion. */
  function ParseBytecode(blob: seq<nat>, deployedLen: nat, artifactsLen: nat,
                         bits: nat): (r: Result<(seq<nat>, Preprocessing)>)
    requires bits == 32 || bits == 64
    ensures r.Err? <==> |blob| < deployedLen + artifactsLen
    ensures r.Panic? <==> !r.Err? && artifactsLen % 8 != 0
  {
    if |blob| < deployedLen || |blob| - deployedLen < artifactsLen then Err
    else if artifactsLen % 8 != 0 then Panic
    else
      var padding := |blob| - deployedLen - artifactsLen;
      var rest := blob[deployedLen..];
      Aligned(artifactsLen, bits);
      Ok((blob[..deployedLen], Preprocessing(deployedLen, bits, FromRaw(bits / 8, rest[padding..]))))
  }

  lemma Aligned(len: nat, bits: nat)
    requires (bits == 32 || bits == 64) && len % 8 == 0
    ensures len % (bits / 8) == 0
  {
    DivModDef(len, 8);
    if bits == 32 { DivModUnique(len, 4, 2 * (len / 8), 0); }
  }

  /** The table answers exactly for the code's jump destinations. */
  ghost predicate Answers(p: Preprocessing, code: seq<nat>) {
    && p.bits > 0 && p.codeLen == |code| && p.codeLen <= |p.words| * p.bits
    && forall off: nat :: IsValidJumpdest(p, off) == IsJumpdest(code, off)
  }

  lemma LookupBit(p: Preprocessing, off: nat)
    requires p.bits > 0 && IsDigits(Pow(2, p.bits), p.words) && off < p.codeLen <= |p.words| * p.bits
    ensures IsValidJumpdest(p, off) == BitAt(Num(Pow(2, p.bits), p.words), off)
  {
    Position(off, p.bits, |p.words|);
    DigitBit(p.bits, p.words, off / p.bits, off % p.bits);
  }

  /** Words whose value has the right bits answer for the code. */
  lemma WordsAnswer(p: Preprocessing, code: seq<nat>)
    requires p.bits > 0 && IsDigits(Pow(2, p.bits), p.words) && p.codeLen == |code| <= |p.words| * p.bits
    requires forall i :: 0 <= i < |code| ==> BitAt(Num(Pow(2, p.bits), p.words), i) == IsJumpdest(code, i)
    ensures Answers(p, code)
  {
    forall off: nat ensures IsValidJumpdest(p, off) == IsJumpdest(code, off) {
      if off < |code| { LookupBit(p, off); }
    }
  }

  lemma ByteRadix(bits: nat)
    requires bits == 32 || bits == 64
    ensures Pow(256, bits / 8) == Pow(2, bits)
  {
    assert Pow(2, 8) == 256;
    PowMul(2, 8, bits / 8);
  }

  /** The bitmap survives storage after code and padding, and reading with words of another size. */
  lemma ArtifactsSurvive(code: seq<nat>, padding: seq<nat>, bits: nat, words: seq<nat>, bits': nat)
    requires (bits == 32 || bits == 64) && (bits' == 32 || bits' == 64)
    requires IsDigits(Pow(2, bits), words) && |code| <= |words| * bits && (|words| * bits) % 64 == 0
    requires forall i :: 0 <= i < |code| ==> BitAt(Num(Pow(2, bits), words), i) == IsJumpdest(code, i)
    ensures var artifacts := AsSlice(bits / 8, words);
      var r := ParseBytecode(code + padding + artifacts, |code|, |artifacts|, bits');
      && |artifacts| % 8 == 0
      && r.Ok? && r.value.0 == code && Answers(r.value.1, code)
  {
    var artifacts := AsSlice(bits / 8, words);
    ByteRadix(bits);
    ByteRadix(bits');
    ImageSize(|words|, bits, |artifacts|, bits');
    AsSliceValue(bits / 8, words);
    FromRawValue(bits' / 8, artifacts);
    var words' := FromRaw(bits' / 8, artifacts);
    assert |words'| * bits' == |words| * bits by { ImageSize(|words'|, bits', |artifacts|, bits'); }
    ParseImage(code, padding, artifacts, bits');
    WordsAnswer(Preprocessing(|code|, bits', words'), code);
  }

  lemma ImageSize(n: nat, bits: nat, len: nat, bits': nat)
    requires (bits == 32 || bits == 64) && (bits' == 32 || bits' == 64) && len == n * (bits / 8)
    ensures len * 8 == n * bits
    ensures (n * bits) % 64 == 0 ==> len % 8 == 0 && len % (bits' / 8) == 0
  {
    assert bits / 8 * 8 == bits && (bits' / 8 == 4 || bits' / 8 == 8);
    Assoc(n, bits / 8, 8);
    if (n * bits) % 64 == 0 { DivisibleBytes(len); }
  }

  lemma DivisibleBytes(len: nat)
    requires (len * 8) % 64 == 0
    ensures len % 8 == 0 && len % 4 == 0
  {
    var q := (len * 8) / 64;
    DivModDef(len * 8, 64);
    DivModUnique(len, 8, q, 0);
    DivModUnique(len, 4, 2 * q, 0);
  }

  lemma ParseImage(code: seq<nat>, padding: seq<nat>, artifacts: seq<nat>, bits: nat)
    requires (bits == 32 || bits == 64) && |artifacts| % 8 == 0
    ensures ParseBytecode(code + padding + artifacts, |code|, |artifacts|, bits)
         == Ok((code, Preprocessing(|code|, bits, FromRaw(bits / 8, artifacts))))
  {
    var blob := code + padding + artifacts;
    assert blob[..|code|] == code;
    assert blob[|code|..][|padding|..] == artifacts;
  }
}
