/**
 How a record is split for proving: `addPacketToProve` of `makeZkProofGenerator`,
 with the TOPRF slices placed first and the gaps between them filled.
 */
module ZkPlan {
  import opened ByteData
  import opened Redaction
  import opened BlockReveal

  /** Sizes in bytes of what one circuit proves, and of the cipher's block. */
  datatype AlgorithmBase = Algorithm(chunk: nat, block: nat)

  type Algorithm = a: AlgorithmBase | a.block > 0 && a.chunk > 0 && a.chunk % a.block == 0
    witness Algorithm(128, 64)

  datatype Error = OutOfBounds | CannotFit | Overlap

  datatype Result<+T> = Ok(value: T) | Err(error: Error)

  // ----- the place for a TOPRF slice -----

  function CeilDiv(a: nat, b: nat): nat
    requires b > 0
  {
    (a + b - 1) / b
  }

  lemma MultipleNat(a: nat, b: nat)
    ensures a * b >= 0
  {
  }

  /** `getIdealOffsetForToprfBlock`; its guard compares a number of blocks with bytes. */
  function IdealOffset(alg: Algorithm, from: nat, length: nat): Result<nat> {
    MultipleNat(from / alg.chunk, alg.chunk);
    MultipleNat(from / alg.block, alg.block);
    var offsetChunks, endOffsetChunks := from / alg.chunk, (from + length) / alg.chunk;
    if endOffsetChunks == offsetChunks then Ok(offsetChunks * alg.chunk)
    else
      var offsetBytes := from / alg.block * alg.block;
      var endOffsetBytes := CeilDiv(from + length, alg.block);
      if endOffsetBytes - offsetBytes > alg.chunk then Err(CannotFit) else Ok(offsetBytes)
  }

  /** The slice of one chunk from the offset on holds the whole location. */
  predicate HoldsLocation(offset: int, size: int, from: int, length: int) {
    offset <= from && from + length <= offset + size
  }

  lemma DivBounds(a: nat, b: nat)
    requires b > 0
    ensures a / b * b == a - a % b && 0 <= a - a % b <= a < a / b * b + b
  {
  }

  lemma {:induction false} MultipleOf(k: nat, c: nat, b: nat)
    requires b > 0 && c % b == 0
    ensures (k * c) % b == 0
  {
    if k > 0 {
      MultipleOf(k - 1, c, b);
      assert k * c == (k - 1) * c + c;
      ModAdd((k - 1) * c, c, b);
    }
  }

  lemma ModAdd(x: nat, y: nat, b: nat)
    requires b > 0 && x % b == 0 && y % b == 0
    ensures (x + y) % b == 0
  {
    assert x + y == b * (x / b) + b * (y / b) == b * (x / b + y / b);
    MulMod(x / b + y / b, b);
  }

  lemma MulSign(b: int, d: int)
    requires b > 0
    ensures d >= 1 ==> b * d >= b
    ensures d <= -1 ==> b * d <= -b
  {
  }

  lemma MulMod(k: nat, b: nat)
    requires b > 0
    ensures (b * k) % b == 0
  {
    var q := b * k / b;
    assert b * k == b * q + (b * k) % b;
    assert b * (k - q) == (b * k) % b;
    MulSign(b, k - q);
  }

  /** An accepted offset stands at a block's start, at or before the location. */
  lemma OffsetAligned(alg: Algorithm, from: nat, length: nat)
    requires IdealOffset(alg, from, length).Ok?
    ensures var offset := IdealOffset(alg, from, length).value;
            offset % alg.block == 0 && offset <= from
  {
    DivBounds(from, alg.chunk);
    DivBounds(from, alg.block);
    MultipleOf(from / alg.chunk, alg.chunk, alg.block);
    MultipleOf(from / alg.block, alg.block, alg.block);
  }

  /**
   An accepted location fits into its slice exactly when it lies within one chunk of
   the grid, or its distance from the block's start and its length fit into a chunk.
   */
  lemma FitsExactlyWhen(alg: Algorithm, from: nat, length: nat)
    requires IdealOffset(alg, from, length).Ok?
    ensures HoldsLocation(IdealOffset(alg, from, length).value, alg.chunk, from, length) <==>
            from / alg.chunk == (from + length) / alg.chunk || from % alg.block + length <= alg.chunk
  {
    DivBounds(from, alg.chunk);
    DivBounds(from + length, alg.chunk);
    DivBounds(from, alg.block);
  }

  /** Lengths up to a chunk less a block, plus one, always fit. */
  lemma ShortLocationsFit(alg: Algorithm, from: nat, length: nat)
    requires IdealOffset(alg, from, length).Ok? && length <= alg.chunk - alg.block + 1
    ensures HoldsLocation(IdealOffset(alg, from, length).value, alg.chunk, from, length)
  {
    FitsExactlyWhen(alg, from, length);
  }

  /** A longer location that is accepted and does not fit (sizes of AES in counter mode). */
  lemma AcceptedWithoutFitting()
    ensures var aes: Algorithm := Algorithm(80, 16);
            IdealOffset(aes, 15, 70) == Ok(0) && !HoldsLocation(0, aes.chunk, 15, 70)
  {
  }

  // ----- planning -----

  /** A proof to generate: the slice's redacted texts and the rebased hash, if any. */
  datatype ProofToGenerate = ProofToGenerate(
    startIdx: nat, redactedPlaintext: Bytes, redactedCiphertext: Bytes, toprf: Option<BlockToprf>)

  datatype Plan = Plan(slices: seq<Slice>, proofs: seq<ProofToGenerate>)

  /** The ciphertext with stars where the plaintext has stars. */
  function RedactCiphertext(ciphertext: Bytes, plaintext: Bytes): (r: Bytes)
    ensures |r| == |ciphertext|
  {
    seq(|ciphertext|, i requires 0 <= i < |ciphertext| =>
      if i < |plaintext| && plaintext[i] == STAR then STAR else ciphertext[i])
  }

  /** `getProofGenerationParamsForSlice`: nothing to prove where all is redacted. */
  function ProofFor(ct: Bytes, rp: Bytes, slice: Slice, toprf: Option<BlockToprf>): Option<ProofToGenerate> {
    var plaintext := Take(rp, slice.fromIndex, slice.toIndex);
    if FullyRedacted(plaintext) then None
    else
      var ciphertext := Take(ct, slice.fromIndex, slice.toIndex);
      Some(ProofToGenerate(slice.fromIndex, plaintext, RedactCiphertext(ciphertext, plaintext), toprf))
  }

  function AddSlice(ct: Bytes, rp: Bytes, slice: Slice, toprf: Option<BlockToprf>, plan: Plan): Plan {
    var proof := ProofFor(ct, rp, slice, toprf);
    Plan(plan.slices + [slice], plan.proofs + if proof.Some? then [proof.value] else [])
  }

  /** `addProofsToGenerate`, from position `i` on. */
  function AddProofs(alg: Algorithm, ct: Bytes, rp: Bytes, i: nat, until: nat, toprf: Option<BlockToprf>,
                     plan: Plan): Plan
    decreases until - i
  {
    if i >= until then plan
    else
      AddProofs(alg, ct, rp, i + alg.chunk, until, toprf,
                AddSlice(ct, rp, Slice(i, Min(i + alg.chunk, until)), toprf, plan))
  }

  predicate Overlaps(a: Slice, b: Slice) {
    a.fromIndex < b.toIndex && a.toIndex > b.fromIndex
  }

  function AddToprf(alg: Algorithm, ct: Bytes, rp: Bytes, toprf: BlockToprf, plan: Plan): Result<Plan> {
    if toprf.fromIndex + toprf.length > |ct| then Err(OutOfBounds)
    else
      match IdealOffset(alg, toprf.fromIndex, toprf.length)
      case Err(e) => Err(e)
      case Ok(from) =>
        OffsetAligned(alg, toprf.fromIndex, toprf.length);
        var slice := Slice(from, Min(from + alg.chunk, |ct|));
        if exists k :: 0 <= k < |plan.slices| && Overlaps(slice, plan.slices[k]) then Err(Overlap)
        else Ok(AddProofs(alg, ct, rp, slice.fromIndex, slice.toIndex,
                          Some(toprf.(fromIndex := toprf.fromIndex - from)), plan))
  }

  function AddToprfs(alg: Algorithm, ct: Bytes, rp: Bytes, toprfs: seq<BlockToprf>): Result<Plan> {
    if toprfs == [] then Ok(Plan([], []))
    else
      match AddToprfs(alg, ct, rp, toprfs[..|toprfs| - 1])
      case Err(e) => Err(e)
      case Ok(plan) => AddToprf(alg, ct, rp, toprfs[|toprfs| - 1], plan)
  }

  function InsertSlice(slices: seq<Slice>, s: Slice): seq<Slice> {
    if slices == [] || slices[|slices| - 1].fromIndex <= s.fromIndex then slices + [s]
    else InsertSlice(slices[..|slices| - 1], s) + [slices[|slices| - 1]]
  }

  /** `sortSlices`: by their starts, stable. */
  function SortSlices(slices: seq<Slice>): seq<Slice> {
    if slices == [] then [] else InsertSlice(SortSlices(slices[..|slices| - 1]), slices[|slices| - 1])
  }

  /** Proofs for the gaps in front of the first `n` slices done. */
  function FillGaps(alg: Algorithm, ct: Bytes, rp: Bytes, done: seq<Slice>, n: nat, plan: Plan): Plan
    requires n <= |done|
  {
    if n == 0 then plan
    else
      var fromIndex := if n == 1 then 0 else done[n - 2].toIndex;
      var before := FillGaps(alg, ct, rp, done, n - 1, plan);
      if done[n - 1].fromIndex > fromIndex then
        AddProofs(alg, ct, rp, fromIndex, done[n - 1].fromIndex, None, before)
      else before
  }

  function FillAll(alg: Algorithm, ct: Bytes, rp: Bytes, plan: Plan): Plan {
    var done := SortSlices(plan.slices);
    var filled := FillGaps(alg, ct, rp, done, |done|, plan);
    var fromIndex := if done == [] then 0 else done[|done| - 1].toIndex;
    if fromIndex < |ct| then AddProofs(alg, ct, rp, fromIndex, |ct|, None, filled) else filled
  }

  function InsertProof(proofs: seq<ProofToGenerate>, p: ProofToGenerate): seq<ProofToGenerate> {
    if proofs == [] || proofs[|proofs| - 1].startIdx <= p.startIdx then proofs + [p]
    else InsertProof(proofs[..|proofs| - 1], p) + [proofs[|proofs| - 1]]
  }

  function SortProofs(proofs: seq<ProofToGenerate>): seq<ProofToGenerate> {
    if proofs == [] then [] else InsertProof(SortProofs(proofs[..|proofs| - 1]), proofs[|proofs| - 1])
  }

  /** The plan for a packet: the slices done, and the proofs in the order of their starts. */
  function PlanPacket(alg: Algorithm, ct: Bytes, rp: Bytes, toprfs: seq<BlockToprf>): Result<Plan> {
    match AddToprfs(alg, ct, rp, toprfs)
    case Err(e) => Err(e)
    case Ok(plan) =>
      var all := FillAll(alg, ct, rp, plan);
      Ok(Plan(all.slices, SortProofs(all.proofs)))
  }
}
