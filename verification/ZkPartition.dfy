/**
 The slices of a planned packet partition its ciphertext, so every byte that is not
 redacted is proved exactly once.
 */
module ZkPartition {
  import opened ByteData
  import opened BlockReveal
  import opened ZkPlan

  predicate Contains(s: Slice, p: int) {
    s.fromIndex <= p < s.toIndex
  }

  /** How many of the first `n` slices hold the position. */
  function CountTo(slices: seq<Slice>, n: nat, p: int): nat
    requires n <= |slices|
  {
    if n == 0 then 0 else CountTo(slices, n - 1, p) + if Contains(slices[n - 1], p) then 1 else 0
  }

  function Count(slices: seq<Slice>, p: int): nat {
    CountTo(slices, |slices|, p)
  }

  /** The positions a proof is about. */
  predicate Proves(proof: ProofToGenerate, p: int) {
    proof.startIdx <= p < proof.startIdx + |proof.redactedPlaintext|
  }

  function ProofCountTo(proofs: seq<ProofToGenerate>, n: nat, p: int): nat
    requires n <= |proofs|
  {
    if n == 0 then 0 else ProofCountTo(proofs, n - 1, p) + if Proves(proofs[n - 1], p) then 1 else 0
  }

  function ProofCount(proofs: seq<ProofToGenerate>, p: int): nat {
    ProofCountTo(proofs, |proofs|, p)
  }

  lemma {:induction false} CountPrefix(slices: seq<Slice>, more: seq<Slice>, n: nat, p: int)
    requires n <= |slices|
    ensures CountTo(slices + more, n, p) == CountTo(slices, n, p)
  {
    if n > 0 {
      CountPrefix(slices, more, n - 1, p);
    }
  }

  lemma CountSnoc(slices: seq<Slice>, s: Slice, p: int)
    ensures Count(slices + [s], p) == Count(slices, p) + if Contains(s, p) then 1 else 0
  {
    CountPrefix(slices, [s], |slices|, p);
  }

  lemma {:induction false} ProofCountPrefix(proofs: seq<ProofToGenerate>, more: seq<ProofToGenerate>, n: nat, p: int)
    requires n <= |proofs|
    ensures ProofCountTo(proofs + more, n, p) == ProofCountTo(proofs, n, p)
  {
    if n > 0 {
      ProofCountPrefix(proofs, more, n - 1, p);
    }
  }

  lemma ProofCountSnoc(proofs: seq<ProofToGenerate>, q: ProofToGenerate, p: int)
    ensures ProofCount(proofs + [q], p) == ProofCount(proofs, p) + if Proves(q, p) then 1 else 0
  {
    ProofCountPrefix(proofs, [q], |proofs|, p);
  }

  // ----- what adding a stretch does -----

  /** Non-empty, at most one chunk, from a block's start, inside the ciphertext. */
  predicate Fit(alg: Algorithm, length: nat, s: Slice) {
    && s.fromIndex < s.toIndex <= length
    && s.toIndex - s.fromIndex <= alg.chunk
    && s.fromIndex % alg.block == 0
  }

  predicate AllFit(alg: Algorithm, length: nat, slices: seq<Slice>) {
    forall k :: 0 <= k < |slices| ==> Fit(alg, length, slices[k])
  }

  /** A byte that is not redacted is proved as often as it lies in a slice. */
  predicate ProvedAsSliced(rp: Bytes, plan: Plan, p: int) {
    0 <= p < |rp| && rp[p] != STAR ==> ProofCount(plan.proofs, p) == Count(plan.slices, p)
  }

  function One(c: bool): nat {
    if c then 1 else 0
  }

  lemma AddSliceCounts(ct: Bytes, rp: Bytes, slice: Slice, toprf: Option<BlockToprf>, plan: Plan, p: int)
    requires |ct| == |rp| && slice.fromIndex < slice.toIndex <= |ct|
    requires ProvedAsSliced(rp, plan, p)
    ensures var next := AddSlice(ct, rp, slice, toprf, plan);
            && Count(next.slices, p) == Count(plan.slices, p) + One(Contains(slice, p))
            && ProvedAsSliced(rp, next, p)
  {
    CountSnoc(plan.slices, slice, p);
    var proof := ProofFor(ct, rp, slice, toprf);
    var plaintext := Take(rp, slice.fromIndex, slice.toIndex);
    if proof.Some? {
      ProofCountSnoc(plan.proofs, proof.value, p);
    } else {
      assert plan.proofs + [] == plan.proofs;
      if Contains(slice, p) {
        assert rp[p] == plaintext[p - slice.fromIndex];
      }
    }
  }

  lemma {:induction false} AddProofsCounts(alg: Algorithm, ct: Bytes, rp: Bytes, i: nat, until: nat,
                                           toprf: Option<BlockToprf>, plan: Plan, p: int)
    requires |ct| == |rp| && until <= |ct| && ProvedAsSliced(rp, plan, p)
    ensures var next := AddProofs(alg, ct, rp, i, until, toprf, plan);
            && Count(next.slices, p) == Count(plan.slices, p) + One(i <= p < until)
            && ProvedAsSliced(rp, next, p)
    decreases until - i
  {
    if i < until {
      var slice := Slice(i, Min(i + alg.chunk, until));
      AddSliceCounts(ct, rp, slice, toprf, plan, p);
      AddProofsCounts(alg, ct, rp, i + alg.chunk, until, toprf, AddSlice(ct, rp, slice, toprf, plan), p);
    }
  }

  lemma {:induction false} AddProofsFit(alg: Algorithm, ct: Bytes, rp: Bytes, i: nat, until: nat,
                                        toprf: Option<BlockToprf>, plan: Plan)
    requires until <= |ct| && i % alg.block == 0 && AllFit(alg, |ct|, plan.slices)
    ensures AllFit(alg, |ct|, AddProofs(alg, ct, rp, i, until, toprf, plan).slices)
    decreases until - i
  {
    if i < until {
      ModAdd(i, alg.chunk, alg.block);
      AddProofsFit(alg, ct, rp, i + alg.chunk, until, toprf,
                   AddSlice(ct, rp, Slice(i, Min(i + alg.chunk, until)), toprf, plan));
    }
  }

  // ----- the TOPRF slices -----

  predicate KeepApart(slices: seq<Slice>) {
    forall i, j :: 0 <= i < j < |slices| ==> !Overlaps(slices[i], slices[j])
  }

  /** Each ends at a block's start, or at the end of the ciphertext. */
  predicate EndsFit(alg: Algorithm, length: nat, slices: seq<Slice>) {
    forall k :: 0 <= k < |slices| ==> slices[k].toIndex % alg.block == 0 || slices[k].toIndex == length
  }

  lemma OneSlice(alg: Algorithm, ct: Bytes, rp: Bytes, slice: Slice, toprf: Option<BlockToprf>, plan: Plan)
    requires slice.toIndex <= slice.fromIndex + alg.chunk
    ensures AddProofs(alg, ct, rp, slice.fromIndex, slice.toIndex, toprf, plan)
            == if slice.fromIndex < slice.toIndex then AddSlice(ct, rp, slice, toprf, plan) else plan
  {
  }

  predicate ToprfsPlaced(alg: Algorithm, ct: Bytes, rp: Bytes, plan: Plan) {
    && AllFit(alg, |ct|, plan.slices)
    && EndsFit(alg, |ct|, plan.slices)
    && KeepApart(plan.slices)
  }

  lemma AddToprfPlaces(alg: Algorithm, ct: Bytes, rp: Bytes, toprf: BlockToprf, plan: Plan)
    requires ToprfsPlaced(alg, ct, rp, plan) && AddToprf(alg, ct, rp, toprf, plan).Ok?
    ensures ToprfsPlaced(alg, ct, rp, AddToprf(alg, ct, rp, toprf, plan).value)
  {
    var from := IdealOffset(alg, toprf.fromIndex, toprf.length).value;
    OffsetAligned(alg, toprf.fromIndex, toprf.length);
    var slice := Slice(from, Min(from + alg.chunk, |ct|));
    ModAdd(from, alg.chunk, alg.block);
    OneSlice(alg, ct, rp, slice, Some(toprf.(fromIndex := toprf.fromIndex - from)), plan);
    assert forall k :: 0 <= k < |plan.slices| ==> !Overlaps(slice, plan.slices[k]);
    assert forall k :: 0 <= k < |plan.slices| ==> !Overlaps(plan.slices[k], slice);
  }

  lemma AddToprfCounts(alg: Algorithm, ct: Bytes, rp: Bytes, toprf: BlockToprf, plan: Plan, p: int)
    requires |ct| == |rp| && AddToprf(alg, ct, rp, toprf, plan).Ok? && ProvedAsSliced(rp, plan, p)
    ensures ProvedAsSliced(rp, AddToprf(alg, ct, rp, toprf, plan).value, p)
  {
    var from := IdealOffset(alg, toprf.fromIndex, toprf.length).value;
    OffsetAligned(alg, toprf.fromIndex, toprf.length);
    AddProofsCounts(alg, ct, rp, from, Min(from + alg.chunk, |ct|),
                    Some(toprf.(fromIndex := toprf.fromIndex - from)), plan, p);
  }

  lemma {:induction false} AddToprfsPlaces(alg: Algorithm, ct: Bytes, rp: Bytes, toprfs: seq<BlockToprf>)
    requires AddToprfs(alg, ct, rp, toprfs).Ok?
    ensures ToprfsPlaced(alg, ct, rp, AddToprfs(alg, ct, rp, toprfs).value)
  {
    if toprfs != [] {
      var n := |toprfs| - 1;
      AddToprfsPlaces(alg, ct, rp, toprfs[..n]);
      AddToprfPlaces(alg, ct, rp, toprfs[n], AddToprfs(alg, ct, rp, toprfs[..n]).value);
    }
  }

  lemma {:induction false} AddToprfsCounts(alg: Algorithm, ct: Bytes, rp: Bytes, toprfs: seq<BlockToprf>, p: int)
    requires |ct| == |rp| && AddToprfs(alg, ct, rp, toprfs).Ok?
    ensures ProvedAsSliced(rp, AddToprfs(alg, ct, rp, toprfs).value, p)
  {
    if toprfs != [] {
      var n := |toprfs| - 1;
      AddToprfsCounts(alg, ct, rp, toprfs[..n], p);
      AddToprfCounts(alg, ct, rp, toprfs[n], AddToprfs(alg, ct, rp, toprfs[..n]).value, p);
    }
  }

  // ----- sorting -----

  predicate StartsRise(slices: seq<Slice>) {
    forall i, j :: 0 <= i < j < |slices| ==> slices[i].fromIndex <= slices[j].fromIndex
  }

  predicate StartsBy(slices: seq<Slice>, m: int) {
    forall k :: 0 <= k < |slices| ==> slices[k].fromIndex <= m
  }

  lemma {:induction false} InsertSliceStartsBy(slices: seq<Slice>, s: Slice, m: int)
    requires StartsBy(slices, m) && s.fromIndex <= m
    ensures StartsBy(InsertSlice(slices, s), m)
  {
    if slices != [] {
      InsertSliceStartsBy(slices[..|slices| - 1], s, m);
    }
  }

  lemma {:induction false} InsertSliceSorts(slices: seq<Slice>, s: Slice)
    requires StartsRise(slices)
    ensures StartsRise(InsertSlice(slices, s))
  {
    if slices != [] && s.fromIndex < slices[|slices| - 1].fromIndex {
      var n := |slices| - 1;
      InsertSliceSorts(slices[..n], s);
      InsertSliceStartsBy(slices[..n], s, slices[n].fromIndex);
    }
  }

  lemma {:induction false} InsertSliceKeeps(slices: seq<Slice>, s: Slice)
    ensures multiset(InsertSlice(slices, s)) == multiset(slices) + multiset{s}
  {
    if slices != [] {
      var n := |slices| - 1;
      assert slices == slices[..n] + [slices[n]];
      if s.fromIndex < slices[n].fromIndex {
        InsertSliceKeeps(slices[..n], s);
      }
    }
  }

  lemma {:induction false} InsertSliceCount(slices: seq<Slice>, s: Slice, p: int)
    ensures Count(InsertSlice(slices, s), p) == Count(slices, p) + One(Contains(s, p))
  {
    if slices == [] || slices[|slices| - 1].fromIndex <= s.fromIndex {
      CountSnoc(slices, s, p);
    } else {
      var n := |slices| - 1;
      InsertSliceCount(slices[..n], s, p);
      assert slices == slices[..n] + [slices[n]];
      CountSnoc(slices[..n], slices[n], p);
      CountSnoc(InsertSlice(slices[..n], s), slices[n], p);
    }
  }

  lemma {:induction false} SortSlicesSorts(slices: seq<Slice>)
    ensures StartsRise(SortSlices(slices))
    ensures multiset(SortSlices(slices)) == multiset(slices)
  {
    if slices != [] {
      var n := |slices| - 1;
      assert slices == slices[..n] + [slices[n]];
      SortSlicesSorts(slices[..n]);
      InsertSliceSorts(SortSlices(slices[..n]), slices[n]);
      InsertSliceKeeps(SortSlices(slices[..n]), slices[n]);
    }
  }

  lemma {:induction false} SortSlicesCount(slices: seq<Slice>, p: int)
    ensures Count(SortSlices(slices), p) == Count(slices, p)
  {
    if slices != [] {
      var n := |slices| - 1;
      SortSlicesCount(slices[..n], p);
      InsertSliceCount(SortSlices(slices[..n]), slices[n], p);
      assert slices == slices[..n] + [slices[n]];
      CountSnoc(slices[..n], slices[n], p);
    }
  }

  lemma {:induction false} InsertSliceApart(slices: seq<Slice>, s: Slice)
    requires KeepApart(slices) && forall k :: 0 <= k < |slices| ==> !Overlaps(slices[k], s)
    ensures KeepApart(InsertSlice(slices, s))
  {
    if slices != [] && s.fromIndex < slices[|slices| - 1].fromIndex {
      var n := |slices| - 1;
      InsertSliceApart(slices[..n], s);
      InsertSliceKeeps(slices[..n], s);
      var inserted := InsertSlice(slices[..n], s);
      forall i | 0 <= i < |inserted|
        ensures !Overlaps(inserted[i], slices[n])
      {
        assert inserted[i] in multiset(inserted);
        assert inserted[i] in multiset(slices[..n]) || inserted[i] == s;
      }
    }
  }

  lemma {:induction false} SortSlicesApart(slices: seq<Slice>)
    requires KeepApart(slices)
    ensures KeepApart(SortSlices(slices))
  {
    if slices != [] {
      var n := |slices| - 1;
      SortSlicesApart(slices[..n]);
      SortSlicesSorts(slices[..n]);
      var sorted := SortSlices(slices[..n]);
      forall i | 0 <= i < |sorted|
        ensures !Overlaps(sorted[i], slices[n])
      {
        assert sorted[i] in multiset(slices[..n]);
      }
      InsertSliceApart(sorted, slices[n]);
    }
  }

  /** Sorted slices that keep apart follow each other. */
  predicate Following(alg: Algorithm, length: nat, done: seq<Slice>) {
    && AllFit(alg, length, done)
    && EndsFit(alg, length, done)
    && forall i, j :: 0 <= i < j < |done| ==> done[i].toIndex <= done[j].fromIndex
  }

  lemma SortedFollow(alg: Algorithm, ct: Bytes, rp: Bytes, plan: Plan)
    requires ToprfsPlaced(alg, ct, rp, plan)
    ensures Following(alg, |ct|, SortSlices(plan.slices))
  {
    SortSlicesSorts(plan.slices);
    SortSlicesApart(plan.slices);
    var done := SortSlices(plan.slices);
    forall k | 0 <= k < |done|
      ensures Fit(alg, |ct|, done[k]) && (done[k].toIndex % alg.block == 0 || done[k].toIndex == |ct|)
    {
      assert done[k] in multiset(plan.slices);
    }
  }

  // ----- filling the gaps -----

  /** A position between two neighbours, or behind the last, is in no slice. */
  lemma {:induction false} GapCount(alg: Algorithm, length: nat, done: seq<Slice>, k: nat, n: nat, p: int)
    requires Following(alg, length, done) && n <= |done| && k <= |done|
    requires k < |done| ==> p < done[k].fromIndex
    requires k > 0 ==> done[k - 1].toIndex <= p
    ensures CountTo(done, n, p) == 0
  {
    if n > 0 {
      GapCount(alg, length, done, k, n - 1, p);
    }
  }

  /** A position in a slice is in no other. */
  lemma {:induction false} InsideCount(alg: Algorithm, length: nat, done: seq<Slice>, k: nat, n: nat, p: int)
    requires Following(alg, length, done) && n <= |done| && k < |done| && Contains(done[k], p)
    ensures CountTo(done, n, p) == One(k < n)
  {
    if n > 0 {
      InsideCount(alg, length, done, k, n - 1, p);
    }
  }

  function Filled(done: seq<Slice>, n: nat): nat
    requires n <= |done|
  {
    if n == 0 then 0 else done[n - 1].toIndex
  }

  lemma {:induction false} FillGapsCounts(alg: Algorithm, ct: Bytes, rp: Bytes, done: seq<Slice>, n: nat, plan: Plan, p: nat)
    requires |ct| == |rp| && Following(alg, |ct|, done) && n <= |done|
    requires Count(plan.slices, p) == Count(done, p) && ProvedAsSliced(rp, plan, p)
    ensures var filled := FillGaps(alg, ct, rp, done, n, plan);
            && Count(filled.slices, p) == (if p < Filled(done, n) then 1 else Count(done, p))
            && ProvedAsSliced(rp, filled, p)
  {
    if n > 0 {
      FillGapsCounts(alg, ct, rp, done, n - 1, plan, p);
      var before, start, end := FillGaps(alg, ct, rp, done, n - 1, plan), Filled(done, n - 1), done[n - 1].fromIndex;
      AddProofsCounts(alg, ct, rp, start, end, None, before, p);
      if start <= p < end {
        GapCount(alg, |ct|, done, n - 1, |done|, p);
      } else if end <= p < done[n - 1].toIndex {
        InsideCount(alg, |ct|, done, n - 1, |done|, p);
      }
    }
  }

  lemma FilledAligned(alg: Algorithm, length: nat, done: seq<Slice>, n: nat)
    requires Following(alg, length, done) && n <= |done| && Filled(done, n) < length
    ensures Filled(done, n) % alg.block == 0
  {
  }

  lemma {:induction false} FillGapsFit(alg: Algorithm, ct: Bytes, rp: Bytes, done: seq<Slice>, n: nat, plan: Plan)
    requires Following(alg, |ct|, done) && n <= |done| && AllFit(alg, |ct|, plan.slices)
    ensures AllFit(alg, |ct|, FillGaps(alg, ct, rp, done, n, plan).slices)
  {
    if n > 0 {
      FillGapsFit(alg, ct, rp, done, n - 1, plan);
      var before, start, end := FillGaps(alg, ct, rp, done, n - 1, plan), Filled(done, n - 1), done[n - 1].fromIndex;
      assert Fit(alg, |ct|, done[n - 1]);
      if start < end {
        FilledAligned(alg, |ct|, done, n - 1);
        AddProofsFit(alg, ct, rp, start, end, None, before);
      }
      assert FillGaps(alg, ct, rp, done, n, plan)
          == if start < end then AddProofs(alg, ct, rp, start, end, None, before) else before;
    }
  }

  lemma FillAllCounts(alg: Algorithm, ct: Bytes, rp: Bytes, plan: Plan, p: nat)
    requires |ct| == |rp| && ToprfsPlaced(alg, ct, rp, plan) && ProvedAsSliced(rp, plan, p)
    ensures var all := FillAll(alg, ct, rp, plan);
            Count(all.slices, p) == One(p < |ct|) && ProvedAsSliced(rp, all, p)
  {
    var done := SortSlices(plan.slices);
    SortedFollow(alg, ct, rp, plan);
    SortSlicesCount(plan.slices, p);
    FillGapsCounts(alg, ct, rp, done, |done|, plan, p);
    var filled := FillGaps(alg, ct, rp, done, |done|, plan);
    AddProofsCounts(alg, ct, rp, Filled(done, |done|), |ct|, None, filled, p);
    if p >= Filled(done, |done|) {
      GapCount(alg, |ct|, done, |done|, |done|, p);
    }
  }

  lemma FillAllFit(alg: Algorithm, ct: Bytes, rp: Bytes, plan: Plan)
    requires ToprfsPlaced(alg, ct, rp, plan)
    ensures AllFit(alg, |ct|, FillAll(alg, ct, rp, plan).slices)
  {
    var done := SortSlices(plan.slices);
    SortedFollow(alg, ct, rp, plan);
    FillGapsFit(alg, ct, rp, done, |done|, plan);
    if Filled(done, |done|) < |ct| {
      AddProofsFit(alg, ct, rp, Filled(done, |done|), |ct|, None, FillGaps(alg, ct, rp, done, |done|, plan));
    }
  }

  // ----- the proofs in the order of their starts -----

  lemma {:induction false} InsertProofCount(proofs: seq<ProofToGenerate>, q: ProofToGenerate, p: int)
    ensures ProofCount(InsertProof(proofs, q), p) == ProofCount(proofs, p) + One(Proves(q, p))
    ensures multiset(InsertProof(proofs, q)) == multiset(proofs) + multiset{q}
  {
    if proofs == [] || proofs[|proofs| - 1].startIdx <= q.startIdx {
      ProofCountSnoc(proofs, q, p);
    } else {
      var n := |proofs| - 1;
      InsertProofCount(proofs[..n], q, p);
      assert proofs == proofs[..n] + [proofs[n]];
      ProofCountSnoc(proofs[..n], proofs[n], p);
      ProofCountSnoc(InsertProof(proofs[..n], q), proofs[n], p);
    }
  }

  lemma {:induction false} SortProofsCount(proofs: seq<ProofToGenerate>, p: int)
    ensures ProofCount(SortProofs(proofs), p) == ProofCount(proofs, p)
    ensures multiset(SortProofs(proofs)) == multiset(proofs)
  {
    if proofs != [] {
      var n := |proofs| - 1;
      SortProofsCount(proofs[..n], p);
      InsertProofCount(SortProofs(proofs[..n]), proofs[n], p);
      assert proofs == proofs[..n] + [proofs[n]];
      ProofCountSnoc(proofs[..n], proofs[n], p);
    }
  }

  /**
   The slices of a plan are non-empty, at most one chunk, begin at a block's start, and
   every byte of the ciphertext lies in exactly one of them; every byte that is not
   redacted is in exactly one generated proof.
   */
  lemma PlanIsPartition(alg: Algorithm, ct: Bytes, rp: Bytes, toprfs: seq<BlockToprf>)
    requires |ct| == |rp| && PlanPacket(alg, ct, rp, toprfs).Ok?
    ensures var plan := PlanPacket(alg, ct, rp, toprfs).value;
            && AllFit(alg, |ct|, plan.slices)
            && (forall p: nat :: Count(plan.slices, p) == One(p < |ct|))
            && (forall p: nat :: p < |rp| && rp[p] != STAR ==> ProofCount(plan.proofs, p) == 1)
  {
    var placed := AddToprfs(alg, ct, rp, toprfs).value;
    AddToprfsPlaces(alg, ct, rp, toprfs);
    FillAllFit(alg, ct, rp, placed);
    var all := FillAll(alg, ct, rp, placed);
    forall p: nat
      ensures Count(all.slices, p) == One(p < |ct|)
      ensures p < |rp| && rp[p] != STAR ==> ProofCount(SortProofs(all.proofs), p) == 1
    {
      AddToprfsCounts(alg, ct, rp, toprfs, p);
      FillAllCounts(alg, ct, rp, placed, p);
      SortProofsCount(all.proofs, p);
    }
  }
}
