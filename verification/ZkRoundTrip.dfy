/**
 From plan to proofs and back: the proofs generated for a packet are all accepted, and
 in every order of completion they rebuild exactly the redacted plaintext.
 */
module ZkRoundTrip {
  import opened ByteData
  import opened Redaction
  import opened BlockReveal
  import opened ZkPlan
  import opened ZkPartition
  import opened ZkVerify

  /** `generateProofForChunk`: the circuit decrypts the redacted ciphertext. */
  function Prove(c: Cipher, q: ProofToGenerate): ZkProof {
    ZkProof(q.startIdx, q.redactedPlaintext, Crypt(c, q.redactedCiphertext, q.startIdx), q.toprf)
  }

  /** The hash is that of the plaintext at its place, and the redacted text shows it. */
  predicate HashTrue(o: Oracles, pt: Bytes, rp: Bytes, t: BlockToprf) {
    && t.fromIndex + t.length <= |pt| == |rp|
    && rp[t.fromIndex..t.fromIndex + t.length] == BinaryHashToStr(o, t.nullifier, t.length)
    && t.nullifier == o.oprf(pt[t.fromIndex..t.fromIndex + t.length])
  }

  predicate InHash(t: BlockToprf, p: int) {
    t.fromIndex <= p < t.fromIndex + t.length
  }

  predicate InSomeHash(toprfs: seq<BlockToprf>, p: int) {
    exists k :: 0 <= k < |toprfs| && InHash(toprfs[k], p)
  }

  /** A redacted plaintext: stars, true bytes, and hashes at their places. */
  predicate Redacts(o: Oracles, pt: Bytes, rp: Bytes, toprfs: seq<BlockToprf>) {
    && |rp| == |pt|
    && (forall k :: 0 <= k < |toprfs| ==> HashTrue(o, pt, rp, toprfs[k]))
    && (forall p :: 0 <= p < |rp| ==>
          rp[p] == STAR || rp[p] == pt[p] || InSomeHash(toprfs, p))
  }

  /** The slice planned for a hash. */
  function OwnSlice(alg: Algorithm, size: nat, t: BlockToprf): Option<Slice> {
    match IdealOffset(alg, t.fromIndex, t.length)
    case Err(_) => None
    case Ok(from) => Some(Slice(from, Min(from + alg.chunk, size)))
  }

  /** The planned slice holds the whole hash. */
  predicate FitsSlice(alg: Algorithm, size: nat, t: BlockToprf) {
    var own := OwnSlice(alg, size, t);
    own.Some? && own.value.fromIndex <= t.fromIndex && t.fromIndex + t.length <= own.value.toIndex
  }

  // ----- which proofs are planned -----

  predicate SliceIn(s: Slice, from: nat, until: nat) {
    from <= s.fromIndex < s.toIndex <= until
  }

  /** The proof is the one for a slice inside the stretch. */
  predicate FromStretch(ct: Bytes, rp: Bytes, from: nat, until: nat, q: ProofToGenerate, s: Slice) {
    SliceIn(s, from, until) && ProofFor(ct, rp, s, q.toprf) == Some(q)
  }

  lemma {:induction false} AddedProofs(alg: Algorithm, ct: Bytes, rp: Bytes, i: nat, until: nat,
                                       toprf: Option<BlockToprf>, plan: Plan, q: ProofToGenerate)
    returns (s: Slice)
    requires q in AddProofs(alg, ct, rp, i, until, toprf, plan).proofs && q !in plan.proofs
    ensures FromStretch(ct, rp, i, until, q, s) && q.toprf == toprf
    decreases until - i
  {
    var slice := Slice(i, Min(i + alg.chunk, until));
    var next := AddSlice(ct, rp, slice, toprf, plan);
    if q in next.proofs {
      s := slice;
    } else {
      s := AddedProofs(alg, ct, rp, i + alg.chunk, until, toprf, next, q);
    }
  }

  /** The hash as located from the start of its slice. */
  function Rebased(alg: Algorithm, t: BlockToprf): BlockToprf
    requires IdealOffset(alg, t.fromIndex, t.length).Ok?
  {
    OffsetAligned(alg, t.fromIndex, t.length);
    t.(fromIndex := t.fromIndex - IdealOffset(alg, t.fromIndex, t.length).value)
  }

  predicate FromHash(alg: Algorithm, ct: Bytes, rp: Bytes, t: BlockToprf, q: ProofToGenerate) {
    var own := OwnSlice(alg, |ct|, t);
    && own.Some? && own.value.fromIndex < own.value.toIndex
    && q.toprf == Some(Rebased(alg, t))
    && ProofFor(ct, rp, own.value, q.toprf) == Some(q)
  }

  lemma AddedForHash(alg: Algorithm, ct: Bytes, rp: Bytes, t: BlockToprf, plan: Plan)
    requires AddToprf(alg, ct, rp, t, plan).Ok?
    ensures var next, own := AddToprf(alg, ct, rp, t, plan).value, OwnSlice(alg, |ct|, t).value;
            && (own.fromIndex < own.toIndex ==> own in next.slices)
            && (forall s <- plan.slices :: s in next.slices && !Overlaps(own, s))
            && (forall q <- next.proofs :: q in plan.proofs || FromHash(alg, ct, rp, t, q))
  {
    var own := OwnSlice(alg, |ct|, t).value;
    OneSlice(alg, ct, rp, own, Some(Rebased(alg, t)), plan);
    forall s <- plan.slices
      ensures !Overlaps(own, s)
    {
      var k :| 0 <= k < |plan.slices| && plan.slices[k] == s;
    }
  }

  /** Every hash's slice is placed, and every proof so far is for one of the hashes. */
  lemma {:induction false} HashProofs(alg: Algorithm, ct: Bytes, rp: Bytes, toprfs: seq<BlockToprf>, k: nat)
    requires AddToprfs(alg, ct, rp, toprfs).Ok? && k < |toprfs|
    ensures OwnSlice(alg, |ct|, toprfs[k]).Some?
    ensures var own := OwnSlice(alg, |ct|, toprfs[k]).value;
            own.fromIndex < own.toIndex ==> own in AddToprfs(alg, ct, rp, toprfs).value.slices
  {
    var n := |toprfs| - 1;
    AddedForHash(alg, ct, rp, toprfs[n], AddToprfs(alg, ct, rp, toprfs[..n]).value);
    if k < n {
      HashProofs(alg, ct, rp, toprfs[..n], k);
    }
  }

  lemma {:induction false} HashProofFrom(alg: Algorithm, ct: Bytes, rp: Bytes, toprfs: seq<BlockToprf>, q: ProofToGenerate)
    returns (k: nat)
    requires AddToprfs(alg, ct, rp, toprfs).Ok? && q in AddToprfs(alg, ct, rp, toprfs).value.proofs
    ensures k < |toprfs| && FromHash(alg, ct, rp, toprfs[k], q)
  {
    var n := |toprfs| - 1;
    AddedForHash(alg, ct, rp, toprfs[n], AddToprfs(alg, ct, rp, toprfs[..n]).value);
    if q in AddToprfs(alg, ct, rp, toprfs[..n]).value.proofs {
      k := HashProofFrom(alg, ct, rp, toprfs[..n], q);
    } else {
      k := n;
    }
  }

  /** The slices of two hashes do not overlap. */
  lemma {:induction false} OwnSlicesApart(alg: Algorithm, ct: Bytes, rp: Bytes, toprfs: seq<BlockToprf>, j: nat, k: nat, p: int)
    requires AddToprfs(alg, ct, rp, toprfs).Ok? && j < k < |toprfs|
    requires OwnSlice(alg, |ct|, toprfs[j]).Some? && OwnSlice(alg, |ct|, toprfs[k]).Some?
    ensures !(Contains(OwnSlice(alg, |ct|, toprfs[j]).value, p) && Contains(OwnSlice(alg, |ct|, toprfs[k]).value, p))
  {
    var n := |toprfs| - 1;
    if k < n {
      OwnSlicesApart(alg, ct, rp, toprfs[..n], j, k, p);
    } else {
      HashProofs(alg, ct, rp, toprfs[..n], j);
      assert toprfs[..n][j] == toprfs[j];
      AddedForHash(alg, ct, rp, toprfs[n], AddToprfs(alg, ct, rp, toprfs[..n]).value);
    }
  }

  // ----- the gaps -----

  lemma {:induction false} CountMember(slices: seq<Slice>, n: nat, s: Slice, p: int)
    requires n <= |slices| && s in slices[..n] && Contains(s, p)
    ensures CountTo(slices, n, p) > 0
  {
    if s != slices[n - 1] {
      assert s in slices[..n - 1];
      CountMember(slices, n - 1, s, p);
    }
  }

  /** The stretch holds no position of a slice already placed. */
  predicate FreeStretch(slices: seq<Slice>, from: nat, until: nat) {
    forall p :: from <= p < until ==> Count(slices, p) == 0
  }

  predicate FromGap(ct: Bytes, rp: Bytes, slices: seq<Slice>, q: ProofToGenerate, s: Slice) {
    s.fromIndex < s.toIndex <= |ct| && q.toprf == None && ProofFor(ct, rp, s, None) == Some(q)
    && FreeStretch(slices, s.fromIndex, s.toIndex)
  }

  lemma GapFree(alg: Algorithm, ct: Bytes, rp: Bytes, plan: Plan, n: nat)
    requires ToprfsPlaced(alg, ct, rp, plan) && n <= |SortSlices(plan.slices)|
    ensures var done := SortSlices(plan.slices);
            FreeStretch(plan.slices, Filled(done, n), if n < |done| then done[n].fromIndex else |ct|)
  {
    var done := SortSlices(plan.slices);
    SortedFollow(alg, ct, rp, plan);
    forall p | Filled(done, n) <= p < (if n < |done| then done[n].fromIndex else |ct|)
      ensures Count(plan.slices, p) == 0
    {
      SortSlicesCount(plan.slices, p);
      GapCount(alg, |ct|, done, n, |done|, p);
    }
  }

  lemma {:induction false} GapProofs(alg: Algorithm, ct: Bytes, rp: Bytes, n: nat, plan: Plan, q: ProofToGenerate)
    returns (s: Slice)
    requires ToprfsPlaced(alg, ct, rp, plan) && n <= |SortSlices(plan.slices)|
    requires q in FillGaps(alg, ct, rp, SortSlices(plan.slices), n, plan).proofs && q !in plan.proofs
    ensures FromGap(ct, rp, plan.slices, q, s)
    decreases n
  {
    var done := SortSlices(plan.slices);
    var before := FillGaps(alg, ct, rp, done, n - 1, plan);
    if q in before.proofs {
      s := GapProofs(alg, ct, rp, n - 1, plan, q);
    } else {
      s := GapProof(alg, ct, rp, n - 1, plan, done, before, q);
    }
  }

  /** A proof that the gap in front of slice `n` adds. */
  lemma GapProof(alg: Algorithm, ct: Bytes, rp: Bytes, n: nat, plan: Plan, done: seq<Slice>, before: Plan, q: ProofToGenerate)
    returns (s: Slice)
    requires ToprfsPlaced(alg, ct, rp, plan) && done == SortSlices(plan.slices) && n < |done|
    requires before == FillGaps(alg, ct, rp, done, n, plan)
    requires q in FillGaps(alg, ct, rp, done, n + 1, plan).proofs && q !in before.proofs
    ensures FromGap(ct, rp, plan.slices, q, s)
  {
    SortedFollow(alg, ct, rp, plan);
    assert Fit(alg, |ct|, done[n]);
    s := AddedProofs(alg, ct, rp, Filled(done, n), done[n].fromIndex, None, before, q);
    GapFree(alg, ct, rp, plan, n);
  }

  lemma FilledProofs(alg: Algorithm, ct: Bytes, rp: Bytes, plan: Plan, q: ProofToGenerate) returns (s: Slice)
    requires ToprfsPlaced(alg, ct, rp, plan)
    requires q in FillAll(alg, ct, rp, plan).proofs && q !in plan.proofs
    ensures FromGap(ct, rp, plan.slices, q, s)
  {
    var done := SortSlices(plan.slices);
    var filled := FillGaps(alg, ct, rp, done, |done|, plan);
    if q in filled.proofs {
      s := GapProofs(alg, ct, rp, |done|, plan, q);
    } else {
      s := AddedProofs(alg, ct, rp, Filled(done, |done|), |ct|, None, filled, q);
      GapFree(alg, ct, rp, plan, |done|);
    }
  }

  // ----- honest proofs -----

  /** The proof for a slice whose bytes are stars or true, except for its own hash. */
  predicate Honest(o: Oracles, pt: Bytes, rp: Bytes, ct: Bytes, q: ProofToGenerate, s: Slice) {
    && s.fromIndex < s.toIndex <= |ct| == |rp| == |pt|
    && ProofFor(ct, rp, s, q.toprf) == Some(q)
    && (forall p :: s.fromIndex <= p < s.toIndex ==>
          rp[p] == STAR || rp[p] == pt[p] || InLocation(q.toprf, p - s.fromIndex))
    && (q.toprf.Some? ==>
          var t := q.toprf.value;
          && t.fromIndex + t.length <= s.toIndex - s.fromIndex
          && HashTrue(o, pt, rp, t.(fromIndex := t.fromIndex + s.fromIndex)))
  }

  lemma NoHashIn(o: Oracles, alg: Algorithm, pt: Bytes, rp: Bytes, ct: Bytes, toprfs: seq<BlockToprf>, plan: Plan, p: int)
    requires |ct| == |rp| && Redacts(o, pt, rp, toprfs)
    requires AddToprfs(alg, ct, rp, toprfs) == Ok(plan)
    requires forall k :: 0 <= k < |toprfs| ==> FitsSlice(alg, |ct|, toprfs[k])
    requires 0 <= p < |rp| && Count(plan.slices, p) == 0
    ensures rp[p] == STAR || rp[p] == pt[p]
  {
    if InSomeHash(toprfs, p) {
      var k :| 0 <= k < |toprfs| && InHash(toprfs[k], p);
      HashProofs(alg, ct, rp, toprfs, k);
      var own := OwnSlice(alg, |ct|, toprfs[k]).value;
      assert plan.slices[..|plan.slices|] == plan.slices;
      CountMember(plan.slices, |plan.slices|, own, p);
    }
  }

  lemma GapHonest(o: Oracles, alg: Algorithm, pt: Bytes, rp: Bytes, ct: Bytes, toprfs: seq<BlockToprf>, plan: Plan,
                  q: ProofToGenerate, s: Slice)
    requires |ct| == |rp| && Redacts(o, pt, rp, toprfs)
    requires AddToprfs(alg, ct, rp, toprfs) == Ok(plan)
    requires forall k :: 0 <= k < |toprfs| ==> FitsSlice(alg, |ct|, toprfs[k])
    requires FromGap(ct, rp, plan.slices, q, s)
    ensures Honest(o, pt, rp, ct, q, s)
  {
    forall p | s.fromIndex <= p < s.toIndex
      ensures rp[p] == STAR || rp[p] == pt[p]
    {
      NoHashIn(o, alg, pt, rp, ct, toprfs, plan, p);
    }
  }

  /** A hash that holds a position of the slice of hash `k` is hash `k`. */
  lemma OnlyOwnHash(alg: Algorithm, ct: Bytes, rp: Bytes, toprfs: seq<BlockToprf>, k: nat, s: Slice, p: int)
    requires AddToprfs(alg, ct, rp, toprfs).Ok? && InSomeHash(toprfs, p)
    requires forall j :: 0 <= j < |toprfs| ==> FitsSlice(alg, |ct|, toprfs[j])
    requires k < |toprfs| && OwnSlice(alg, |ct|, toprfs[k]) == Some(s) && Contains(s, p)
    ensures InHash(toprfs[k], p)
  {
    var j :| 0 <= j < |toprfs| && InHash(toprfs[j], p);
    if j != k {
      OtherHash(alg, ct, rp, toprfs, j, k, p);
    }
  }

  lemma HashHonest(o: Oracles, alg: Algorithm, pt: Bytes, rp: Bytes, ct: Bytes, toprfs: seq<BlockToprf>,
                   k: nat, q: ProofToGenerate, s: Slice)
    requires |ct| == |rp| && Redacts(o, pt, rp, toprfs) && AddToprfs(alg, ct, rp, toprfs).Ok?
    requires forall j :: 0 <= j < |toprfs| ==> FitsSlice(alg, |ct|, toprfs[j])
    requires k < |toprfs| && FromHash(alg, ct, rp, toprfs[k], q) && OwnSlice(alg, |ct|, toprfs[k]) == Some(s)
    ensures Honest(o, pt, rp, ct, q, s)
  {
    var t := toprfs[k];
    assert FitsSlice(alg, |ct|, t) && HashTrue(o, pt, rp, t);
    var rebased := q.toprf.value;
    assert rebased.(fromIndex := rebased.fromIndex + s.fromIndex) == t;
    forall p | s.fromIndex <= p < s.toIndex
      ensures rp[p] == STAR || rp[p] == pt[p] || InLocation(q.toprf, p - s.fromIndex)
    {
      if rp[p] != STAR && rp[p] != pt[p] {
        OnlyOwnHash(alg, ct, rp, toprfs, k, s, p);
      }
    }
  }

  lemma OtherHash(alg: Algorithm, ct: Bytes, rp: Bytes, toprfs: seq<BlockToprf>, j: nat, k: nat, p: int)
    requires AddToprfs(alg, ct, rp, toprfs).Ok? && j < |toprfs| && k < |toprfs| && j != k
    requires FitsSlice(alg, |ct|, toprfs[j]) && FitsSlice(alg, |ct|, toprfs[k]) && InHash(toprfs[j], p)
    ensures !Contains(OwnSlice(alg, |ct|, toprfs[k]).value, p)
  {
    if j < k {
      OwnSlicesApart(alg, ct, rp, toprfs, j, k, p);
    } else {
      OwnSlicesApart(alg, ct, rp, toprfs, k, j, p);
    }
  }

  /** Every planned proof is honest. */
  lemma PlannedHonest(o: Oracles, alg: Algorithm, pt: Bytes, rp: Bytes, ct: Bytes, toprfs: seq<BlockToprf>,
                      q: ProofToGenerate) returns (s: Slice)
    requires |ct| == |rp| && Redacts(o, pt, rp, toprfs) && PlanPacket(alg, ct, rp, toprfs).Ok?
    requires forall k :: 0 <= k < |toprfs| ==> FitsSlice(alg, |ct|, toprfs[k])
    requires q in PlanPacket(alg, ct, rp, toprfs).value.proofs
    ensures Honest(o, pt, rp, ct, q, s)
  {
    var plan := AddToprfs(alg, ct, rp, toprfs).value;
    var all := FillAll(alg, ct, rp, plan);
    SortProofsCount(all.proofs, 0);
    assert q in multiset(SortProofs(all.proofs));
    assert q in all.proofs;
    AddToprfsPlaces(alg, ct, rp, toprfs);
    if q in plan.proofs {
      var k := HashProofFrom(alg, ct, rp, toprfs, q);
      s := OwnSlice(alg, |ct|, toprfs[k]).value;
      HashHonest(o, alg, pt, rp, ct, toprfs, k, q, s);
    } else {
      s := FilledProofs(alg, ct, rp, plan, q);
      GapHonest(o, alg, pt, rp, ct, toprfs, plan, q, s);
    }
  }

  // ----- honest proofs are accepted -----

  lemma HonestTexts(o: Oracles, c: Cipher, pt: Bytes, rp: Bytes, ct: Bytes, q: ProofToGenerate, s: Slice)
    requires Honest(o, pt, rp, ct, q, s)
    ensures q.startIdx == s.fromIndex && q.redactedPlaintext == rp[s.fromIndex..s.toIndex]
    ensures q.redactedCiphertext == RedactCiphertext(ct[s.fromIndex..s.toIndex], q.redactedPlaintext)
    ensures Chunk(ct, Prove(c, q)) == q.redactedCiphertext
  {
  }

  lemma HonestAccepted(o: Oracles, c: Cipher, pt: Bytes, rp: Bytes, ct: Bytes, q: ProofToGenerate, s: Slice)
    requires StarFree(o) && Honest(o, pt, rp, ct, q, s) && ct == Crypt(c, pt, 0)
    ensures Accepted(o, c, ct, Prove(c, q))
  {
    var proof := Prove(c, q);
    var chunk := Chunk(ct, proof);
    assert q.redactedPlaintext == rp[s.fromIndex..s.toIndex];
    assert chunk == q.redactedCiphertext;
    HonestCongruent(o, c, pt, rp, ct, q, s);
    HonestIdeal(o, c, pt, rp, ct, q, s);
    if q.toprf.Some? {
      HonestHash(o, c, pt, rp, ct, q, s);
    }
  }

  lemma HonestCongruent(o: Oracles, c: Cipher, pt: Bytes, rp: Bytes, ct: Bytes, q: ProofToGenerate, s: Slice)
    requires Honest(o, pt, rp, ct, q, s) && ct == Crypt(c, pt, 0)
    ensures Congruent(ComparePlaintext(Prove(c, q)), Prove(c, q).decryptedRedactedCiphertext)
  {
    CryptTwice(c, pt, 0);
    var compare, decrypted := ComparePlaintext(Prove(c, q)), Prove(c, q).decryptedRedactedCiphertext;
    forall i | 0 <= i < |compare|
      ensures compare[i] == STAR || (i < |decrypted| && compare[i] == decrypted[i])
    {
      var p := s.fromIndex + i;
      assert Crypt(c, ct, 0)[p] == pt[p];
    }
  }

  /** The text of the hash, as the proof shows it. */
  lemma HashText(o: Oracles, pt: Bytes, rp: Bytes, ct: Bytes, q: ProofToGenerate, s: Slice)
    requires Honest(o, pt, rp, ct, q, s) && q.toprf.Some?
    ensures var t := q.toprf.value;
            && t.fromIndex + t.length <= |q.redactedPlaintext|
            && q.redactedPlaintext[t.fromIndex..t.fromIndex + t.length] == BinaryHashToStr(o, t.nullifier, t.length)
            && Take(q.redactedPlaintext, t.fromIndex, t.fromIndex + t.length)
               == q.redactedPlaintext[t.fromIndex..t.fromIndex + t.length]
  {
    var t := q.toprf.value;
    assert q.redactedPlaintext == rp[s.fromIndex..s.toIndex];
    SliceOfSlice(rp, s.fromIndex, s.toIndex, t.fromIndex, t.fromIndex + t.length);
  }

  lemma HonestHash(o: Oracles, c: Cipher, pt: Bytes, rp: Bytes, ct: Bytes, q: ProofToGenerate, s: Slice)
    requires Honest(o, pt, rp, ct, q, s) && q.toprf.Some?
    ensures HashShown(o, Prove(c, q))
  {
    HashText(o, pt, rp, ct, q, s);
  }

  /** The hash the circuit computes is that of the plaintext at its place. */
  lemma HonestNullifier(o: Oracles, c: Cipher, pt: Bytes, rp: Bytes, ct: Bytes, q: ProofToGenerate, s: Slice)
    requires StarFree(o) && Honest(o, pt, rp, ct, q, s) && ct == Crypt(c, pt, 0) && q.toprf.Some?
    ensures var t := q.toprf.value;
            && t.fromIndex + t.length <= |q.redactedCiphertext|
            && t.nullifier == o.oprf(Crypt(c, q.redactedCiphertext, q.startIdx)[t.fromIndex..t.fromIndex + t.length])
  {
    HonestTexts(o, c, pt, rp, ct, q, s);
    var t := q.toprf.value;
    HashText(o, pt, rp, ct, q, s);
    LocationPlain(o, c, ct, Prove(c, q), BinaryHashToStr(o, t.nullifier, t.length));
    CryptTwice(c, pt, 0);
  }

  lemma HonestIdeal(o: Oracles, c: Cipher, pt: Bytes, rp: Bytes, ct: Bytes, q: ProofToGenerate, s: Slice)
    requires StarFree(o) && Honest(o, pt, rp, ct, q, s) && ct == Crypt(c, pt, 0)
    ensures var proof := Prove(c, q);
            IdealProof(o, c, Chunk(ct, proof), proof.startIdx, proof.decryptedRedactedCiphertext, proof.toprf)
  {
    HonestTexts(o, c, pt, rp, ct, q, s);
    if q.toprf.Some? {
      HonestNullifier(o, c, pt, rp, ct, q, s);
    }
  }

  // ----- rebuilding -----

  function Proofs(c: Cipher, qs: seq<ProofToGenerate>): (proofs: seq<ZkProof>)
    ensures |proofs| == |qs| && forall k :: 0 <= k < |qs| ==> proofs[k] == Prove(c, qs[k])
  {
    seq(|qs|, k requires 0 <= k < |qs| => Prove(c, qs[k]))
  }

  /** The proof is accepted and shows nothing but the redacted plaintext at its place. */
  predicate Shows(o: Oracles, c: Cipher, ct: Bytes, rp: Bytes, proof: ZkProof) {
    && Accepted(o, c, ct, proof)
    && proof.startIdx + |proof.redactedPlaintext| <= |rp|
    && proof.redactedPlaintext == rp[proof.startIdx..proof.startIdx + |proof.redactedPlaintext|]
  }

  predicate Written(proofs: seq<ZkProof>, n: nat, p: int)
    requires n <= |proofs|
  {
    exists k :: 0 <= k < n && Writes(proofs[k], p)
  }

  lemma SetShows(o: Oracles, c: Cipher, ct: Bytes, rp: Bytes, proof: ZkProof, text: Bytes)
    requires |text| == |ct| == |rp| && Shows(o, c, ct, rp, proof)
    ensures forall p :: 0 <= p < |rp| ==> Set(text, proof)[p] == if Writes(proof, p) then rp[p] else text[p]
  {
  }

  /** Where a proof has written, the text shows the redacted plaintext, and stars elsewhere. */
  predicate ShownSoFar(rp: Bytes, proofs: seq<ZkProof>, n: nat, text: Bytes)
    requires n <= |proofs|
  {
    |text| == |rp| && forall p :: 0 <= p < |rp| ==> text[p] == if Written(proofs, n, p) then rp[p] else STAR
  }

  lemma WrittenNext(proofs: seq<ZkProof>, n: nat, p: int)
    requires n < |proofs|
    ensures Written(proofs, n + 1, p) <==> Written(proofs, n, p) || Writes(proofs[n], p)
  {
  }

  lemma ShowsNext(o: Oracles, c: Cipher, ct: Bytes, rp: Bytes, proofs: seq<ZkProof>, n: nat, text: Bytes)
    requires n < |proofs| && |ct| == |rp| && ShownSoFar(rp, proofs, n, text) && Shows(o, c, ct, rp, proofs[n])
    ensures ShownSoFar(rp, proofs, n + 1, Set(text, proofs[n]))
  {
    SetShows(o, c, ct, rp, proofs[n], text);
    forall p | 0 <= p < |rp|
      ensures Set(text, proofs[n])[p] == if Written(proofs, n + 1, p) then rp[p] else STAR
    {
      WrittenNext(proofs, n, p);
    }
  }

  lemma RebuildShows(o: Oracles, c: Cipher, ct: Bytes, rp: Bytes, proofs: seq<ZkProof>, n: nat)
    requires n <= |proofs| && |ct| == |rp|
    requires forall k :: 0 <= k < |proofs| ==> Shows(o, c, ct, rp, proofs[k])
    ensures var text := RebuildTo(o, c, ct, proofs, n);
            text.Some? && ShownSoFar(rp, proofs, n, text.value)
  {
    var text := Fill(STAR, |ct|);
    for k := 0 to n
      invariant RebuildTo(o, c, ct, proofs, k) == Some(text) && |text| == |ct|
      invariant ShownSoFar(rp, proofs, k, text)
    {
      assert Shows(o, c, ct, rp, proofs[k]);
      RebuildNext(o, c, ct, proofs, k, text);
      ShowsNext(o, c, ct, rp, proofs, k, text);
      text := Set(text, proofs[k]);
    }
  }

  lemma PlannedShows(o: Oracles, c: Cipher, alg: Algorithm, pt: Bytes, rp: Bytes, ct: Bytes,
                     toprfs: seq<BlockToprf>, q: ProofToGenerate)
    requires StarFree(o) && ct == Crypt(c, pt, 0) && Redacts(o, pt, rp, toprfs)
    requires PlanPacket(alg, ct, rp, toprfs).Ok?
    requires forall k :: 0 <= k < |toprfs| ==> FitsSlice(alg, |ct|, toprfs[k])
    requires q in PlanPacket(alg, ct, rp, toprfs).value.proofs
    ensures Shows(o, c, ct, rp, Prove(c, q))
  {
    var s := PlannedHonest(o, alg, pt, rp, ct, toprfs, q);
    HonestAccepted(o, c, pt, rp, ct, q, s);
    HonestTexts(o, c, pt, rp, ct, q, s);
  }

  lemma {:induction false} SomeProof(qs: seq<ProofToGenerate>, n: nat, p: int) returns (k: nat)
    requires n <= |qs| && ProofCountTo(qs, n, p) > 0
    ensures k < n && Proves(qs[k], p)
  {
    if Proves(qs[n - 1], p) {
      k := n - 1;
    } else {
      k := SomeProof(qs, n - 1, p);
    }
  }

  lemma SameProof(xs: seq<ZkProof>, ys: seq<ZkProof>, j: nat) returns (k: nat)
    requires multiset(xs) == multiset(ys) && j < |xs|
    ensures k < |ys| && ys[k] == xs[j]
  {
    assert xs[j] in multiset(ys);
    k :| 0 <= k < |ys| && ys[k] == xs[j];
  }

  lemma OrderWrites(c: Cipher, qs: seq<ProofToGenerate>, order: seq<ZkProof>, p: int)
    requires multiset(order) == multiset(Proofs(c, qs)) && ProofCount(qs, p) > 0
    ensures Written(order, |order|, p)
  {
    var j := SomeProof(qs, |qs|, p);
    var k := SameProof(Proofs(c, qs), order, j);
    assert Writes(order[k], p);
  }

  /** Accepted proofs that show the text, and together all of it that is no star, rebuild it. */
  lemma RebuildsText(o: Oracles, c: Cipher, ct: Bytes, rp: Bytes, order: seq<ZkProof>)
    requires |ct| == |rp| && forall k :: 0 <= k < |order| ==> Shows(o, c, ct, rp, order[k])
    requires forall p :: 0 <= p < |rp| && rp[p] != STAR ==> Written(order, |order|, p)
    ensures Rebuild(o, c, ct, order) == Some(rp)
  {
    RebuildShows(o, c, ct, rp, order, |order|);
    assert Rebuild(o, c, ct, order).value == rp;
  }

  /**
   The proofs generated for a packet are all accepted, and whatever the order in which
   they arrive they rebuild exactly the redacted plaintext they were generated for.
   */
  lemma ProverVerifierRoundTrip(o: Oracles, c: Cipher, alg: Algorithm, pt: Bytes, rp: Bytes, ct: Bytes,
                                toprfs: seq<BlockToprf>, order: seq<ZkProof>)
    requires StarFree(o) && ct == Crypt(c, pt, 0) && Redacts(o, pt, rp, toprfs)
    requires PlanPacket(alg, ct, rp, toprfs).Ok?
    requires forall k :: 0 <= k < |toprfs| ==> FitsSlice(alg, |ct|, toprfs[k])
    requires multiset(order) == multiset(Proofs(c, PlanPacket(alg, ct, rp, toprfs).value.proofs))
    ensures Rebuild(o, c, ct, order) == Some(rp)
  {
    var qs := PlanPacket(alg, ct, rp, toprfs).value.proofs;
    forall k | 0 <= k < |order|
      ensures Shows(o, c, ct, rp, order[k])
    {
      var j := SameProof(order, Proofs(c, qs), k);
      PlannedShows(o, c, alg, pt, rp, ct, toprfs, qs[j]);
    }
    PlanIsPartition(alg, ct, rp, toprfs);
    forall p: nat | p < |rp| && rp[p] != STAR
      ensures Written(order, |order|, p)
    {
      OrderWrites(c, qs, order, p);
    }
    RebuildsText(o, c, ct, rp, order);
  }

  /** Among accepted hashes, the ones that fit their slices are exactly these. */
  lemma FitsSliceExactlyWhen(alg: Algorithm, ct: Bytes, rp: Bytes, toprfs: seq<BlockToprf>, k: nat)
    requires AddToprfs(alg, ct, rp, toprfs).Ok? && k < |toprfs|
    ensures var t := toprfs[k];
            FitsSlice(alg, |ct|, t) <==>
              t.fromIndex / alg.chunk == (t.fromIndex + t.length) / alg.chunk
              || t.fromIndex % alg.block + t.length <= alg.chunk
  {
    HashInBounds(alg, ct, rp, toprfs, k);
    var t := toprfs[k];
    OffsetAligned(alg, t.fromIndex, t.length);
    FitsExactlyWhen(alg, t.fromIndex, t.length);
  }

  lemma {:induction false} HashInBounds(alg: Algorithm, ct: Bytes, rp: Bytes, toprfs: seq<BlockToprf>, k: nat)
    requires AddToprfs(alg, ct, rp, toprfs).Ok? && k < |toprfs|
    ensures toprfs[k].fromIndex + toprfs[k].length <= |ct|
    ensures IdealOffset(alg, toprfs[k].fromIndex, toprfs[k].length).Ok?
  {
    var n := |toprfs| - 1;
    if k < n {
      HashInBounds(alg, ct, rp, toprfs[..n], k);
    }
  }
}
