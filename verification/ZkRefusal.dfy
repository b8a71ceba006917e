/**
 What the verifier does with hashes that are not as they should be: the proofs planned for
 a packet are accepted only if every hash shown fits its slice and is that of the
 plaintext at its place.
 */
module ZkRefusal {
  import opened ByteData
  import opened Redaction
  import opened BlockReveal
  import opened ZkPlan
  import opened ZkPartition
  import opened ZkVerify
  import opened ZkRoundTrip

  /** The offset for an accepted hash is at or in front of it, by less than a chunk. */
  lemma OffsetNear(alg: Algorithm, from: nat, length: nat)
    requires IdealOffset(alg, from, length).Ok?
    ensures IdealOffset(alg, from, length).value <= from < IdealOffset(alg, from, length).value + alg.chunk
  {
    DivBounds(from, alg.chunk);
    DivBounds(from, alg.block);
    BlockInChunk(alg.chunk, alg.block);
    var offset := IdealOffset(alg, from, length).value;
    assert offset == from / alg.chunk * alg.chunk || offset == from / alg.block * alg.block;
  }

  lemma BlockInChunk(chunk: nat, block: nat)
    requires block > 0 && chunk > 0 && chunk % block == 0
    ensures block <= chunk
  {
  }

  lemma OwnHoldsStart(alg: Algorithm, size: nat, t: BlockToprf)
    requires IdealOffset(alg, t.fromIndex, t.length).Ok? && t.fromIndex < size
    ensures OwnSlice(alg, size, t).Some? && Contains(OwnSlice(alg, size, t).value, t.fromIndex)
  {
    OffsetNear(alg, t.fromIndex, t.length);
  }

  /** A shown byte in the slice of a hash is shown by the proof for that hash. */
  lemma ProofOfHash(alg: Algorithm, ct: Bytes, rp: Bytes, toprfs: seq<BlockToprf>, k: nat, p: nat)
    returns (q: ProofToGenerate)
    requires |ct| == |rp| && PlanPacket(alg, ct, rp, toprfs).Ok? && k < |toprfs|
    requires OwnSlice(alg, |ct|, toprfs[k]).Some? && Contains(OwnSlice(alg, |ct|, toprfs[k]).value, p)
    requires p < |rp| && rp[p] != STAR
    ensures q in PlanPacket(alg, ct, rp, toprfs).value.proofs && FromHash(alg, ct, rp, toprfs[k], q)
  {
    var qs := PlanPacket(alg, ct, rp, toprfs).value.proofs;
    PlanIsPartition(alg, ct, rp, toprfs);
    var j := SomeProof(qs, |qs|, p);
    q := qs[j];
    var plan := AddToprfs(alg, ct, rp, toprfs).value;
    InFilled(alg, ct, rp, plan, q);
    if q in plan.proofs {
      var i := HashProofFrom(alg, ct, rp, toprfs, q);
      SameHash(alg, ct, rp, toprfs, i, k, q, p);
    } else {
      AddToprfsPlaces(alg, ct, rp, toprfs);
      var s := FilledProofs(alg, ct, rp, plan, q);
      NotInGap(alg, ct, rp, toprfs, k, s, p);
      assert false;
    }
  }

  lemma InFilled(alg: Algorithm, ct: Bytes, rp: Bytes, plan: Plan, q: ProofToGenerate)
    requires q in SortProofs(FillAll(alg, ct, rp, plan).proofs)
    ensures q in FillAll(alg, ct, rp, plan).proofs
  {
    var proofs := FillAll(alg, ct, rp, plan).proofs;
    SortProofsCount(proofs, 0);
    assert q in multiset(SortProofs(proofs));
  }

  lemma SameHash(alg: Algorithm, ct: Bytes, rp: Bytes, toprfs: seq<BlockToprf>, i: nat, k: nat, q: ProofToGenerate, p: nat)
    requires |ct| == |rp| && AddToprfs(alg, ct, rp, toprfs).Ok? && i < |toprfs| && k < |toprfs|
    requires FromHash(alg, ct, rp, toprfs[i], q) && q.startIdx <= p < q.startIdx + |q.redactedPlaintext|
    requires OwnSlice(alg, |ct|, toprfs[k]).Some? && Contains(OwnSlice(alg, |ct|, toprfs[k]).value, p)
    ensures i == k
  {
    if i < k {
      OwnSlicesApart(alg, ct, rp, toprfs, i, k, p);
    } else if k < i {
      OwnSlicesApart(alg, ct, rp, toprfs, k, i, p);
    }
  }

  lemma NotInGap(alg: Algorithm, ct: Bytes, rp: Bytes, toprfs: seq<BlockToprf>, k: nat, s: Slice, p: nat)
    requires AddToprfs(alg, ct, rp, toprfs).Ok? && k < |toprfs|
    requires OwnSlice(alg, |ct|, toprfs[k]).Some? && Contains(OwnSlice(alg, |ct|, toprfs[k]).value, p)
    requires FreeStretch(AddToprfs(alg, ct, rp, toprfs).value.slices, s.fromIndex, s.toIndex)
    ensures !(s.fromIndex <= p < s.toIndex)
  {
    var slices := AddToprfs(alg, ct, rp, toprfs).value.slices;
    HashProofs(alg, ct, rp, toprfs, k);
    PlacedCounts(slices, OwnSlice(alg, |ct|, toprfs[k]).value, p);
  }

  lemma PlacedCounts(slices: seq<Slice>, own: Slice, p: nat)
    requires own in slices && Contains(own, p)
    ensures Count(slices, p) > 0
  {
    assert slices[..|slices|] == slices;
    CountMember(slices, |slices|, own, p);
  }

  /** An accepted proof for a hash shows that it fits, and that it is true. */
  lemma AcceptedHash(o: Oracles, c: Cipher, alg: Algorithm, pt: Bytes, rp: Bytes, ct: Bytes, t: BlockToprf, q: ProofToGenerate)
    requires StarFree(o) && ct == Crypt(c, pt, 0) && |rp| == |pt|
    requires FromHash(alg, ct, rp, t, q) && Accepted(o, c, ct, Prove(c, q))
    ensures FitsSlice(alg, |ct|, t) && HashTrue(o, pt, rp, t)
  {
    var r := AcceptedText(o, c, alg, rp, ct, t, q);
    LocationPlain(o, c, ct, Prove(c, q), BinaryHashToStr(o, t.nullifier, t.length));
    CryptTwice(c, pt, 0);
  }

  /** The hash as the proof has it, with the whole of its text. */
  lemma AcceptedText(o: Oracles, c: Cipher, alg: Algorithm, rp: Bytes, ct: Bytes, t: BlockToprf, q: ProofToGenerate)
    returns (r: BlockToprf)
    requires |rp| == |ct| && FromHash(alg, ct, rp, t, q) && Accepted(o, c, ct, Prove(c, q))
    ensures FitsSlice(alg, |ct|, t) && t.fromIndex + t.length <= |rp|
    ensures rp[t.fromIndex..t.fromIndex + t.length] == BinaryHashToStr(o, t.nullifier, t.length)
    ensures q.toprf == Some(r) && q.startIdx + r.fromIndex == t.fromIndex
    ensures r.length == t.length && r.nullifier == t.nullifier && r.fromIndex + r.length <= |q.redactedPlaintext|
    ensures q.redactedPlaintext[r.fromIndex..r.fromIndex + r.length] == BinaryHashToStr(o, t.nullifier, t.length)
  {
    var s := OwnSlice(alg, |ct|, t).value;
    r := q.toprf.value;
    ProofBytes(alg, rp, ct, t, q);
    ChunkSize(ct, Prove(c, q));
    assert r.fromIndex + r.length <= |q.redactedPlaintext|;
    SliceOfSlice(rp, s.fromIndex, s.toIndex, r.fromIndex, r.fromIndex + r.length);
    WholePrefix(Take(q.redactedPlaintext, r.fromIndex, r.fromIndex + r.length), BinaryHashToStr(o, t.nullifier, t.length));
  }

  lemma ProofBytes(alg: Algorithm, rp: Bytes, ct: Bytes, t: BlockToprf, q: ProofToGenerate)
    requires |rp| == |ct| && FromHash(alg, ct, rp, t, q)
    ensures var s := OwnSlice(alg, |ct|, t).value;
            && s.fromIndex < s.toIndex <= |rp| && s.fromIndex <= t.fromIndex
            && q.redactedPlaintext == rp[s.fromIndex..s.toIndex] && q.startIdx == s.fromIndex
            && q.toprf == Some(t.(fromIndex := t.fromIndex - s.fromIndex))
  {
    OffsetAligned(alg, t.fromIndex, t.length);
  }

  lemma WholePrefix(a: Bytes, b: Bytes)
    requires a <= b && |a| == |b|
    ensures a == b
  {
  }

  /**
   A packet is rebuilt only if every hash of which something is shown fits its slice, is
   shown whole, and is the hash of the plaintext at its place.
   */
  lemma RebuiltOnlyTrue(o: Oracles, c: Cipher, alg: Algorithm, pt: Bytes, rp: Bytes, ct: Bytes,
                        toprfs: seq<BlockToprf>, order: seq<ZkProof>, k: nat)
    requires StarFree(o) && ct == Crypt(c, pt, 0) && |rp| == |pt| && PlanPacket(alg, ct, rp, toprfs).Ok?
    requires multiset(order) == multiset(Proofs(c, PlanPacket(alg, ct, rp, toprfs).value.proofs))
    requires Rebuild(o, c, ct, order).Some?
    requires k < |toprfs| && toprfs[k].fromIndex < |rp| && rp[toprfs[k].fromIndex] != STAR
    ensures FitsSlice(alg, |ct|, toprfs[k]) && HashTrue(o, pt, rp, toprfs[k])
  {
    var qs := PlanPacket(alg, ct, rp, toprfs).value.proofs;
    HashInBounds(alg, ct, rp, toprfs, k);
    OwnHoldsStart(alg, |ct|, toprfs[k]);
    var q := ProofOfHash(alg, ct, rp, toprfs, k, toprfs[k].fromIndex);
    var j :| 0 <= j < |qs| && qs[j] == q;
    var i := SameProof(Proofs(c, qs), order, j);
    AcceptedExactlyWhen(o, c, ct, order, |order|);
    assert Accepted(o, c, ct, order[i]);
    AcceptedHash(o, c, alg, pt, rp, ct, toprfs[k], q);
  }

  /** Stars, true bytes, and bytes at the places of hashes, of each of which the beginning is shown. */
  predicate ShowsHashes(pt: Bytes, rp: Bytes, toprfs: seq<BlockToprf>) {
    && |rp| == |pt|
    && (forall p :: 0 <= p < |rp| ==> rp[p] == STAR || rp[p] == pt[p] || InSomeHash(toprfs, p))
    && (forall k :: 0 <= k < |toprfs| ==> toprfs[k].fromIndex < |rp| && rp[toprfs[k].fromIndex] != STAR)
  }

  /**
   The proofs planned for a packet with hashes rebuild its redacted plaintext, in any
   order, if and only if every hash fits the slice planned for it and is shown truly;
   otherwise the verifier refuses the packet.
   */
  lemma RebuiltExactlyWhen(o: Oracles, c: Cipher, alg: Algorithm, pt: Bytes, rp: Bytes, ct: Bytes,
                           toprfs: seq<BlockToprf>, order: seq<ZkProof>)
    requires StarFree(o) && ct == Crypt(c, pt, 0) && ShowsHashes(pt, rp, toprfs) && PlanPacket(alg, ct, rp, toprfs).Ok?
    requires multiset(order) == multiset(Proofs(c, PlanPacket(alg, ct, rp, toprfs).value.proofs))
    ensures Rebuild(o, c, ct, order) ==
            if forall k :: 0 <= k < |toprfs| ==> FitsSlice(alg, |ct|, toprfs[k]) && HashTrue(o, pt, rp, toprfs[k])
            then Some(rp) else None
  {
    if forall k :: 0 <= k < |toprfs| ==> FitsSlice(alg, |ct|, toprfs[k]) && HashTrue(o, pt, rp, toprfs[k]) {
      ProverVerifierRoundTrip(o, c, alg, pt, rp, ct, toprfs, order);
    } else if Rebuild(o, c, ct, order).Some? {
      forall k | 0 <= k < |toprfs|
        ensures FitsSlice(alg, |ct|, toprfs[k]) && HashTrue(o, pt, rp, toprfs[k])
      {
        RebuiltOnlyTrue(o, c, alg, pt, rp, ct, toprfs, order, k);
      }
    }
  }

  // ----- any packet -----

  /** The hash as it is located in the packet. */
  predicate LocatedAt(q: ProofToGenerate, t: BlockToprf) {
    && q.toprf.Some? && q.startIdx + q.toprf.value.fromIndex == t.fromIndex
    && q.toprf.value.length == t.length && q.toprf.value.nullifier == t.nullifier
  }

  /** The proof shows nothing but the redacted plaintext at its place, and at most one of the hashes. */
  ghost predicate PlannedFor(rp: Bytes, toprfs: seq<BlockToprf>, q: ProofToGenerate) {
    && q.startIdx + |q.redactedPlaintext| <= |rp|
    && q.redactedPlaintext == rp[q.startIdx..q.startIdx + |q.redactedPlaintext|]
    && (q.toprf.Some? ==> exists k :: 0 <= k < |toprfs| && LocatedAt(q, toprfs[k]))
  }

  lemma PlannedText(alg: Algorithm, ct: Bytes, rp: Bytes, toprfs: seq<BlockToprf>, q: ProofToGenerate)
    requires |ct| == |rp| && PlanPacket(alg, ct, rp, toprfs).Ok?
    requires q in PlanPacket(alg, ct, rp, toprfs).value.proofs
    ensures PlannedFor(rp, toprfs, q)
  {
    var plan := AddToprfs(alg, ct, rp, toprfs).value;
    InFilled(alg, ct, rp, plan, q);
    if q in plan.proofs {
      var k := HashProofFrom(alg, ct, rp, toprfs, q);
      ProofBytes(alg, rp, ct, toprfs[k], q);
      assert LocatedAt(q, toprfs[k]);
    } else {
      AddToprfsPlaces(alg, ct, rp, toprfs);
      var s := FilledProofs(alg, ct, rp, plan, q);
    }
  }

  /** The byte is a star, that of the plaintext, or that of the text of a hash of the plaintext there. */
  predicate ByteTrue(o: Oracles, pt: Bytes, toprfs: seq<BlockToprf>, p: nat, b: Byte) {
    || b == STAR
    || (p < |pt| && b == pt[p])
    || exists k :: 0 <= k < |toprfs| && HashByte(o, pt, toprfs[k], p, b)
  }

  predicate HashByte(o: Oracles, pt: Bytes, t: BlockToprf, p: nat, b: Byte) {
    && t.fromIndex <= p < t.fromIndex + t.length <= |pt|
    && t.nullifier == o.oprf(pt[t.fromIndex..t.fromIndex + t.length])
    && b == BinaryHashToStr(o, t.nullifier, t.length)[p - t.fromIndex]
  }

  lemma GenuineTrue(o: Oracles, c: Cipher, pt: Bytes, rp: Bytes, ct: Bytes, toprfs: seq<BlockToprf>,
                    q: ProofToGenerate, p: nat, b: Byte)
    requires ct == Crypt(c, pt, 0) && PlannedFor(rp, toprfs, q) && Genuine(o, c, ct, Prove(c, q), p, b)
    ensures ByteTrue(o, pt, toprfs, p, b)
  {
    CryptTwice(c, pt, 0);
    if b != STAR && !(p < |ct| && b == c.crypt(p, ct[p])) {
      var k :| 0 <= k < |toprfs| && LocatedAt(q, toprfs[k]);
      assert HashByte(o, pt, toprfs[k], p, b);
    } else if b != STAR {
      assert Crypt(c, ct, 0)[p] == c.crypt(p, ct[p]);
    }
  }

  /**
   For every packet, whatever its hashes and its redacted plaintext are, and every order of
   its proofs: the verifier either refuses it or rebuilds exactly the redacted plaintext,
   and then each byte of it is a star, that of the plaintext, or that of the text of a
   hash of exactly the plaintext at the hash's place.
   */
  lemma RebuiltGenuine(o: Oracles, c: Cipher, alg: Algorithm, pt: Bytes, rp: Bytes, ct: Bytes,
                       toprfs: seq<BlockToprf>, order: seq<ZkProof>)
    requires StarFree(o) && ct == Crypt(c, pt, 0) && |rp| == |pt| && PlanPacket(alg, ct, rp, toprfs).Ok?
    requires multiset(order) == multiset(Proofs(c, PlanPacket(alg, ct, rp, toprfs).value.proofs))
    ensures Rebuild(o, c, ct, order) in {None, Some(rp)}
    ensures Rebuild(o, c, ct, order).Some? ==> forall p: nat :: p < |rp| ==> ByteTrue(o, pt, toprfs, p, rp[p])
  {
    if Rebuild(o, c, ct, order).Some? {
      RebuiltRedacted(o, c, alg, rp, ct, toprfs, order);
      forall p: nat | p < |rp|
        ensures ByteTrue(o, pt, toprfs, p, rp[p])
      {
        RebuiltByte(o, c, alg, pt, rp, ct, toprfs, order, p);
      }
    }
  }

  lemma RebuiltRedacted(o: Oracles, c: Cipher, alg: Algorithm, rp: Bytes, ct: Bytes, toprfs: seq<BlockToprf>,
                        order: seq<ZkProof>)
    requires |rp| == |ct| && PlanPacket(alg, ct, rp, toprfs).Ok? && Rebuild(o, c, ct, order).Some?
    requires multiset(order) == multiset(Proofs(c, PlanPacket(alg, ct, rp, toprfs).value.proofs))
    ensures Rebuild(o, c, ct, order) == Some(rp)
  {
    var qs := PlanPacket(alg, ct, rp, toprfs).value.proofs;
    AcceptedExactlyWhen(o, c, ct, order, |order|);
    forall k | 0 <= k < |order|
      ensures Shows(o, c, ct, rp, order[k])
    {
      var j := SameProof(order, Proofs(c, qs), k);
      PlannedText(alg, ct, rp, toprfs, qs[j]);
      assert Accepted(o, c, ct, order[k]);
    }
    PlanIsPartition(alg, ct, rp, toprfs);
    forall p: nat | p < |rp| && rp[p] != STAR
      ensures Written(order, |order|, p)
    {
      OrderWrites(c, qs, order, p);
    }
    RebuildsText(o, c, ct, rp, order);
  }

  lemma RebuiltByte(o: Oracles, c: Cipher, alg: Algorithm, pt: Bytes, rp: Bytes, ct: Bytes,
                    toprfs: seq<BlockToprf>, order: seq<ZkProof>, p: nat)
    requires StarFree(o) && ct == Crypt(c, pt, 0) && |rp| == |pt| && PlanPacket(alg, ct, rp, toprfs).Ok?
    requires multiset(order) == multiset(Proofs(c, PlanPacket(alg, ct, rp, toprfs).value.proofs))
    requires Rebuild(o, c, ct, order) == Some(rp) && p < |rp|
    ensures ByteTrue(o, pt, toprfs, p, rp[p])
  {
    var qs := PlanPacket(alg, ct, rp, toprfs).value.proofs;
    VerifierSound(o, c, ct, order, |order|, p);
    if rp[p] != STAR {
      var k :| 0 <= k < |order| && Writes(order[k], p) && Genuine(o, c, ct, order[k], p, rp[p]);
      var j := SameProof(order, Proofs(c, qs), k);
      PlannedText(alg, ct, rp, toprfs, qs[j]);
      GenuineTrue(o, c, pt, rp, ct, toprfs, qs[j], p, rp[p]);
    }
  }
}
