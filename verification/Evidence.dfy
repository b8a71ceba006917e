/**
 From the response to what the attestor sees of it: the blocks revealed of a response,
 padded as `preparePacketsForReveal` pads them, proved and rebuilt by the verifier.
 */
module Evidence {
  import opened ByteData
  import opened Redaction
  import opened BlockReveal
  import opened HttpResponse
  import opened ResponseRedactions
  import opened Survivors
  import opened ResponseText
  import opened HashedParts
  import opened ZkPlan
  import opened ZkVerify
  import opened ZkRoundTrip
  import opened ZkRefusal
  import opened HttpProvider
  import opened HttpPlan

  /** The slice lies in block `b`. */
  predicate InsideBlock(blocks: seq<Bytes>, r: Redaction, b: nat)
    requires b < |blocks|
  {
    Offset(blocks, b) <= r.fromIndex && r.toIndex <= Offset(blocks, b) + |blocks[b]|
  }

  /** No hashed slice is split between two blocks. */
  predicate HashesInBlocks(blocks: seq<Bytes>, rs: seq<Redaction>) {
    forall r <- rs :: r.hash ==> exists b: nat :: b < |blocks| && InsideBlock(blocks, r, b)
  }

  /** The padding of `preparePacketsForReveal`: what the record holds behind the block's text. */
  function Padded(redacted: Bytes, record: Bytes): Bytes
    requires |redacted| <= |record|
  {
    redacted + record[|redacted|..]
  }

  // ----- which hashes a block carries -----

  lemma {:induction false} HashOrigin(o: Oracles, total: Bytes, rs: seq<Redaction>, t: Toprf) returns (k: nat)
    requires Ordered(rs, |total|) && t in Hashed(o, total, rs)
    ensures k < |rs| && rs[k].hash && HashOf(o, total, rs[k]) == [t]
  {
    var n := |rs| - 1;
    if t in Hashed(o, total, rs[..n]) {
      k := HashOrigin(o, total, rs[..n], t);
    } else {
      k := n;
    }
  }

  lemma {:induction false} CarriedOrigin(toprfs: seq<Toprf>, at: nat, n: nat, t: BlockToprf) returns (j: nat)
    requires t in InBlock(toprfs, at, n)
    ensures j < |toprfs| && at <= toprfs[j].at < at + n
    ensures t == BlockToprf(toprfs[j].at - at, toprfs[j].length, toprfs[j].nullifier, toprfs[j].plaintext)
  {
    var m := |toprfs| - 1;
    if t in InBlock(toprfs[..m], at, n) {
      j := CarriedOrigin(toprfs[..m], at, n, t);
    } else {
      j := m;
    }
  }

  /** Two blocks that hold the same position are the same. */
  lemma SameBlock(blocks: seq<Bytes>, b: nat, c: nat, p: nat)
    requires b < |blocks| && c < |blocks|
    requires Offset(blocks, b) <= p < Offset(blocks, b) + |blocks[b]|
    requires Offset(blocks, c) <= p < Offset(blocks, c) + |blocks[c]|
    ensures b == c
  {
    OffsetNext(blocks, b);
    OffsetNext(blocks, c);
    if b < c {
      OffsetMonotone(blocks, b + 1, c);
    } else if c < b {
      OffsetMonotone(blocks, c + 1, b);
    }
  }

  lemma HashOfBlock(blocks: seq<Bytes>, rs: seq<Redaction>, r: Redaction, b: nat)
    requires HashesInBlocks(blocks, rs) && r in rs && r.hash && r.fromIndex < r.toIndex && b < |blocks|
    requires Offset(blocks, b) <= r.fromIndex < Offset(blocks, b) + |blocks[b]|
    ensures InsideBlock(blocks, r, b)
  {
    var c: nat :| c < |blocks| && InsideBlock(blocks, r, c);
    SameBlock(blocks, b, c, r.fromIndex);
  }

  /** A hash carried by a block is one of the slices, all inside the block. */
  lemma CarriedHash(o: Oracles, blocks: seq<Bytes>, rs: seq<Redaction>, b: nat, t: BlockToprf) returns (r: Redaction)
    requires Ordered(rs, |Concat(blocks)|) && HashesInBlocks(blocks, rs) && b < |blocks|
    requires t in InBlock(Hashed(o, Concat(blocks), rs), Offset(blocks, b), |blocks[b]|)
    ensures r in rs && r.hash && InsideBlock(blocks, r, b) && r.toIndex <= |Concat(blocks)|
    ensures t.fromIndex == r.fromIndex - Offset(blocks, b) && t.length == r.toIndex - r.fromIndex
    ensures t.nullifier == o.oprf(Concat(blocks)[r.fromIndex..r.toIndex])
  {
    var toprfs := Hashed(o, Concat(blocks), rs);
    var j := CarriedOrigin(toprfs, Offset(blocks, b), |blocks[b]|, t);
    var k := HashOrigin(o, Concat(blocks), rs, toprfs[j]);
    r := rs[k];
    HashOfBlock(blocks, rs, r, b);
  }

  // ----- a block's redacted text, against the record's plaintext -----

  /** The record holds the block's text, and behind it what the protocol adds. */
  predicate RecordOf(blocks: seq<Bytes>, b: nat, record: Bytes)
    requires b < |blocks|
  {
    |record| >= |blocks[b]| && record[..|blocks[b]|] == blocks[b]
  }

  lemma PieceBytes(blocks: seq<Bytes>, text: Bytes, b: nat, record: Bytes)
    requires b < |blocks| && |text| == |Concat(blocks)| && RecordOf(blocks, b, record)
    ensures var at := Offset(blocks, b);
            && at + |blocks[b]| <= |text|
            && |Piece(blocks, text, b)| == |blocks[b]|
            && forall i :: 0 <= i < |blocks[b]| ==>
                 Piece(blocks, text, b)[i] == text[at + i] && record[i] == Concat(blocks)[at + i]
  {
    OffsetNext(blocks, b);
    ConcatPiece(blocks, b);
    var at := Offset(blocks, b);
    forall i | 0 <= i < |blocks[b]|
      ensures record[i] == Concat(blocks)[at + i]
    {
      assert record[..|blocks[b]|][i] == blocks[b][i] == Concat(blocks)[at..at + |blocks[b]|][i];
    }
  }

  /** A slice inside a block, in the padded text and in the record. */
  lemma SliceBytes(blocks: seq<Bytes>, text: Bytes, b: nat, record: Bytes, r: Redaction)
    requires b < |blocks| && |text| == |Concat(blocks)| && RecordOf(blocks, b, record)
    requires r.fromIndex <= r.toIndex <= |text| && InsideBlock(blocks, r, b)
    ensures |Piece(blocks, text, b)| <= |record|
    ensures var from, until := r.fromIndex - Offset(blocks, b), r.toIndex - Offset(blocks, b);
            && until <= |record|
            && Padded(Piece(blocks, text, b), record)[from..until] == text[r.fromIndex..r.toIndex]
            && record[from..until] == Concat(blocks)[r.fromIndex..r.toIndex]
  {
    PieceBytes(blocks, text, b, record);
  }

  lemma SliceTrue(o: Oracles, blocks: seq<Bytes>, text: Bytes, b: nat, record: Bytes, r: Redaction, t: BlockToprf)
    requires b < |blocks| && RecordOf(blocks, b, record) && r.hash
    requires r.fromIndex <= r.toIndex <= |Concat(blocks)| && InsideBlock(blocks, r, b)
    requires Holds(o, Concat(blocks), r, text)
    requires t.fromIndex == r.fromIndex - Offset(blocks, b) && t.length == r.toIndex - r.fromIndex
    requires t.nullifier == o.oprf(Concat(blocks)[r.fromIndex..r.toIndex])
    ensures |Piece(blocks, text, b)| <= |record|
    ensures HashTrue(o, record, Padded(Piece(blocks, text, b), record), t)
  {
    SliceBytes(blocks, text, b, record, r);
    PieceBytes(blocks, text, b, record);
  }

  lemma CarriedTrue(o: Oracles, blocks: seq<Bytes>, rs: seq<Redaction>, text: Bytes, b: nat, record: Bytes, t: BlockToprf)
    requires Ordered(rs, |Concat(blocks)|) && HashesInBlocks(blocks, rs) && b < |blocks|
    requires HashesAndStars(o, Concat(blocks), rs, text) && RecordOf(blocks, b, record)
    requires t in InBlock(Hashed(o, Concat(blocks), rs), Offset(blocks, b), |blocks[b]|)
    ensures |Piece(blocks, text, b)| <= |record|
    ensures HashTrue(o, record, Padded(Piece(blocks, text, b), record), t)
  {
    var r := CarriedHash(o, blocks, rs, b, t);
    assert Holds(o, Concat(blocks), r, text) by {
      var k :| 0 <= k < |rs| && rs[k] == r;
    }
    SliceTrue(o, blocks, text, b, record, r, t);
  }

  lemma ByteShown(o: Oracles, blocks: seq<Bytes>, rs: seq<Redaction>, text: Bytes, b: nat, i: nat)
    requires Ordered(rs, |Concat(blocks)|) && AllHashed(rs) && HashesInBlocks(blocks, rs)
    requires HashesAndStars(o, Concat(blocks), rs, text) && b < |blocks| && i < |blocks[b]|
    ensures Offset(blocks, b) + |blocks[b]| <= |text|
    ensures var p := Offset(blocks, b) + i;
            text[p] == STAR || text[p] == Concat(blocks)[p]
            || InSomeHash(InBlock(Hashed(o, Concat(blocks), rs), Offset(blocks, b), |blocks[b]|), i)
  {
    assert Offset(blocks, b) + |blocks[b]| <= |text| by {
      OffsetNext(blocks, b);
    }
    if k :| 0 <= k < |rs| && Covers(rs[k], Offset(blocks, b) + i) {
      HashCarriedHere(o, blocks, rs, k, b, i);
    } else {
      assert !Covered(rs, Offset(blocks, b) + i);
    }
  }

  predicate AllHashed(rs: seq<Redaction>) {
    forall k :: 0 <= k < |rs| ==> rs[k].hash
  }

  lemma CarriedInHash(toprfs: seq<Toprf>, j: nat, at: nat, n: nat, i: int)
    requires j < |toprfs| && at <= toprfs[j].at < at + n
    requires toprfs[j].at <= at + i < toprfs[j].at + toprfs[j].length
    ensures InSomeHash(InBlock(toprfs, at, n), i)
  {
    InBlockKeeps(toprfs, j, at, n);
    var carried := InBlock(toprfs, at, n);
    var t := BlockToprf(toprfs[j].at - at, toprfs[j].length, toprfs[j].nullifier, toprfs[j].plaintext);
    var m :| 0 <= m < |carried| && carried[m] == t;
    assert InHash(carried[m], i);
  }

  lemma HashCarriedHere(o: Oracles, blocks: seq<Bytes>, rs: seq<Redaction>, k: nat, b: nat, i: nat)
    requires Ordered(rs, |Concat(blocks)|) && HashesInBlocks(blocks, rs)
    requires b < |blocks| && i < |blocks[b]| && k < |rs| && rs[k].hash && Covers(rs[k], Offset(blocks, b) + i)
    ensures InSomeHash(InBlock(Hashed(o, Concat(blocks), rs), Offset(blocks, b), |blocks[b]|), i)
  {
    var r, total := rs[k], Concat(blocks);
    var c: nat :| c < |blocks| && InsideBlock(blocks, r, c);
    SameBlock(blocks, b, c, Offset(blocks, b) + i);
    var j := HashedKeeps(o, total, rs, k);
    var toprfs := Hashed(o, total, rs);
    assert toprfs[j] == HashOf(o, total, r)[0];
    CarriedInHash(toprfs, j, Offset(blocks, b), |blocks[b]|, i);
  }

  /**
   The padded text of every block is a redaction of its record: stars, true bytes, and
   true hashes at the locations the block carries.
   */
  lemma BlockRedacts(o: Oracles, blocks: seq<Bytes>, rs: seq<Redaction>, text: Bytes, b: nat, record: Bytes)
    requires Ordered(rs, |Concat(blocks)|) && AllHashed(rs) && HashesInBlocks(blocks, rs) && b < |blocks|
    requires HashesAndStars(o, Concat(blocks), rs, text) && RecordOf(blocks, b, record)
    ensures |Piece(blocks, text, b)| <= |record|
    ensures Redacts(o, record, Padded(Piece(blocks, text, b), record),
                    InBlock(Hashed(o, Concat(blocks), rs), Offset(blocks, b), |blocks[b]|))
  {
    PieceBytes(blocks, text, b, record);
    AllHashesTrue(o, blocks, rs, text, b, record);
    AllBytesIn(o, blocks, rs, text, b, record);
    RedactsWhen(o, record, Padded(Piece(blocks, text, b), record),
                InBlock(Hashed(o, Concat(blocks), rs), Offset(blocks, b), |blocks[b]|));
  }

  predicate HashesIn(o: Oracles, record: Bytes, padded: Bytes, toprfs: seq<BlockToprf>) {
    forall k :: 0 <= k < |toprfs| ==> HashTrue(o, record, padded, toprfs[k])
  }

  predicate BytesIn(toprfs: seq<BlockToprf>, record: Bytes, padded: Bytes) {
    |padded| <= |record| && forall p :: 0 <= p < |padded| ==> ByteIn(toprfs, record, padded, p)
  }

  lemma RedactsWhen(o: Oracles, record: Bytes, padded: Bytes, toprfs: seq<BlockToprf>)
    requires |padded| == |record| && HashesIn(o, record, padded, toprfs) && BytesIn(toprfs, record, padded)
    ensures Redacts(o, record, padded, toprfs)
  {
    forall p | 0 <= p < |padded|
      ensures padded[p] == STAR || padded[p] == record[p] || InSomeHash(toprfs, p)
    {
      assert ByteIn(toprfs, record, padded, p);
    }
  }

  lemma AllHashesTrue(o: Oracles, blocks: seq<Bytes>, rs: seq<Redaction>, text: Bytes, b: nat, record: Bytes)
    requires Ordered(rs, |Concat(blocks)|) && HashesInBlocks(blocks, rs) && b < |blocks|
    requires HashesAndStars(o, Concat(blocks), rs, text) && RecordOf(blocks, b, record)
    ensures |Piece(blocks, text, b)| <= |record|
    ensures HashesIn(o, record, Padded(Piece(blocks, text, b), record),
                     InBlock(Hashed(o, Concat(blocks), rs), Offset(blocks, b), |blocks[b]|))
  {
    PieceBytes(blocks, text, b, record);
    var toprfs := InBlock(Hashed(o, Concat(blocks), rs), Offset(blocks, b), |blocks[b]|);
    forall k | 0 <= k < |toprfs|
      ensures HashTrue(o, record, Padded(Piece(blocks, text, b), record), toprfs[k])
    {
      CarriedTrue(o, blocks, rs, text, b, record, toprfs[k]);
    }
  }

  lemma AllBytesIn(o: Oracles, blocks: seq<Bytes>, rs: seq<Redaction>, text: Bytes, b: nat, record: Bytes)
    requires Ordered(rs, |Concat(blocks)|) && AllHashed(rs) && HashesInBlocks(blocks, rs) && b < |blocks|
    requires HashesAndStars(o, Concat(blocks), rs, text) && RecordOf(blocks, b, record)
    ensures |Piece(blocks, text, b)| <= |record|
    ensures BytesIn(InBlock(Hashed(o, Concat(blocks), rs), Offset(blocks, b), |blocks[b]|), record,
                    Padded(Piece(blocks, text, b), record))
  {
    PieceBytes(blocks, text, b, record);
    var padded := Padded(Piece(blocks, text, b), record);
    forall p | 0 <= p < |padded|
      ensures ByteIn(InBlock(Hashed(o, Concat(blocks), rs), Offset(blocks, b), |blocks[b]|), record, padded, p)
    {
      PaddedByte(o, blocks, rs, text, b, record, p);
    }
  }

  predicate ByteIn(toprfs: seq<BlockToprf>, record: Bytes, padded: Bytes, p: nat)
    requires p < |padded| <= |record|
  {
    padded[p] == STAR || padded[p] == record[p] || InSomeHash(toprfs, p)
  }

  lemma PaddedByte(o: Oracles, blocks: seq<Bytes>, rs: seq<Redaction>, text: Bytes, b: nat, record: Bytes, p: nat)
    requires Ordered(rs, |Concat(blocks)|) && AllHashed(rs) && HashesInBlocks(blocks, rs) && b < |blocks|
    requires HashesAndStars(o, Concat(blocks), rs, text) && RecordOf(blocks, b, record) && p < |record|
    ensures |Piece(blocks, text, b)| <= |record|
    ensures ByteIn(InBlock(Hashed(o, Concat(blocks), rs), Offset(blocks, b), |blocks[b]|), record,
                   Padded(Piece(blocks, text, b), record), p)
  {
    PieceBytes(blocks, text, b, record);
    if p < |blocks[b]| {
      ByteShown(o, blocks, rs, text, b, p);
    }
  }

  // ----- what the attestor rebuilds -----

  /** The record was planned, and its hashes fit their slices. */
  predicate Provable(alg: Algorithm, ct: Bytes, rp: Bytes, toprfs: seq<BlockToprf>) {
    && PlanPacket(alg, ct, rp, toprfs).Ok?
    && forall k :: 0 <= k < |toprfs| ==> FitsSlice(alg, |ct|, toprfs[k])
  }

  /** What the verifier makes of the proofs of a revealed block, in every order. */
  ghost predicate RebuiltAs(o: Oracles, c: Cipher, alg: Algorithm, record: Bytes, block: RevealedBlock, text: Bytes)
    requires |block.redactedPlaintext| <= |record|
  {
    var rp, ct := Padded(block.redactedPlaintext, record), Crypt(c, record, 0);
    Provable(alg, ct, rp, block.toprfs) ==>
      forall order: seq<ZkProof> ::
        multiset(order) == multiset(Proofs(c, PlanPacket(alg, ct, rp, block.toprfs).value.proofs)) ==>
          Rebuild(o, c, ct, order) == Some(text)
  }

  lemma BlockRebuilt(o: Oracles, c: Cipher, alg: Algorithm, blocks: seq<Bytes>, rs: seq<Redaction>, s: Sweep, b: nat, record: Bytes)
    requires StarFree(o) && Ordered(rs, |Concat(blocks)|) && AllHashed(rs) && HashesInBlocks(blocks, rs) && b < |blocks|
    requires HashesAndStars(o, Concat(blocks), rs, s.text) && s.toprfs == Hashed(o, Concat(blocks), rs)
    requires RecordOf(blocks, b, record)
    ensures |Piece(blocks, s.text, b)| <= |record|
    ensures RebuiltAs(o, c, alg, record, BlockOf(blocks, s, b), Padded(Piece(blocks, s.text, b), record))
  {
    BlockRedacts(o, blocks, rs, s.text, b, record);
    var block := BlockOf(blocks, s, b);
    var rp, ct := Padded(block.redactedPlaintext, record), Crypt(c, record, 0);
    if Provable(alg, ct, rp, block.toprfs) {
      forall order: seq<ZkProof> |
        multiset(order) == multiset(Proofs(c, PlanPacket(alg, ct, rp, block.toprfs).value.proofs))
        ensures Rebuild(o, c, ct, order) == Some(rp)
      {
        ProverVerifierRoundTrip(o, c, alg, record, rp, ct, block.toprfs, order);
      }
    }
  }

  /** The piece of the text for block `b`: as rebuilt if it is revealed, stars if not. */
  ghost predicate BlockSeen(o: Oracles, c: Cipher, alg: Algorithm, blocks: seq<Bytes>, revealed: seq<RevealedBlock>,
                            text: Bytes, b: nat, record: Bytes)
    requires b < |blocks| && |text| == |Concat(blocks)| && RecordOf(blocks, b, record)
  {
    (FullyRedacted(Piece(blocks, text, b)) && forall r <- revealed :: r.block != b)
    || exists r <- revealed :: r.block == b && BlockShows(o, c, alg, r, Piece(blocks, text, b), record)
  }

  ghost predicate BlockShows(o: Oracles, c: Cipher, alg: Algorithm, block: RevealedBlock, piece: Bytes, record: Bytes) {
    && block.redactedPlaintext == piece && |piece| <= |record|
    && RebuiltAs(o, c, alg, record, block, Padded(piece, record))
  }

  lemma EveryBlockSeen(o: Oracles, c: Cipher, alg: Algorithm, blocks: seq<Bytes>, rs: seq<Redaction>, s: Sweep, b: nat, record: Bytes)
    requires StarFree(o) && Ordered(rs, |Concat(blocks)|) && AllHashed(rs) && HashesInBlocks(blocks, rs) && b < |blocks|
    requires HashesAndStars(o, Concat(blocks), rs, s.text) && s.toprfs == Hashed(o, Concat(blocks), rs)
    requires RecordOf(blocks, b, record)
    ensures BlockSeen(o, c, alg, blocks, ToReveal(blocks, s, |blocks|), s.text, b, record)
  {
    var revealed := ToReveal(blocks, s, |blocks|);
    RevealedExactly(blocks, s, |blocks|, b);
    BlockRebuilt(o, c, alg, blocks, rs, s, b, record);
    if exists r <- revealed :: r.block == b {
      var r :| r in revealed && r.block == b;
      assert r == BlockOf(blocks, s, b);
    }
  }

  /** All blocks as the attestor sees them make up the text. */
  ghost predicate Seen(o: Oracles, alg: Algorithm, blocks: seq<Bytes>, ciphers: seq<Cipher>, records: seq<Bytes>,
                       result: Reveal, text: Bytes)
    requires |records| == |ciphers| == |blocks| && forall b :: 0 <= b < |blocks| ==> RecordOf(blocks, b, records[b])
    requires |text| == |Concat(blocks)|
  {
    && result.Blocks?
    && forall b :: 0 <= b < |blocks| ==> BlockSeen(o, ciphers[b], alg, blocks, result.revealed, text, b, records[b])
  }

  lemma AllSeen(o: Oracles, alg: Algorithm, blocks: seq<Bytes>, ciphers: seq<Cipher>, records: seq<Bytes>, rs: seq<Redaction>)
    requires |records| == |ciphers| == |blocks| && forall b :: 0 <= b < |blocks| ==> RecordOf(blocks, b, records[b])
    requires StarFree(o) && rs != [] && WellFormed(rs) && HashesTrue(o, Concat(blocks), rs)
    requires AllHashed(HashReveals(rs)) && HashesInBlocks(blocks, HashReveals(rs))
    ensures Seen(o, alg, blocks, ciphers, records, RevealOf(o, blocks, rs), SweepAll(o, Concat(blocks), rs).value.text)
  {
    var s := SweepAll(o, Concat(blocks), rs).value;
    forall b | 0 <= b < |blocks|
      ensures BlockSeen(o, ciphers[b], alg, blocks, ToReveal(blocks, s, |blocks|), s.text, b, records[b])
    {
      EveryBlockSeen(o, ciphers[b], alg, blocks, HashReveals(rs), s, b, records[b]);
    }
  }

  lemma SomeSlice(shown: seq<Redaction>, headers: seq<Redaction>, length: nat)
    requires PartsOf(shown, headers, length) && |shown| > 1
    ensures RedactionsFor(shown, headers, length) != []
  {
    SortedParts(shown, headers, length);
    SortSorts(AllSlices(shown, headers, length));
    SameSize(AllSlices(shown, headers, length), RedactionsFor(shown, headers, length));
  }

  lemma HashedSlices(blocks: seq<Bytes>, shown: seq<Redaction>, rs: seq<Redaction>)
    requires HashesInBlocks(blocks, shown) && SameHashes(rs, shown)
    ensures AllHashed(HashReveals(rs)) && HashesInBlocks(blocks, HashReveals(rs))
  {
    var hs := HashReveals(rs);
    assert forall k :: 0 <= k < |hs| ==> hs[k] in hs;
  }

  /** What the attestor sees of a response whose hashed parts stand alone, each in one block. */
  lemma PartsSeen(o: Oracles, alg: Algorithm, blocks: seq<Bytes>, ciphers: seq<Cipher>, records: seq<Bytes>,
                  shown: seq<Redaction>, headers: seq<Redaction>)
    requires |records| == |ciphers| == |blocks| && forall b :: 0 <= b < |blocks| ==> RecordOf(blocks, b, records[b])
    requires StarFree(o) && NoneEmpty(blocks) && CleanHashes(shown, headers, |Concat(blocks)|) && |shown| > 1
    requires HashesInBlocks(blocks, shown)
    ensures var rs := RedactionsFor(shown, headers, |Concat(blocks)|);
            && WellFormed(rs)
            && (EndsInHash(shown, |Concat(blocks)|) ==> Revealed(o, blocks, rs) == Failed)
            && (!EndsInHash(shown, |Concat(blocks)|) ==>
                  Seen(o, alg, blocks, ciphers, records, Revealed(o, blocks, rs), TextLeft(o, Concat(blocks), shown, headers)))
  {
    var total := Concat(blocks);
    var rs := RedactionsFor(shown, headers, |total|);
    RedactsExactlyWhen(o, total, shown, headers);
    SomeSlice(shown, headers, |total|);
    RevealedFlat(o, blocks, rs);
    if !EndsInHash(shown, |total|) {
      HashesKept(o, total, shown, headers);
      HashedSlices(blocks, shown, rs);
      AllSeen(o, alg, blocks, ciphers, records, rs);
    }
  }

  /** Every hashed part lies in one block. */
  ghost predicate HashedPartsInBlocks(js: Readers, blocks: seq<Bytes>, res: State, parts: seq<Part>)
    requires Body(js, Concat(blocks), res) && AllInBody(parts, |res.body|)
  {
    forall k :: 0 <= k < |parts| && parts[k].hash ==>
      exists b: nat :: b < |blocks| && InsideBlock(blocks, PartReveal(js, Concat(blocks), res, parts[k]), b)
  }

  lemma PlanInBlocks(js: Readers, blocks: seq<Bytes>, res: State, requests: seq<Request>, parts: seq<Part>)
    requires Planned(js, Concat(blocks), res, requests, parts) && HashedPartsInBlocks(js, blocks, res, parts)
    ensures res.statusLineEndIndex.Some? && res.headerEndIdx >= 0
    ensures HashesInBlocks(blocks, Shown(js, Concat(blocks), res, parts))
  {
    PlannedHead(js, Concat(blocks), res, requests, parts);
    HeadFits(Concat(blocks), res);
    forall r <- Shown(js, Concat(blocks), res, parts) | r.hash
      ensures exists b: nat :: b < |blocks| && InsideBlock(blocks, r, b)
    {
      var k := ShownFrom(js, Concat(blocks), res, parts, r);
    }
  }

  /**
   The whole way of a response: parsed, planned, redacted over the blocks in which it
   arrived, none of them empty, proved and verified. Plain parts may overlap and be split anywhere; hashed
   ones stand alone, whole in one chunk and one block. Whatever the blocks and the order
   of the proofs, the attestor rebuilds exactly the text that redaction leaves, and gets
   none exactly when a hashed part ends where the response ends. For parts that do not
   overlap that text is known byte by byte.
   */
  lemma ResponseEvidence(js: Readers, o: Oracles, alg: Algorithm, blocks: seq<Bytes>, ciphers: seq<Cipher>, records: seq<Bytes>,
                         res: State, requests: seq<Request>, parts: seq<Part>)
    returns (shown: seq<Redaction>, headers: seq<Redaction>)
    requires |records| == |ciphers| == |blocks| && forall b :: 0 <= b < |blocks| ==> RecordOf(blocks, b, records[b])
    requires StarFree(o) && NoneEmpty(blocks) && Planned(js, Concat(blocks), res, requests, parts)
    requires !SomeGroupSplit(js, Concat(blocks), res, parts, |parts|)
    requires HashesAlone(parts) && HashesWhole(js, Concat(blocks), res, parts)
    requires HashedPartsInBlocks(js, blocks, res, parts)
    ensures PartsOf(shown, headers, |Concat(blocks)|) && |shown| > 1
    ensures forall k :: 0 <= k < |parts| ==> PartReveal(js, Concat(blocks), res, parts[k]) in shown
    ensures var answer := AnswerTo(js, Concat(blocks), requests);
            && answer.Redactions? && WellFormed(answer.slices)
            && (EndsInHash(shown, |Concat(blocks)|) ==> Revealed(o, blocks, answer.slices) == Failed)
            && (!EndsInHash(shown, |Concat(blocks)|) ==>
                  var text := TextLeft(o, Concat(blocks), shown, headers);
                  && Seen(o, alg, blocks, ciphers, records, Revealed(o, blocks, answer.slices), text)
                  && (NoOverlap(parts) ==> RedactedText(o, Concat(blocks), shown, headers, text)))
  {
    var total := Concat(blocks);
    PlanExact(js, total, res, requests, parts);
    shown, headers := Shown(js, total, res, parts), Headers(js, total, res, parts);
    forall k | 0 <= k < |parts|
      ensures PartReveal(js, total, res, parts[k]) in shown
    {
      assert RevealsTo(js, total, res, parts, |parts|)[k] in shown;
    }
    PlanClean(js, total, res, requests, parts);
    PlanInBlocks(js, blocks, res, requests, parts);
    PartsSeen(o, alg, blocks, ciphers, records, shown, headers);
    if NoOverlap(parts) && !EndsInHash(shown, |total|) {
      PlanApart(js, total, res, requests, parts);
      SurvivorsExact(o, total, shown, headers);
    }
  }

  /** A hash whose location runs behind the record of its block is refused. */
  lemma HashBehindRecordRefused(alg: Algorithm, ct: Bytes, rp: Bytes, block: RevealedBlock, t: BlockToprf)
    requires t in block.toprfs && t.fromIndex + t.length > |ct|
    ensures PlanPacket(alg, ct, rp, block.toprfs).Err?
  {
    var k :| 0 <= k < |block.toprfs| && block.toprfs[k] == t;
    if AddToprfs(alg, ct, rp, block.toprfs).Ok? {
      HashInBounds(alg, ct, rp, block.toprfs, k);
      assert false;
    }
  }

  // ----- any slices -----

  lemma {:induction false} WideRevealed(blocks: seq<Bytes>, s: Sweep, n: nat, r: RevealedBlock)
    requires n <= |blocks| && |s.text| == |Concat(Wide(blocks))| && r in WideToReveal(blocks, s, n)
    ensures r.block < n && |r.redactedPlaintext| == |blocks[r.block]|
    decreases n
  {
    if r in WideToReveal(blocks, s, n - 1) {
      WideRevealed(blocks, s, n - 1, r);
    } else {
      OffsetNext(Wide(blocks), n - 1);
    }
  }

  /**
   For every list of slices, overlapping, hashed and split anywhere, blocks empty or not,
   and every order of the proofs: what the attestor accepts for a revealed block is the
   redacted text of this block and its padding, and each byte of it is a star, that of the
   record, or that of the text of a hash of exactly the record's bytes at its place.
   */
  lemma EvidenceTrue(o: Oracles, c: Cipher, alg: Algorithm, blocks: seq<Bytes>, rs: seq<Redaction>, r: RevealedBlock,
                     record: Bytes, order: seq<ZkProof>)
    requires StarFree(o) && WellFormed(rs) && Revealed(o, blocks, rs).Blocks? && r in Revealed(o, blocks, rs).revealed
    requires r.block < |blocks| ==> RecordOf(blocks, r.block, record)
    ensures r.block < |blocks| && |r.redactedPlaintext| <= |record|
    ensures var rp, ct := Padded(r.redactedPlaintext, record), Crypt(c, record, 0);
            PlanPacket(alg, ct, rp, r.toprfs).Ok?
            && multiset(order) == multiset(Proofs(c, PlanPacket(alg, ct, rp, r.toprfs).value.proofs)) ==>
              && Rebuild(o, c, ct, order) in {None, Some(rp)}
              && (Rebuild(o, c, ct, order).Some? ==>
                    forall p: nat :: p < |rp| ==> ByteTrue(o, record, r.toprfs, p, rp[p]))
  {
    var s := WideAll(o, Concat(blocks), Concat(Wide(blocks)), rs).value;
    WideRevealed(blocks, s, |blocks|, r);
    var rp, ct := Padded(r.redactedPlaintext, record), Crypt(c, record, 0);
    if PlanPacket(alg, ct, rp, r.toprfs).Ok?
       && multiset(order) == multiset(Proofs(c, PlanPacket(alg, ct, rp, r.toprfs).value.proofs)) {
      RebuiltGenuine(o, c, alg, record, rp, ct, r.toprfs, order);
    }
  }

  // ----- a hash split between blocks -----

  /** The hash of slice `k`, as the block carries it in which the slice begins. */
  function CarriedAs(o: Oracles, blocks: seq<Bytes>, r: Redaction, b: nat): (t: BlockToprf)
    requires b < |blocks| && Offset(blocks, b) <= r.fromIndex <= r.toIndex <= |Concat(blocks)|
  {
    var plaintext := Concat(blocks)[r.fromIndex..r.toIndex];
    BlockToprf(r.fromIndex - Offset(blocks, b), |plaintext|, o.oprf(plaintext), plaintext)
  }

  lemma HashBegins(o: Oracles, blocks: seq<Bytes>, r: Redaction, text: Bytes, b: nat, record: Bytes)
    requires StarFree(o) && b < |blocks| && RecordOf(blocks, b, record) && r.hash && |text| == |Concat(blocks)|
    requires Offset(blocks, b) <= r.fromIndex < Offset(blocks, b) + |blocks[b]| && r.fromIndex < r.toIndex <= |text|
    requires Holds(o, Concat(blocks), r, text)
    ensures |Piece(blocks, text, b)| <= |record| && r.fromIndex - Offset(blocks, b) < |record|
    ensures Padded(Piece(blocks, text, b), record)[r.fromIndex - Offset(blocks, b)] != STAR
  {
    PieceBytes(blocks, text, b, record);
    var length := r.toIndex - r.fromIndex;
    assert text[r.fromIndex] == text[r.fromIndex..r.toIndex][0] == Replacement(o, Concat(blocks), r)[0];
    HashTextStarFree(o, o.oprf(Concat(blocks)[r.fromIndex..r.toIndex]), length, 0);
  }

  /** The bytes behind the first `size` ones spell the rest of the hash's text, and the hash is theirs too. */
  predicate Spells(o: Oracles, record: Bytes, size: nat, t: BlockToprf)
    requires t.fromIndex <= size
  {
    && size <= t.fromIndex + t.length <= |record|
    && o.oprf(record[t.fromIndex..t.fromIndex + t.length]) == t.nullifier
    && record[size..t.fromIndex + t.length] == BinaryHashToStr(o, t.nullifier, t.length)[size - t.fromIndex..]
  }

  /** Proofs for the record, in any order, that the verifier accepts. */
  ghost predicate Rebuilt(o: Oracles, c: Cipher, alg: Algorithm, record: Bytes, rp: Bytes, toprfs: seq<BlockToprf>,
                          order: seq<ZkProof>)
  {
    var ct := Crypt(c, record, 0);
    && PlanPacket(alg, ct, rp, toprfs).Ok?
    && multiset(order) == multiset(Proofs(c, PlanPacket(alg, ct, rp, toprfs).value.proofs))
    && Rebuild(o, c, ct, order).Some?
  }

  lemma RebuiltSpells(o: Oracles, c: Cipher, alg: Algorithm, record: Bytes, rp: Bytes, toprfs: seq<BlockToprf>,
                      order: seq<ZkProof>, t: BlockToprf, size: nat)
    requires StarFree(o) && |rp| == |record| && Rebuilt(o, c, alg, record, rp, toprfs, order)
    requires t in toprfs && t.fromIndex < size <= t.fromIndex + t.length && size <= |record|
    requires rp[t.fromIndex] != STAR && rp[size..] == record[size..]
    ensures Spells(o, record, size, t)
  {
    var i :| 0 <= i < |toprfs| && toprfs[i] == t;
    RebuiltOnlyTrue(o, c, alg, record, rp, Crypt(c, record, 0), toprfs, order, i);
    PaddingSpells(rp, record, size, t.fromIndex, t.fromIndex + t.length);
  }

  lemma PaddingSpells(rp: Bytes, record: Bytes, size: nat, from: nat, until: nat)
    requires from <= size <= until <= |record| == |rp| && rp[size..] == record[size..]
    ensures record[size..until] == rp[from..until][size - from..]
  {
    assert rp[size..until] == rp[size..][..until - size];
    assert record[size..until] == record[size..][..until - size];
  }

  /**
   A hashed slice that runs over the end of the block in which it begins: planning the
   block's record is refused if the slice is longer than the rest of the record. If it
   ends in the padding behind the block's text, the attestor rebuilds the record from the
   proofs only if this padding spells the rest of the hash's text, and the plaintext with
   the padding has the same hash as the slice.
   */
  lemma SplitHashRefused(o: Oracles, c: Cipher, alg: Algorithm, blocks: seq<Bytes>, rs: seq<Redaction>, s: Sweep, k: nat,
                         b: nat, record: Bytes, order: seq<ZkProof>)
    requires StarFree(o) && Ordered(rs, |Concat(blocks)|) && k < |rs| && rs[k].hash
    requires |s.text| == |Concat(blocks)| && s.toprfs == Hashed(o, Concat(blocks), rs) && Holds(o, Concat(blocks), rs[k], s.text)
    requires b < |blocks| && RecordOf(blocks, b, record)
    requires Offset(blocks, b) <= rs[k].fromIndex < Offset(blocks, b) + |blocks[b]| < rs[k].toIndex
    ensures |Piece(blocks, s.text, b)| <= |record|
    ensures var t, block := CarriedAs(o, blocks, rs[k], b), BlockOf(blocks, s, b);
            var rp := Padded(block.redactedPlaintext, record);
            && t in block.toprfs
            && (t.fromIndex + t.length > |record| ==> PlanPacket(alg, Crypt(c, record, 0), rp, block.toprfs).Err?)
            && (Rebuilt(o, c, alg, record, rp, block.toprfs, order) ==> Spells(o, record, |blocks[b]|, t))
  {
    var t, block := CarriedAs(o, blocks, rs[k], b), BlockOf(blocks, s, b);
    PieceBytes(blocks, s.text, b, record);
    var rp := Padded(Piece(blocks, s.text, b), record);
    SplitCarried(o, blocks, rs, s, k, b);
    SplitShown(o, blocks, rs[k], s.text, b, record, rp);
    if t.fromIndex + t.length > |record| {
      HashBehindRecordRefused(alg, Crypt(c, record, 0), rp, block, t);
    }
    if Rebuilt(o, c, alg, record, rp, block.toprfs, order) {
      RebuiltSpells(o, c, alg, record, rp, block.toprfs, order, t, |blocks[b]|);
    }
  }

  lemma SplitCarried(o: Oracles, blocks: seq<Bytes>, rs: seq<Redaction>, s: Sweep, k: nat, b: nat)
    requires Ordered(rs, |Concat(blocks)|) && k < |rs| && rs[k].hash && b < |blocks|
    requires Offset(blocks, b) <= rs[k].fromIndex < Offset(blocks, b) + |blocks[b]|
    requires |s.text| == |Concat(blocks)| && s.toprfs == Hashed(o, Concat(blocks), rs)
    ensures CarriedAs(o, blocks, rs[k], b) in BlockOf(blocks, s, b).toprfs
  {
    var carried := BlockOf(blocks, s, b).toprfs;
    var plaintext := HashCarried(o, blocks, rs, s, k, b);
    assert CarriedAs(o, blocks, rs[k], b)
        == BlockToprf(rs[k].fromIndex - Offset(blocks, b), |plaintext|, o.oprf(plaintext), plaintext);
  }

  lemma SplitShown(o: Oracles, blocks: seq<Bytes>, r: Redaction, text: Bytes, b: nat, record: Bytes, rp: Bytes)
    requires StarFree(o) && b < |blocks| && RecordOf(blocks, b, record) && r.hash && |text| == |Concat(blocks)|
    requires Offset(blocks, b) <= r.fromIndex < Offset(blocks, b) + |blocks[b]| < r.toIndex <= |text|
    requires Holds(o, Concat(blocks), r, text)
    requires |Piece(blocks, text, b)| <= |record| && rp == Padded(Piece(blocks, text, b), record)
    ensures var t := CarriedAs(o, blocks, r, b);
            && t.fromIndex < |blocks[b]| < t.fromIndex + t.length && |blocks[b]| <= |record| == |rp|
            && rp[t.fromIndex] != STAR && rp[|blocks[b]|..] == record[|blocks[b]|..]
  {
    HashBegins(o, blocks, r, text, b, record);
    PieceBytes(blocks, text, b, record);
  }

  /** The blocks "a" and "b", hashed as one: the hash goes with the first, whose record cannot be planned. */
  lemma SplitHashExample(o: Oracles, c: Cipher, alg: Algorithm) returns (block: RevealedBlock)
    requires StarFree(o)
    ensures var result := Revealed(o, [[97], [98]], [Redaction(0, 2, true)]);
            result.Blocks? && block in result.revealed && block.block == 0
    ensures PlanPacket(alg, Crypt(c, [97], 0), block.redactedPlaintext, block.toprfs).Err?
  {
    var blocks, r := [[97], [98]], Redaction(0, 2, true);
    TwoBlocks(blocks);
    var s := WholeHashed(o, blocks, r);
    block := BlockOf(blocks, s, 0);
    SplitCarried(o, blocks, [r], s, 0, 0);
    PieceBytes(blocks, s.text, 0, [97]);
    HashBegins(o, blocks, r, s.text, 0, [97]);
    RevealedExactly(blocks, s, 2, 0);
    HashBehindRecordRefused(alg, Crypt(c, [97], 0), block.redactedPlaintext, block, CarriedAs(o, blocks, r, 0));
  }

  lemma WholeHashed(o: Oracles, blocks: seq<Bytes>, r: Redaction) returns (s: Sweep)
    requires NoneEmpty(blocks) && |Concat(blocks)| == 2 && r == Redaction(0, 2, true)
    ensures |s.text| == 2 && Revealed(o, blocks, [r]) == Blocks(ToReveal(blocks, s, |blocks|))
    ensures s.toprfs == Hashed(o, Concat(blocks), [r]) && Holds(o, Concat(blocks), r, s.text)
  {
    RevealedFlat(o, blocks, [r]);
    OrderedSweep(o, Concat(blocks), [r]);
    s := SweepAll(o, Concat(blocks), [r]).value;
  }

  lemma TwoBlocks(blocks: seq<Bytes>)
    requires blocks == [[97], [98]]
    ensures NoneEmpty(blocks) && Concat(blocks) == [97, 98] && Offset(blocks, 0) == 0
  {
    assert Concat([[98]]) == [98] + Concat([[98]][1..]) && blocks[1..] == [[98]];
  }
}
