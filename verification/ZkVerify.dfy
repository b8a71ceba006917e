/**
 `verifyZkPacket`: a redacted plaintext rebuilt from proofs. The proof check itself is
 ideal: it accepts just what a circuit that decrypts with the record's keystream allows.
 */
module ZkVerify {
  import opened ByteData
  import opened Redaction
  import opened BlockReveal
  import opened ZkPlan

  datatype CipherBase = Cipher(crypt: (nat, Byte) -> Byte)

  /**
   A stream cipher under a fixed key and nonce, byte by byte: applying it twice at a
   position gives the byte back, as XOR with the keystream's byte does.
   */
  type Cipher = c: CipherBase | forall i: nat, b: Byte :: Involutive(c, i, b)
    ghost witness Cipher((i, b) => b)

  predicate Involutive(c: CipherBase, i: nat, b: Byte) {
    c.crypt(i, c.crypt(i, b)) == b
  }

  /** Encryption, and decryption, of bytes from the given offset on. */
  function Crypt(c: Cipher, text: Bytes, offset: nat): (r: Bytes)
    ensures |r| == |text|
    ensures forall i :: 0 <= i < |text| ==> r[i] == c.crypt(offset + i, text[i])
  {
    seq(|text|, i requires 0 <= i < |text| => c.crypt(offset + i, text[i]))
  }

  lemma CryptTwice(c: Cipher, text: Bytes, offset: nat)
    ensures Crypt(c, Crypt(c, text, offset), offset) == text
  {
    forall i | 0 <= i < |text|
      ensures Crypt(c, Crypt(c, text, offset), offset)[i] == text[i]
    {
      assert Involutive(c, offset + i, text[i]);
    }
  }

  datatype ZkProof = ZkProof(
    startIdx: nat, redactedPlaintext: Bytes, decryptedRedactedCiphertext: Bytes, toprf: Option<BlockToprf>)

  predicate InLocation(toprf: Option<BlockToprf>, i: int) {
    toprf.Some? && toprf.value.fromIndex <= i < toprf.value.fromIndex + toprf.value.length
  }

  /** What an accepted proof establishes about a redacted ciphertext chunk. */
  predicate IdealProof(o: Oracles, c: Cipher, chunk: Bytes, offset: nat, decrypted: Bytes, toprf: Option<BlockToprf>) {
    && |decrypted| == |chunk|
    && (forall i :: 0 <= i < |chunk| && !InLocation(toprf, i) ==>
          decrypted[i] == c.crypt(offset + i, chunk[i]))
    && (toprf.Some? ==>
          var t := toprf.value;
          && t.fromIndex + t.length <= |chunk|
          && t.nullifier == o.oprf(Crypt(c, chunk, offset)[t.fromIndex..t.fromIndex + t.length]))
  }

  /** The text to compare: hashed places are not the plaintext, and count as redacted. */
  function ComparePlaintext(proof: ZkProof): (text: Bytes)
    ensures |text| == |proof.redactedPlaintext|
  {
    var text := proof.redactedPlaintext;
    seq(|text|, i requires 0 <= i < |text| => if InLocation(proof.toprf, i) then STAR else text[i])
  }

  /** The text at the hash's place is the beginning of the hash's text. */
  predicate HashShown(o: Oracles, proof: ZkProof) {
    proof.toprf.Some? ==>
      var t := proof.toprf.value;
      var shown := Take(proof.redactedPlaintext, t.fromIndex, t.fromIndex + t.length);
      shown <= BinaryHashToStr(o, t.nullifier, t.length)
  }

  function Chunk(ct: Bytes, proof: ZkProof): Bytes {
    RedactCiphertext(Take(ct, proof.startIdx, proof.startIdx + |proof.redactedPlaintext|), proof.redactedPlaintext)
  }

  /** All checks on a proof, and that its text fits into the record. */
  predicate Accepted(o: Oracles, c: Cipher, ct: Bytes, proof: ZkProof) {
    && HashShown(o, proof)
    && Congruent(ComparePlaintext(proof), proof.decryptedRedactedCiphertext)
    && IdealProof(o, c, Chunk(ct, proof), proof.startIdx, proof.decryptedRedactedCiphertext, proof.toprf)
    && proof.startIdx + |proof.redactedPlaintext| <= |ct|
  }

  /** The text with the proof's text set at its place. */
  function Set(text: Bytes, proof: ZkProof): (r: Bytes)
    requires proof.startIdx + |proof.redactedPlaintext| <= |text|
    ensures |r| == |text|
  {
    text[..proof.startIdx] + proof.redactedPlaintext + text[proof.startIdx + |proof.redactedPlaintext|..]
  }

  /** The text after the first `n` proofs, in the order in which their checks finish. */
  function RebuildTo(o: Oracles, c: Cipher, ct: Bytes, proofs: seq<ZkProof>, n: nat): (text: Option<Bytes>)
    requires n <= |proofs|
    ensures text.Some? ==> |text.value| == |ct|
  {
    if n == 0 then Some(Fill(STAR, |ct|))
    else
      match RebuildTo(o, c, ct, proofs, n - 1)
      case None => None
      case Some(text) => if Accepted(o, c, ct, proofs[n - 1]) then Some(Set(text, proofs[n - 1])) else None
  }

  function Rebuild(o: Oracles, c: Cipher, ct: Bytes, proofs: seq<ZkProof>): (text: Option<Bytes>)
    ensures text.Some? ==> |text.value| == |ct|
  {
    RebuildTo(o, c, ct, proofs, |proofs|)
  }

  // ----- the methods -----

  /** `verifyProofPacket`: checks one proof and writes its text. */
  method VerifyProofPacket(o: Oracles, c: Cipher, ct: Bytes, proof: ZkProof, rebuilt: array<Byte>) returns (ok: bool)
    requires rebuilt.Length == |ct|
    modifies rebuilt
    ensures ok == Accepted(o, c, ct, proof)
    ensures ok ==> rebuilt[..] == Set(old(rebuilt[..]), proof)
    ensures !ok ==> rebuilt[..] == old(rebuilt[..])
  {
    var redacted := proof.redactedPlaintext;
    var ciphertextChunk := RedactCiphertext(Take(ct, proof.startIdx, proof.startIdx + |redacted|), redacted);
    if proof.toprf.Some? {
      var t := proof.toprf.value;
      var txtHash := Take(redacted, t.fromIndex, t.fromIndex + t.length);
      var nullifierStr := BinaryHashToStr(o, t.nullifier, t.length);
      if txtHash != nullifierStr[..|txtHash|] {
        return false;
      }
    }
    var congruent := IsRedactionCongruent(ComparePlaintext(proof), proof.decryptedRedactedCiphertext);
    if !congruent {
      return false;
    }
    if !IdealProof(o, c, ciphertextChunk, proof.startIdx, proof.decryptedRedactedCiphertext, proof.toprf) {
      return false;
    }
    if proof.startIdx + |redacted| > rebuilt.Length {
      return false;  // setting behind the end throws
    }
    ghost var before := rebuilt[..];
    forall i | 0 <= i < |redacted| {
      rebuilt[proof.startIdx + i] := redacted[i];
    }
    assert rebuilt[..] == Set(before, proof);
    return true;
  }

  lemma RebuildNext(o: Oracles, c: Cipher, ct: Bytes, proofs: seq<ZkProof>, k: nat, text: Bytes)
    requires k < |proofs| && RebuildTo(o, c, ct, proofs, k) == Some(text)
    ensures Accepted(o, c, ct, proofs[k]) ==> RebuildTo(o, c, ct, proofs, k + 1) == Some(Set(text, proofs[k]))
    ensures !Accepted(o, c, ct, proofs[k]) ==> RebuildTo(o, c, ct, proofs, |proofs|) == None
  {
    if !Accepted(o, c, ct, proofs[k]) {
      RebuildStaysFailed(o, c, ct, proofs, k + 1, |proofs|);
    }
  }

  /** `verifyZkPacket`, for the proofs in the order in which their checks finish. */
  method VerifyZkPacket(o: Oracles, c: Cipher, ct: Bytes, proofs: seq<ZkProof>) returns (text: Option<Bytes>)
    ensures text == Rebuild(o, c, ct, proofs)
  {
    var rebuilt := new Byte[|ct|](_ => STAR);
    assert rebuilt[..] == Fill(STAR, |ct|);
    for k := 0 to |proofs|
      invariant RebuildTo(o, c, ct, proofs, k) == Some(rebuilt[..])
    {
      RebuildNext(o, c, ct, proofs, k, rebuilt[..]);
      var ok := VerifyProofPacket(o, c, ct, proofs[k], rebuilt);
      if !ok {
        return None;
      }
    }
    return Some(rebuilt[..]);
  }

  lemma {:induction false} RebuildStaysFailed(o: Oracles, c: Cipher, ct: Bytes, proofs: seq<ZkProof>, k: nat, n: nat)
    requires k <= n <= |proofs| && RebuildTo(o, c, ct, proofs, k) == None
    ensures RebuildTo(o, c, ct, proofs, n) == None
  {
    if k < n {
      RebuildStaysFailed(o, c, ct, proofs, k, n - 1);
    }
  }

  // ----- acceptance does not depend on the order -----

  predicate AllAccepted(o: Oracles, c: Cipher, ct: Bytes, proofs: seq<ZkProof>, n: nat)
    requires n <= |proofs|
  {
    forall k :: 0 <= k < n ==> Accepted(o, c, ct, proofs[k])
  }

  lemma AcceptedExactlyWhen(o: Oracles, c: Cipher, ct: Bytes, proofs: seq<ZkProof>, n: nat)
    requires n <= |proofs|
    ensures RebuildTo(o, c, ct, proofs, n).Some? <==> AllAccepted(o, c, ct, proofs, n)
  {
    NoneYet(o, c, ct, proofs);
    for k := 0 to n
      invariant Agrees(o, c, ct, proofs, k)
    {
      OneMore(o, c, ct, proofs, k, k + 1);
    }
  }

  ghost predicate Agrees(o: Oracles, c: Cipher, ct: Bytes, proofs: seq<ZkProof>, n: nat)
    requires n <= |proofs|
  {
    RebuildTo(o, c, ct, proofs, n).Some? == AllAccepted(o, c, ct, proofs, n)
  }

  lemma NoneYet(o: Oracles, c: Cipher, ct: Bytes, proofs: seq<ZkProof>)
    ensures Agrees(o, c, ct, proofs, 0)
  {
  }

  lemma OneMore(o: Oracles, c: Cipher, ct: Bytes, proofs: seq<ZkProof>, n: nat, m: nat)
    requires n < |proofs| && m == n + 1 && Agrees(o, c, ct, proofs, n)
    ensures Agrees(o, c, ct, proofs, m)
  {
    OneMoreAccepted(o, c, ct, proofs, n);
    OneMoreRebuilt(o, c, ct, proofs, n);
  }

  lemma OneMoreRebuilt(o: Oracles, c: Cipher, ct: Bytes, proofs: seq<ZkProof>, n: nat)
    requires n < |proofs|
    ensures RebuildTo(o, c, ct, proofs, n + 1).Some? <==>
            RebuildTo(o, c, ct, proofs, n).Some? && Accepted(o, c, ct, proofs[n])
  {
  }

  lemma OneMoreAccepted(o: Oracles, c: Cipher, ct: Bytes, proofs: seq<ZkProof>, n: nat)
    requires n < |proofs|
    ensures AllAccepted(o, c, ct, proofs, n + 1) <==>
            AllAccepted(o, c, ct, proofs, n) && Accepted(o, c, ct, proofs[n])
  {
  }

  // ----- soundness -----

  predicate Writes(proof: ZkProof, p: int) {
    proof.startIdx <= p < proof.startIdx + |proof.redactedPlaintext|
  }

  /**
   A byte that a proof may show at a position: a star, the decryption of the ciphertext
   byte, or, at the proof's hash, the matching byte of the text of the hash of exactly
   the decrypted bytes there.
   */
  predicate Genuine(o: Oracles, c: Cipher, ct: Bytes, proof: ZkProof, p: nat, b: Byte) {
    || b == STAR
    || (p < |ct| && b == c.crypt(p, ct[p]))
    || (proof.toprf.Some?
        && var t := proof.toprf.value;
           var at := proof.startIdx + t.fromIndex;
           && at <= p < at + t.length <= |ct|
           && t.nullifier == o.oprf(Crypt(c, ct, 0)[at..at + t.length])
           && b == BinaryHashToStr(o, t.nullifier, t.length)[p - at])
  }

  lemma AcceptedGenuine(o: Oracles, c: Cipher, ct: Bytes, proof: ZkProof, p: nat)
    requires StarFree(o) && Accepted(o, c, ct, proof) && Writes(proof, p)
    ensures Genuine(o, c, ct, proof, p, proof.redactedPlaintext[p - proof.startIdx])
  {
    var i := p - proof.startIdx;
    var b, chunk := proof.redactedPlaintext[i], Chunk(ct, proof);
    var plain := Take(ct, proof.startIdx, proof.startIdx + |proof.redactedPlaintext|);
    assert plain[i] == ct[p];
    if b != STAR {
      assert chunk[i] == ct[p];
      if InLocation(proof.toprf, i) {
        LocationGenuine(o, c, ct, proof, p);
      } else {
        assert ComparePlaintext(proof)[i] == b;
      }
    }
  }

  /** Without stars in the hash's text, the chunk keeps the ciphertext there. */
  lemma LocationPlain(o: Oracles, c: Cipher, ct: Bytes, proof: ZkProof, text: Bytes)
    requires StarFree(o) && proof.toprf.Some? && proof.startIdx + |proof.redactedPlaintext| <= |ct|
    requires var t := proof.toprf.value;
             && t.fromIndex + t.length <= |proof.redactedPlaintext|
             && text == BinaryHashToStr(o, t.nullifier, t.length)
             && proof.redactedPlaintext[t.fromIndex..t.fromIndex + t.length] == text
    ensures var t, s := proof.toprf.value, proof.startIdx;
            Crypt(c, Chunk(ct, proof), s)[t.fromIndex..t.fromIndex + t.length]
            == Crypt(c, ct, 0)[s + t.fromIndex..s + t.fromIndex + t.length]
  {
    var t, rp, s := proof.toprf.value, proof.redactedPlaintext, proof.startIdx;
    var left := Crypt(c, Chunk(ct, proof), s)[t.fromIndex..t.fromIndex + t.length];
    var right := Crypt(c, ct, 0)[s + t.fromIndex..s + t.fromIndex + t.length];
    forall j | 0 <= j < t.length
      ensures left[j] == right[j]
    {
      assert rp[t.fromIndex..t.fromIndex + t.length][j] == text[j];
      HashTextStarFree(o, t.nullifier, t.length, j);
      assert Chunk(ct, proof)[t.fromIndex + j] == ct[s + t.fromIndex + j];
    }
  }

  lemma ChunkSize(ct: Bytes, proof: ZkProof)
    requires proof.startIdx + |proof.redactedPlaintext| <= |ct|
    ensures |Chunk(ct, proof)| == |proof.redactedPlaintext|
  {
  }

  lemma LocationGenuine(o: Oracles, c: Cipher, ct: Bytes, proof: ZkProof, p: nat)
    requires StarFree(o) && Accepted(o, c, ct, proof) && Writes(proof, p)
    requires InLocation(proof.toprf, p - proof.startIdx)
    ensures Genuine(o, c, ct, proof, p, proof.redactedPlaintext[p - proof.startIdx])
  {
    var t, rp := proof.toprf.value, proof.redactedPlaintext;
    var text := BinaryHashToStr(o, t.nullifier, t.length);
    ChunkSize(ct, proof);
    assert Take(rp, t.fromIndex, t.fromIndex + t.length) == rp[t.fromIndex..t.fromIndex + t.length] == text;
    LocationPlain(o, c, ct, proof, text);
    assert rp[p - proof.startIdx] == text[p - proof.startIdx - t.fromIndex];
  }

  // ----- what is accepted -----

  /** A byte that is no star is the decrypted one; for a star the circuit is given a star. */
  predicate ByteRight(c: Cipher, ct: Bytes, proof: ZkProof, i: nat)
    requires proof.startIdx + |proof.redactedPlaintext| <= |ct|
    requires i < |proof.redactedPlaintext| == |proof.decryptedRedactedCiphertext|
  {
    var p, shown := proof.startIdx + i, proof.redactedPlaintext[i];
    if shown == 42 then proof.decryptedRedactedCiphertext[i] == c.crypt(p, 42)
    else shown == proof.decryptedRedactedCiphertext[i] == c.crypt(p, ct[p])
  }

  /** The hash of the decrypted bytes at the location, and its text there. */
  predicate HashRight(o: Oracles, c: Cipher, ct: Bytes, proof: ZkProof, t: BlockToprf)
    requires proof.startIdx + |proof.redactedPlaintext| <= |ct|
  {
    && t.fromIndex + t.length <= |proof.redactedPlaintext|
    && proof.redactedPlaintext[t.fromIndex..t.fromIndex + t.length] == BinaryHashToStr(o, t.nullifier, t.length)
    && t.nullifier == o.oprf(Crypt(c, ct, 0)[proof.startIdx + t.fromIndex..proof.startIdx + t.fromIndex + t.length])
  }

  /** Everything the proof shows is right. */
  predicate ProofRight(o: Oracles, c: Cipher, ct: Bytes, proof: ZkProof) {
    && proof.startIdx + |proof.redactedPlaintext| <= |ct|
    && |proof.redactedPlaintext| == |proof.decryptedRedactedCiphertext|
    && (forall i :: 0 <= i < |proof.redactedPlaintext| && !InLocation(proof.toprf, i) ==> ByteRight(c, ct, proof, i))
    && (proof.toprf.Some? ==> HashRight(o, c, ct, proof, proof.toprf.value))
  }

  lemma ByteExactly(o: Oracles, c: Cipher, ct: Bytes, proof: ZkProof, i: nat)
    requires proof.startIdx + |proof.redactedPlaintext| <= |ct|
    requires i < |proof.redactedPlaintext| == |proof.decryptedRedactedCiphertext| && !InLocation(proof.toprf, i)
    ensures ByteRight(c, ct, proof, i) <==>
            && (ComparePlaintext(proof)[i] == STAR || ComparePlaintext(proof)[i] == proof.decryptedRedactedCiphertext[i])
            && i < |Chunk(ct, proof)|
            && proof.decryptedRedactedCiphertext[i] == c.crypt(proof.startIdx + i, Chunk(ct, proof)[i])
  {
    ChunkSize(ct, proof);
    assert Take(ct, proof.startIdx, proof.startIdx + |proof.redactedPlaintext|)[i] == ct[proof.startIdx + i];
  }

  lemma HashExactly(o: Oracles, c: Cipher, ct: Bytes, proof: ZkProof, t: BlockToprf)
    requires StarFree(o) && proof.startIdx + |proof.redactedPlaintext| <= |ct| && proof.toprf == Some(t)
    ensures HashRight(o, c, ct, proof, t) <==>
            && HashShown(o, proof) && t.fromIndex + t.length <= |Chunk(ct, proof)|
            && t.nullifier == o.oprf(Crypt(c, Chunk(ct, proof), proof.startIdx)[t.fromIndex..t.fromIndex + t.length])
  {
    ChunkSize(ct, proof);
    if t.fromIndex + t.length <= |proof.redactedPlaintext| {
      var shown, text := proof.redactedPlaintext[t.fromIndex..t.fromIndex + t.length], BinaryHashToStr(o, t.nullifier, t.length);
      assert shown == Take(proof.redactedPlaintext, t.fromIndex, t.fromIndex + t.length);
      assert shown <= text <==> shown == text;
      if shown == text {
        LocationPlain(o, c, ct, proof, text);
      }
    }
  }

  /**
   A proof is accepted if and only if its text lies in the record, each byte of it outside
   its hash is a star or the decrypted one, and at its hash stands the text of the hash of
   the decrypted bytes there.
   */
  lemma ProofAcceptedExactly(o: Oracles, c: Cipher, ct: Bytes, proof: ZkProof)
    requires StarFree(o)
    ensures Accepted(o, c, ct, proof) <==> ProofRight(o, c, ct, proof)
  {
    if proof.startIdx + |proof.redactedPlaintext| <= |ct| {
      ChunkSize(ct, proof);
      if |proof.redactedPlaintext| == |proof.decryptedRedactedCiphertext| {
        forall i | 0 <= i < |proof.redactedPlaintext| && !InLocation(proof.toprf, i)
          ensures ByteRight(c, ct, proof, i) <==>
            && (ComparePlaintext(proof)[i] == STAR || ComparePlaintext(proof)[i] == proof.decryptedRedactedCiphertext[i])
            && proof.decryptedRedactedCiphertext[i] == c.crypt(proof.startIdx + i, Chunk(ct, proof)[i])
        {
          ByteExactly(o, c, ct, proof, i);
        }
        if proof.toprf.Some? {
          HashExactly(o, c, ct, proof, proof.toprf.value);
        }
      }
    }
  }

  /** The byte is a star, or genuine for one of the first `n` proofs. */
  predicate GenuineAmong(o: Oracles, c: Cipher, ct: Bytes, proofs: seq<ZkProof>, n: nat, p: nat, b: Byte)
    requires n <= |proofs|
  {
    b == STAR || exists k :: 0 <= k < n && Writes(proofs[k], p) && Genuine(o, c, ct, proofs[k], p, b)
  }

  /** The byte at a position is so after the first `n` proofs, if these are accepted. */
  ghost predicate SoundAfter(o: Oracles, c: Cipher, ct: Bytes, proofs: seq<ZkProof>, n: nat, p: nat)
    requires n <= |proofs| && p < |ct|
  {
    var text := RebuildTo(o, c, ct, proofs, n);
    text.Some? ==> GenuineAmong(o, c, ct, proofs, n, p, text.value[p])
  }

  lemma SoundStep(o: Oracles, c: Cipher, ct: Bytes, proofs: seq<ZkProof>, n: nat, m: nat, p: nat)
    requires n < |proofs| && m == n + 1 && p < |ct| && StarFree(o) && SoundAfter(o, c, ct, proofs, n, p)
    ensures SoundAfter(o, c, ct, proofs, m, p)
  {
    if RebuildTo(o, c, ct, proofs, m).Some? {
      var prior, text := LastSet(o, c, ct, proofs, n, m);
      SoundNext(o, c, ct, proofs, n, m, p, prior, text);
    }
  }

  /**
   Whatever proofs are sent, overlapping or not, and in whatever order their checks
   finish: every byte of an accepted record is a star, or genuine for one of the proofs.
   */
  lemma VerifierSound(o: Oracles, c: Cipher, ct: Bytes, proofs: seq<ZkProof>, n: nat, p: nat)
    requires n <= |proofs| && StarFree(o) && RebuildTo(o, c, ct, proofs, n).Some? && p < |ct|
    ensures GenuineAmong(o, c, ct, proofs, n, p, RebuildTo(o, c, ct, proofs, n).value[p])
  {
    for k := 0 to n
      invariant SoundAfter(o, c, ct, proofs, k, p)
    {
      SoundStep(o, c, ct, proofs, k, k + 1, p);
    }
  }

  /** One more proof set on a text that is genuine so far. */
  lemma SoundNext(o: Oracles, c: Cipher, ct: Bytes, proofs: seq<ZkProof>, n: nat, m: nat, p: nat, prior: Bytes, text: Bytes)
    requires n < |proofs| && m == n + 1 && |prior| == |ct| && p < |ct| && StarFree(o)
    requires Accepted(o, c, ct, proofs[n]) && text == Set(prior, proofs[n])
    requires GenuineAmong(o, c, ct, proofs, n, p, prior[p])
    ensures GenuineAmong(o, c, ct, proofs, m, p, text[p])
  {
    SetByte(prior, proofs[n], p);
    if Writes(proofs[n], p) {
      AcceptedGenuine(o, c, ct, proofs[n], p);
    }
  }

  lemma LastSet(o: Oracles, c: Cipher, ct: Bytes, proofs: seq<ZkProof>, n: nat, m: nat) returns (prior: Bytes, text: Bytes)
    requires n < |proofs| && m == n + 1 && RebuildTo(o, c, ct, proofs, m).Some?
    ensures RebuildTo(o, c, ct, proofs, n) == Some(prior) && RebuildTo(o, c, ct, proofs, m) == Some(text)
    ensures |prior| == |text| == |ct| && Accepted(o, c, ct, proofs[n]) && text == Set(prior, proofs[n])
  {
    prior, text := RebuildTo(o, c, ct, proofs, n).value, RebuildTo(o, c, ct, proofs, m).value;
  }

  lemma SetByte(text: Bytes, proof: ZkProof, p: nat)
    requires p < |text| && proof.startIdx + |proof.redactedPlaintext| <= |text|
    ensures Set(text, proof)[p] == if Writes(proof, p) then proof.redactedPlaintext[p - proof.startIdx] else text[p]
  {
  }
}
