/**
 Hashed parts that keep apart from all others, among plain parts that may overlap: where
 their hashes are recorded, and what the rest of the text holds.
 */
module HashedParts {
  import opened ByteData
  import opened Redaction
  import opened ResponseRedactions
  import opened Survivors
  import opened ResponseText

  predicate KeepsApart(a: Redaction, b: Redaction) {
    a.hash || b.hash ==> Apart(a, b)
  }

  /** Hashed slices overlap nothing; plain ones may overlap each other. */
  predicate HashesApart(rs: seq<Redaction>) {
    forall i, j :: 0 <= i < j < |rs| ==> KeepsApart(rs[i], rs[j])
  }

  predicate HashesUnsplit(shown: seq<Redaction>, headers: seq<Redaction>) {
    forall r <- shown :: r.hash ==> !Split(headers, r)
  }

  /** Non-empty parts of which the hashed ones stand alone, with no chunk header in them. */
  predicate CleanHashes(shown: seq<Redaction>, headers: seq<Redaction>, length: nat) {
    && PartsOf(shown, headers, length) && NotEmpty(shown)
    && HashesApart(shown) && HashesUnsplit(shown, headers)
  }

  // ----- sorting -----

  lemma SortKeepsApart(rs: seq<Redaction>)
    requires HashesApart(rs)
    ensures HashesApart(SortByEnd(rs))
  {
    assert forall i, j :: 0 <= i < j < |rs| ==> KeepsApart(rs[i], rs[j]);
    SortPairwise(rs, KeepsApart);
  }

  lemma TwoHashed(rs: seq<Redaction>, a: Redaction, b: Redaction)
    requires HashesApart(rs) && a in rs && b in rs && (a.hash || b.hash)
    ensures a == b || Apart(a, b)
  {
    var i, j :| 0 <= i < |rs| && 0 <= j < |rs| && rs[i] == a && rs[j] == b;
  }

  // ----- all slices -----

  /** A header or a stretch of the complement keeps apart from every hashed part. */
  lemma PlainApart(shown: seq<Redaction>, headers: seq<Redaction>, length: nat, q: Redaction, r: Redaction)
    requires CleanHashes(shown, headers, length) && |shown| > 1 && r in shown && r.hash
    requires q in headers || q in Complement(SortByEnd(shown), length)
    ensures Apart(q, r)
  {
    if q in headers {
      var s :| s in shown && HeaderIn(s, q);
      TwoHashed(shown, s, r);
    } else {
      SortedParts(shown, headers, length);
      ComplementApart(shown, SortByEnd(shown), length, q, r);
    }
  }

  lemma ComplementApart(shown: seq<Redaction>, sorted: seq<Redaction>, length: nat, q: Redaction, r: Redaction)
    requires HashesApart(shown) && r in shown && r.hash && q in Complement(sorted, length)
    requires SortedByEnd(sorted) && NotEmpty(sorted) && sorted != [] && forall s :: s in sorted <==> s in shown
    ensures Apart(q, r)
  {
    var j :| 0 <= j < |sorted| && sorted[j] == r;
    if q in Gaps(sorted, |sorted|) {
      forall i | 0 <= i < |sorted|
        ensures sorted[i] == r || Apart(sorted[i], r)
      {
        TwoHashed(shown, sorted[i], r);
      }
      GapApart(sorted, q, j);
    } else {
      LastEndIs(sorted);
    }
  }

  lemma {:induction false} HashRevealsApart(sorted: seq<Redaction>)
    requires HashesApart(sorted)
    ensures HashesApart(HashReveals(sorted))
  {
    if sorted != [] {
      var n := |sorted| - 1;
      HashRevealsApart(sorted[..n]);
      HashRevealsBoth(sorted[..n]);
      var prior := HashReveals(sorted[..n]);
      forall i | 0 <= i < |prior|
        ensures KeepsApart(prior[i], sorted[n])
      {
        assert prior[i] in sorted[..n];
        var k :| 0 <= k < n && sorted[..n][k] == prior[i];
        assert KeepsApart(sorted[k], sorted[n]);
      }
    }
  }

  lemma PlainThenHashes(plain: seq<Redaction>, hashes: seq<Redaction>)
    requires forall q <- plain :: !q.hash
    requires HashesApart(hashes) && forall q <- plain, r <- hashes :: Apart(q, r)
    ensures HashesApart(plain + hashes)
  {
    var all := plain + hashes;
    forall i, j | 0 <= i < j < |all|
      ensures KeepsApart(all[i], all[j])
    {
      if i < |plain| <= j {
        assert plain[i] in plain && hashes[j - |plain|] in hashes;
      } else if j < |plain| {
        assert plain[i] in plain && plain[j] in plain;
      }
    }
  }

  lemma SlicesApart(shown: seq<Redaction>, headers: seq<Redaction>, length: nat)
    requires CleanHashes(shown, headers, length) && |shown| > 1
    ensures HashesApart(RedactionsFor(shown, headers, length))
  {
    var sorted := SortByEnd(shown);
    var plain, hashes := headers + Complement(sorted, length), HashReveals(sorted);
    SortedParts(shown, headers, length);
    SortKeepsApart(shown);
    HashRevealsApart(sorted);
    HashRevealsBoth(sorted);
    forall q <- plain
      ensures !q.hash
    {
      if q in headers {
        var r :| r in shown && HeaderIn(r, q);
      } else {
        StretchUnhashed(sorted, length, q);
      }
    }
    forall q <- plain, r <- hashes
      ensures Apart(q, r)
    {
      PlainApart(shown, headers, length, q, r);
    }
    PlainThenHashes(plain, hashes);
    SortKeepsApart(plain + hashes);
  }

  /** Every slice in front of a hashed one ends where that begins, or before. */
  predicate AheadOfHashes(rs: seq<Redaction>) {
    forall k :: 0 <= k < |rs| && rs[k].hash ==> EndsBy(rs[..k], rs[k].fromIndex)
  }

  predicate HashesNotEmpty(rs: seq<Redaction>) {
    forall k :: 0 <= k < |rs| && rs[k].hash ==> rs[k].fromIndex < rs[k].toIndex
  }

  lemma SliceSize(shown: seq<Redaction>, headers: seq<Redaction>, length: nat, q: Redaction)
    requires PartsOf(shown, headers, length) && NotEmpty(shown) && |shown| > 1
    requires q in AllSlices(shown, headers, length)
    ensures q.fromIndex < q.toIndex || q.toIndex == length
  {
    SliceFacts(shown, headers, length, q);
    if q in headers {
      var r :| r in shown && HeaderIn(r, q);
    } else if !q.hash {
      SortedParts(shown, headers, length);
      var sorted := SortByEnd(shown);
      if q in Gaps(sorted, |sorted|) {
        GapFacts(sorted, |sorted|, q);
      }
    }
  }

  ghost predicate SameHashes(rs: seq<Redaction>, shown: seq<Redaction>) {
    forall r :: r in HashReveals(rs) <==> r in shown && r.hash
  }

  lemma HashesProduced(shown: seq<Redaction>, headers: seq<Redaction>, length: nat)
    requires PartsOf(shown, headers, length) && NotEmpty(shown) && |shown| > 1
    ensures SameHashes(RedactionsFor(shown, headers, length), shown)
    ensures HashesNotEmpty(RedactionsFor(shown, headers, length))
  {
    var rs := RedactionsFor(shown, headers, length);
    forall r: Redaction
      ensures r in HashReveals(rs) <==> r in shown && r.hash
    {
      HashRevealsAre(rs, r);
      HashProduced(shown, headers, length, r);
    }
    assert forall k :: 0 <= k < |rs| && rs[k].hash ==> rs[k] in HashReveals(rs) by {
      HashRevealsBoth(rs);
    }
  }

  lemma HashProduced(shown: seq<Redaction>, headers: seq<Redaction>, length: nat, r: Redaction)
    requires PartsOf(shown, headers, length) && |shown| > 1
    ensures r in RedactionsFor(shown, headers, length) && r.hash <==> r in shown && r.hash
  {
    SortedSlices(shown, headers, length);
    if r in AllSlices(shown, headers, length) {
      SliceFacts(shown, headers, length, r);
    } else {
      HashListed(shown, headers, length, r);
    }
  }

  lemma HashListed(shown: seq<Redaction>, headers: seq<Redaction>, length: nat, r: Redaction)
    requires PartsOf(shown, headers, length) && r !in AllSlices(shown, headers, length)
    ensures !(r in shown && r.hash)
  {
    SortedParts(shown, headers, length);
    HashRevealsAre(SortByEnd(shown), r);
  }

  lemma ApartAhead(rs: seq<Redaction>, length: nat, k: nat)
    requires SortedByEnd(rs) && WellFormed(rs) && HashesApart(rs) && HashesNotEmpty(rs)
    requires k < |rs| && rs[k].hash && rs[k].toIndex < length
    requires forall i :: 0 <= i < |rs| ==> rs[i].fromIndex < rs[i].toIndex || rs[i].toIndex == length
    ensures EndsBy(rs[..k], rs[k].fromIndex)
  {
    forall i | 0 <= i < k
      ensures rs[i].toIndex <= rs[k].fromIndex
    {
      assert KeepsApart(rs[i], rs[k]);
    }
  }

  lemma SlicesAhead(shown: seq<Redaction>, headers: seq<Redaction>, length: nat)
    requires CleanHashes(shown, headers, length) && |shown| > 1 && !EndsInHash(shown, length)
    ensures AheadOfHashes(RedactionsFor(shown, headers, length))
  {
    var rs := RedactionsFor(shown, headers, length);
    SlicesApart(shown, headers, length);
    SortedSlices(shown, headers, length);
    HashesProduced(shown, headers, length);
    forall i | 0 <= i < |rs|
      ensures rs[i].fromIndex < rs[i].toIndex || rs[i].toIndex == length
    {
      assert rs[i] in rs;
      SliceSize(shown, headers, length, rs[i]);
    }
    forall k | 0 <= k < |rs| && rs[k].hash
      ensures EndsBy(rs[..k], rs[k].fromIndex)
    {
      HashBeforeEnd(shown, headers, length, rs[k]);
      ApartAhead(rs, length, k);
    }
  }

  lemma HashBeforeEnd(shown: seq<Redaction>, headers: seq<Redaction>, length: nat, r: Redaction)
    requires PartsOf(shown, headers, length) && |shown| > 1 && !EndsInHash(shown, length)
    requires r in RedactionsFor(shown, headers, length) && r.hash
    ensures r.toIndex < length
  {
    SortedSlices(shown, headers, length);
    SliceFacts(shown, headers, length, r);
  }

  // ----- the hashes -----

  lemma AheadBefore(rs: seq<Redaction>, n: nat)
    requires AheadOfHashes(rs) && n <= |rs|
    ensures AheadOfHashes(rs[..n])
  {
    forall k | 0 <= k < n && rs[..n][k].hash
      ensures EndsBy(rs[..n][..k], rs[..n][k].fromIndex)
    {
      assert rs[..n][..k] == rs[..k];
    }
  }

  lemma HashStep(o: Oracles, total: Bytes, rs: seq<Redaction>)
    requires rs != [] && WellFormed(rs) && SweepAll(o, total, rs).Some? && AheadOfHashes(rs) && HashesNotEmpty(rs)
    ensures var n := |rs| - 1;
            && SweepAll(o, total, rs[..n]).Some? && rs[n].toIndex <= |total|
            && SweepAll(o, total, rs).value.toprfs
               == SweepAll(o, total, rs[..n]).value.toprfs + HashOf(o, total, rs[n])
  {
    var n := |rs| - 1;
    SweepEnds(o, total, rs[..n]);
    SweepEnds(o, total, rs);
    if rs[n].hash {
      SortedReach(rs[..n], rs[n].fromIndex);
      SweepAhead(o, total, SweepAll(o, total, rs[..n]).value, rs[n]);
    }
  }

  lemma OrderedSnoc(hs: seq<Redaction>, r: Redaction, n: nat)
    requires Ordered(hs, n) && r.fromIndex < r.toIndex <= n && EndsBy(hs, r.fromIndex)
    ensures Ordered(hs + [r], n)
  {
  }

  lemma HashedSnoc(o: Oracles, total: Bytes, hs: seq<Redaction>, r: Redaction)
    requires Ordered(hs, |total|) && Ordered(hs + [r], |total|) && r.fromIndex <= r.toIndex <= |total|
    ensures Hashed(o, total, hs + [r]) == Hashed(o, total, hs) + HashOf(o, total, r)
  {
    assert (hs + [r])[..|hs|] == hs;
  }

  lemma {:induction false} HashesRecorded(o: Oracles, total: Bytes, rs: seq<Redaction>)
    requires WellFormed(rs) && SweepAll(o, total, rs).Some? && AheadOfHashes(rs) && HashesNotEmpty(rs)
    ensures var hs := HashReveals(rs);
            && Ordered(hs, |total|) && SweepAll(o, total, rs).value.toprfs == Hashed(o, total, hs)
  {
    if rs != [] {
      var n := |rs| - 1;
      AheadBefore(rs, n);
      HashStep(o, total, rs);
      HashesRecorded(o, total, rs[..n]);
      var hs := HashReveals(rs[..n]);
      if rs[n].hash {
        assert EndsBy(hs, rs[n].fromIndex) by {
          HashRevealsBoth(rs[..n]);
          forall i | 0 <= i < |hs|
            ensures hs[i].toIndex <= rs[n].fromIndex
          {
            assert hs[i] in rs[..n];
          }
        }
        OrderedSnoc(hs, rs[n], |total|);
        HashedSnoc(o, total, hs, rs[n]);
      } else {
        assert HashReveals(rs) == hs;
      }
    }
  }

  /** Hashed slices hold the text of their hash; all else is a star or as it was. */
  predicate HashesAndStars(o: Oracles, total: Bytes, hs: seq<Redaction>, text: Bytes)
    requires Ordered(hs, |total|)
  {
    && |text| == |total|
    && (forall k :: 0 <= k < |hs| ==> Holds(o, total, hs[k], text))
    && (forall p :: 0 <= p < |total| && !Covered(hs, p) ==> text[p] == STAR || text[p] == total[p])
  }

  lemma ElseStarOrTrue(o: Oracles, total: Bytes, rs: seq<Redaction>, text: Bytes, p: nat)
    requires Left(o, total, rs, text) && p < |total|
    requires forall r <- rs :: r.hash ==> !Covers(r, p)
    ensures text[p] == STAR || text[p] == total[p]
  {
    assert Decided(o, total, rs, text, p);
    var k := FirstBehind(rs, p);
    if k < |rs| {
      assert rs[k] in rs;
    }
  }

  /** Every hash is recorded, in order and where its slice begins, and its text stands there. */
  predicate HashesTrue(o: Oracles, total: Bytes, rs: seq<Redaction>)
    requires WellFormed(rs)
  {
    var hs, end := HashReveals(rs), SweepAll(o, total, rs);
    && Ordered(hs, |total|) && end.Some? && end.value.toprfs == Hashed(o, total, hs)
    && HashesAndStars(o, total, hs, end.value.text)
  }

  lemma HashesHeld(o: Oracles, total: Bytes, rs: seq<Redaction>)
    requires WellFormed(rs) && SortedByEnd(rs) && SweepAll(o, total, rs).Some? && AheadOfHashes(rs)
    requires HashesNotEmpty(rs)
    ensures HashesTrue(o, total, rs)
  {
    HashesRecorded(o, total, rs);
    var text := SweepAll(o, total, rs).value.text;
    SweepEnds(o, total, rs);
    forall p | 0 <= p < |total|
      ensures Decided(o, total, rs, text, p)
    {
      SortedSweep(o, total, rs, p);
    }
    HashesLeft(o, total, rs, text);
  }

  lemma HashesLeft(o: Oracles, total: Bytes, rs: seq<Redaction>, text: Bytes)
    requires Left(o, total, rs, text) && AheadOfHashes(rs) && Ordered(HashReveals(rs), |total|)
    ensures HashesAndStars(o, total, HashReveals(rs), text)
  {
    var hs := HashReveals(rs);
    HashRevealsBoth(rs);
    forall k | 0 <= k < |hs|
      ensures Holds(o, total, hs[k], text)
    {
      assert hs[k] in rs;
      var i :| 0 <= i < |rs| && rs[i] == hs[k];
      SliceHeld(o, total, rs, text, i, rs[i].fromIndex);
      HoldsFrom(o, total, text, rs[i]);
    }
    forall p | 0 <= p < |total| && !Covered(hs, p)
      ensures text[p] == STAR || text[p] == total[p]
    {
      NotCovered(hs, p);
      assert forall r <- rs :: r.hash ==> r in hs;
      ElseStarOrTrue(o, total, rs, text, p);
    }
  }

  /**
   When hashed parts stand alone, every hash is recorded where its part begins, its text
   stands over the whole part, and everything else is a star or as it was.
   */
  lemma HashesKept(o: Oracles, total: Bytes, shown: seq<Redaction>, headers: seq<Redaction>)
    requires CleanHashes(shown, headers, |total|) && |shown| > 1 && !EndsInHash(shown, |total|)
    ensures var rs := RedactionsFor(shown, headers, |total|);
            WellFormed(rs) && HashesTrue(o, total, rs) && SameHashes(rs, shown)
  {
    RedactsExactlyWhen(o, total, shown, headers);
    SlicesAhead(shown, headers, |total|);
    HashesProduced(shown, headers, |total|);
    HashesHeld(o, total, RedactionsFor(shown, headers, |total|));
  }
}
