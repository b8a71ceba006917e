/**
 What redaction leaves of a response: the bytes that no part holds, the parts that keep
 apart, and the hashed parts.
 */
module ResponseText {
  import opened ByteData
  import opened Redaction
  import opened ResponseRedactions
  import opened Survivors

  /** The text of a response after redaction. */
  function TextLeft(o: Oracles, total: Bytes, shown: seq<Redaction>, headers: seq<Redaction>): (text: Bytes)
    requires PartsOf(shown, headers, |total|) && |shown| > 1 && !EndsInHash(shown, |total|)
    ensures |text| == |total|
  {
    RedactsExactlyWhen(o, total, shown, headers);
    SweepAll(o, total, RedactionsFor(shown, headers, |total|)).value.text
  }

  /** Every byte of the text is decided by the first slice that ends behind it. */
  predicate Left(o: Oracles, total: Bytes, rs: seq<Redaction>, text: Bytes) {
    && WellFormed(rs) && SortedByEnd(rs) && |text| == |total| && EndsBy(rs, |total|)
    && forall p :: 0 <= p < |total| ==> Decided(o, total, rs, text, p)
  }

  lemma LeftText(o: Oracles, total: Bytes, shown: seq<Redaction>, headers: seq<Redaction>)
    requires PartsOf(shown, headers, |total|) && |shown| > 1 && !EndsInHash(shown, |total|)
    ensures Left(o, total, RedactionsFor(shown, headers, |total|), TextLeft(o, total, shown, headers))
  {
    var rs := RedactionsFor(shown, headers, |total|);
    RedactsExactlyWhen(o, total, shown, headers);
    SortedSlices(shown, headers, |total|);
    forall p | 0 <= p < |total|
      ensures Decided(o, total, rs, TextLeft(o, total, shown, headers), p)
    {
      SortedSweep(o, total, rs, p);
    }
  }

  /** A part of a response, and what redaction leaves of it. */
  predicate TextOf(o: Oracles, total: Bytes, shown: seq<Redaction>, headers: seq<Redaction>, text: Bytes) {
    && PartsOf(shown, headers, |total|) && |shown| > 1
    && Left(o, total, RedactionsFor(shown, headers, |total|), text)
  }

  lemma BestDecides(o: Oracles, total: Bytes, shown: seq<Redaction>, headers: seq<Redaction>, text: Bytes, p: nat)
    requires TextOf(o, total, shown, headers, text) && p < |total|
    ensures var b := Best(AllSlices(shown, headers, |total|), p);
            && (b == None || p < b.value.fromIndex ==> text[p] == total[p])
            && (b.Some? && Covers(b.value, p) && !b.value.hash ==> text[p] == STAR)
  {
    var rs := RedactionsFor(shown, headers, |total|);
    assert Decided(o, total, rs, text, p);
    BestSorted(AllSlices(shown, headers, |total|), p);
  }

  /** The byte at the position, from the slice that decides and where the cursor stood in front of it. */
  predicate DecidedBy(o: Oracles, total: Bytes, all: seq<Redaction>, text: Bytes, p: nat)
    requires p < |total| == |text|
  {
    var b := Best(all, p);
    if b == None || p < b.value.fromIndex then text[p] == total[p]
    else
      var start := Max(b.value.fromIndex, EndBefore(all, p));
      b.value.toIndex <= |total| && text[p] == ByteOf(o, total, b.value, start, p)
  }

  lemma SortedDecides(o: Oracles, total: Bytes, all: seq<Redaction>, rs: seq<Redaction>, text: Bytes, p: nat)
    requires Left(o, total, rs, text) && p < |total| && rs == SortByEnd(all) && forall q :: q in rs <==> q in all
    ensures DecidedBy(o, total, all, text, p)
  {
    assert Decided(o, total, rs, text, p);
    BestSorted(all, p);
    CursorAt(rs, p);
    SameEndBefore(rs, all, p);
  }

  lemma {:induction false} FirstIs(rs: seq<Redaction>, k: nat, q: nat, p: nat)
    requires k < |rs| && EndsBy(rs[..k], q) && q <= p < rs[k].toIndex
    ensures FirstBehind(rs, p) == k
  {
    var f := FirstBehind(rs, p);
    assert f <= k;
    assert forall i :: 0 <= i < k ==> rs[..k][i] == rs[i];
  }

  lemma StartsAt(prior: seq<Redaction>, from: nat, q: nat)
    requires WellFormed(prior) && EndsBy(prior, q) && from <= q
    requires q == from || exists i :: 0 <= i < |prior| && prior[i].toIndex == q
    ensures Max(Reach(prior), from) == q
  {
    SortedReach(prior, q);
  }

  lemma SliceDecides(o: Oracles, total: Bytes, rs: seq<Redaction>, text: Bytes, k: nat, q: nat, p: nat)
    requires Left(o, total, rs, text) && k < |rs|
    requires rs[k].fromIndex <= q <= p < rs[k].toIndex && EndsBy(rs[..k], q)
    requires q == rs[k].fromIndex || exists i :: 0 <= i < k && rs[i].toIndex == q
    ensures p < |text| && text[p] == Replacement(o, total, rs[k])[p - q]
  {
    assert Decided(o, total, rs, text, p);
    FirstIs(rs, k, q, p);
    assert Max(Reach(rs[..k]), rs[k].fromIndex) == q by {
      if q != rs[k].fromIndex {
        var i :| 0 <= i < k && rs[i].toIndex == q;
        assert rs[..k][i].toIndex == q;
      }
      StartsAt(rs[..k], rs[k].fromIndex, q);
    }
  }

  /** The text of the slice's hash from a position on. */
  predicate HashFrom(o: Oracles, total: Bytes, text: Bytes, r: Redaction, q: nat)
    requires r.fromIndex <= q && r.toIndex <= |total| == |text|
  {
    forall p :: q <= p < r.toIndex ==> text[p] == Replacement(o, total, r)[p - q]
  }

  lemma SliceHeld(o: Oracles, total: Bytes, rs: seq<Redaction>, text: Bytes, k: nat, q: nat)
    requires Left(o, total, rs, text) && k < |rs|
    requires rs[k].fromIndex <= q && EndsBy(rs[..k], q)
    requires q == rs[k].fromIndex || exists i :: 0 <= i < k && rs[i].toIndex == q
    ensures HashFrom(o, total, text, rs[k], q)
  {
    forall p | q <= p < rs[k].toIndex
      ensures text[p] == Replacement(o, total, rs[k])[p - q]
    {
      SliceDecides(o, total, rs, text, k, q, p);
    }
  }

  lemma BestAt(shown: seq<Redaction>, headers: seq<Redaction>, length: nat, r: Redaction, q: nat) returns (k: nat)
    requires PartsOf(shown, headers, length) && |shown| > 1
    requires Best(AllSlices(shown, headers, length), q) == Some(r)
    ensures var rs := RedactionsFor(shown, headers, length);
            && k < |rs| && rs[k] == r && EndsBy(rs[..k], q) && r.toIndex > q
            && forall h <- headers :: h.toIndex <= q ==> exists i :: 0 <= i < k && rs[i] == h
  {
    var rs := RedactionsFor(shown, headers, length);
    BestSorted(AllSlices(shown, headers, length), q);
    k := FirstBehind(rs, q);
    forall h <- headers | h.toIndex <= q
      ensures exists i :: 0 <= i < k && rs[i] == h
    {
      HeaderProduced(shown, headers, length, h);
      StandsBefore(rs, h, q);
    }
  }

  lemma HeaderProduced(shown: seq<Redaction>, headers: seq<Redaction>, length: nat, h: Redaction)
    requires PartsOf(shown, headers, length) && |shown| > 1 && h in headers
    ensures h in RedactionsFor(shown, headers, length) && SortedByEnd(RedactionsFor(shown, headers, length))
  {
    SortedSlices(shown, headers, length);
    assert h in AllSlices(shown, headers, length);
  }

  /**
   The text of a hashed slice begins where the slices in front of it end: behind a chunk
   header or, with nothing in the way, at its own beginning.
   */
  lemma HashDecides(o: Oracles, total: Bytes, shown: seq<Redaction>, headers: seq<Redaction>, text: Bytes,
                    r: Redaction, q: nat)
    requires TextOf(o, total, shown, headers, text)
    requires Best(AllSlices(shown, headers, |total|), q) == Some(r) && r.fromIndex <= q
    requires q == r.fromIndex || exists h <- headers :: h.toIndex == q
    ensures r.fromIndex <= r.toIndex <= |total| && HashFrom(o, total, text, r, q)
  {
    var k := BestAt(shown, headers, |total|, r, q);
    SliceHeld(o, total, RedactionsFor(shown, headers, |total|), text, k, q);
  }

  lemma HoldsFrom(o: Oracles, total: Bytes, text: Bytes, r: Redaction)
    requires r.fromIndex <= r.toIndex <= |total| == |text| && HashFrom(o, total, text, r, r.fromIndex)
    ensures Holds(o, total, r, text)
  {
    assert forall p :: r.fromIndex <= p < r.toIndex ==> text[p] == Replacement(o, total, r)[p - r.fromIndex];
  }

  /**
   Of the text that redaction leaves, for every list of reveals: at every position the
   slice decides that ends first among those that end behind it. A byte in front of that
   slice stays; a byte in it is a star, or a byte of the text of its hash, which begins
   with the slice, or where the last slice ends that ends in front of the byte.
   */
  lemma ByteDecided(o: Oracles, total: Bytes, shown: seq<Redaction>, headers: seq<Redaction>, p: nat)
    requires PartsOf(shown, headers, |total|) && |shown| > 1 && !EndsInHash(shown, |total|) && p < |total|
    ensures DecidedBy(o, total, AllSlices(shown, headers, |total|), TextLeft(o, total, shown, headers), p)
  {
    LeftText(o, total, shown, headers);
    SortedSlices(shown, headers, |total|);
    SortedDecides(o, total, AllSlices(shown, headers, |total|), RedactionsFor(shown, headers, |total|),
                  TextLeft(o, total, shown, headers), p);
  }

  // ----- bytes that no part holds -----

  predicate Following(rs: seq<Redaction>) {
    && WellFormed(rs)
    && forall i, k :: 0 <= i < k < |rs| ==> rs[i].toIndex <= rs[k].fromIndex
  }

  lemma {:induction false} GapsFollow(sorted: seq<Redaction>, n: nat)
    requires n <= |sorted| && SortedByEnd(sorted) && WellFormed(sorted)
    ensures Following(Gaps(sorted, n))
  {
    if n > 0 {
      GapsFollow(sorted, n - 1);
      var prior := Gaps(sorted, n - 1);
      forall i | 0 <= i < |prior|
        ensures n > 1 && prior[i].toIndex <= sorted[n - 2].toIndex
      {
        GapFacts(sorted, n - 1, prior[i]);
      }
    }
  }

  lemma {:induction false} BestFollowing(rs: seq<Redaction>, g: Redaction, p: nat)
    requires Following(rs) && g in rs && Covers(g, p)
    ensures Best(rs, p) == Some(g)
  {
    var n := |rs| - 1;
    assert rs == rs[..n] + [rs[n]];
    if g in rs[..n] {
      BestFollowing(rs[..n], g, p);
    } else {
      assert forall q <- rs[..n] :: q.toIndex <= p;
    }
  }

  lemma {:induction false} GapAt(sorted: seq<Redaction>, n: nat, g: Redaction) returns (k: nat)
    requires n <= |sorted| && g in Gaps(sorted, n)
    ensures k < n && g.toIndex == sorted[k].fromIndex
    ensures g.fromIndex == if k == 0 then 0 else sorted[k - 1].toIndex
  {
    if g in Gaps(sorted, n - 1) {
      k := GapAt(sorted, n - 1, g);
    } else {
      k := n - 1;
    }
  }

  lemma SortedParts(shown: seq<Redaction>, headers: seq<Redaction>, length: nat)
    requires PartsOf(shown, headers, length)
    ensures var sorted := SortByEnd(shown);
            && SortedByEnd(sorted) && WellFormed(sorted) && |sorted| == |shown|
            && multiset(sorted) == multiset(shown) && (forall r :: r in sorted <==> r in shown)
            && LastEnd(sorted) <= length
  {
    var sorted := SortByEnd(shown);
    SortSorts(shown);
    SameSize(shown, sorted);
    forall k | 0 <= k < |sorted|
      ensures sorted[k].fromIndex <= sorted[k].toIndex <= length
    {
      assert sorted[k] in shown;
    }
  }

  /** A position in no reveal lies in a stretch of the complement. */
  lemma StretchAround(shown: seq<Redaction>, headers: seq<Redaction>, length: nat, p: nat) returns (g: Redaction)
    requires PartsOf(shown, headers, length) && |shown| > 1 && p < length && !Covered(shown, p)
    ensures g in Complement(SortByEnd(shown), length) && Covers(g, p)
  {
    var sorted := SortByEnd(shown);
    SortedParts(shown, headers, length);
    if p < LastEnd(sorted) {
      CoveredSameElements(sorted, shown, p);
      g := GapAround(sorted, |sorted|, p);
    } else {
      g := Redaction(LastEnd(sorted), length, false);
    }
  }

  lemma StretchIsBest(shown: seq<Redaction>, headers: seq<Redaction>, length: nat, g: Redaction, p: nat)
    requires PartsOf(shown, headers, length) && |shown| > 1
    requires g in Complement(SortByEnd(shown), length) && Covers(g, p)
    ensures Best(Complement(SortByEnd(shown), length), p) == Some(g)
  {
    var sorted := SortByEnd(shown);
    SortedParts(shown, headers, length);
    GapsFollow(sorted, |sorted|);
    var gaps := Gaps(sorted, |sorted|);
    forall i | 0 <= i < |gaps|
      ensures gaps[i].toIndex <= LastEnd(sorted)
    {
      GapFacts(sorted, |sorted|, gaps[i]);
    }
    BestFollowing(Complement(sorted, length), g, p);
  }

  lemma GapEndsFirst(sorted: seq<Redaction>, g: Redaction, p: nat, j: nat)
    requires SortedByEnd(sorted) && WellFormed(sorted) && g in Gaps(sorted, |sorted|) && Covers(g, p)
    requires j < |sorted| && sorted[j].toIndex > p
    ensures g.toIndex <= sorted[j].toIndex
  {
    var k := GapAt(sorted, |sorted|, g);
    assert j >= k;
  }

  /** No reveal behind an uncovered position ends before the stretch around it does. */
  lemma StretchEndsFirst(shown: seq<Redaction>, headers: seq<Redaction>, length: nat, g: Redaction, p: nat, r: Redaction)
    requires PartsOf(shown, headers, length) && |shown| > 1
    requires g in Complement(SortByEnd(shown), length) && Covers(g, p)
    requires r in shown && r.toIndex > p
    ensures g.toIndex <= r.toIndex
  {
    var sorted := SortByEnd(shown);
    SortedParts(shown, headers, length);
    var j :| 0 <= j < |sorted| && sorted[j] == r;
    if g in Gaps(sorted, |sorted|) {
      GapEndsFirst(sorted, g, p, j);
    } else {
      LastEndIs(sorted);
    }
  }

  /** Apart from chunk headers, the stretch decides about an uncovered position. */
  lemma UncoveredBest(shown: seq<Redaction>, headers: seq<Redaction>, length: nat, g: Redaction, p: nat)
    requires PartsOf(shown, headers, length) && |shown| > 1 && !Covered(shown, p)
    requires g in Complement(SortByEnd(shown), length) && Covers(g, p)
    ensures Best(AllSlices(shown, headers, length), p) == Better(Best(headers, p), Some(g))
  {
    var sorted := SortByEnd(shown);
    StretchIsBest(shown, headers, length, g, p);
    BestConcat(headers + Complement(sorted, length), HashReveals(sorted), p);
    BestConcat(headers, Complement(sorted, length), p);
    var b := Best(HashReveals(sorted), p);
    if b.Some? {
      SortedParts(shown, headers, length);
      HashRevealsBoth(sorted);
      StretchEndsFirst(shown, headers, length, g, p, b.value);
    }
  }

  /** A chunk header stands between the position and the end of the stretch. */
  predicate HeaderBetween(headers: seq<Redaction>, p: nat, g: Redaction) {
    exists h <- headers :: p < h.fromIndex && h.toIndex <= g.toIndex
  }

  lemma HeadersCover(shown: seq<Redaction>, headers: seq<Redaction>, length: nat, h: Redaction, p: nat)
    requires PartsOf(shown, headers, length) && h in headers && Covers(h, p)
    ensures Covered(shown, p)
  {
    var r :| r in shown && HeaderIn(r, h);
    var k :| 0 <= k < |shown| && shown[k] == r;
    assert Covers(shown[k], p);
  }

  /** The slice that decides: a chunk header behind the position, or the stretch. */
  lemma StretchBest(shown: seq<Redaction>, headers: seq<Redaction>, length: nat, g: Redaction, p: nat)
    requires PartsOf(shown, headers, length) && |shown| > 1 && !Covered(shown, p)
    requires g in Complement(SortByEnd(shown), length) && Covers(g, p)
    ensures !g.hash
    ensures var b := Best(AllSlices(shown, headers, length), p);
            b.Some? && if HeaderBetween(headers, p, g) then p < b.value.fromIndex else b.value == g
  {
    UncoveredBest(shown, headers, length, g, p);
    SortedParts(shown, headers, length);
    StretchUnhashed(SortByEnd(shown), length, g);
    BestHeader(shown, headers, length, p);
  }

  lemma StretchDecides(o: Oracles, total: Bytes, shown: seq<Redaction>, headers: seq<Redaction>, text: Bytes,
                       g: Redaction, p: nat)
    requires TextOf(o, total, shown, headers, text) && p < |total| && !Covered(shown, p)
    requires g in Complement(SortByEnd(shown), |total|) && Covers(g, p)
    ensures text[p] == if HeaderBetween(headers, p, g) then total[p] else STAR
  {
    StretchBest(shown, headers, |total|, g, p);
    BestDecides(o, total, shown, headers, text, p);
  }

  /**
   For every list of reveals, overlapping or not, hashed or not: a byte that none of them
   holds becomes a star, unless a chunk header stands between it and the end of the
   stretch around it. Then it stays.
   */
  lemma UncoveredExactly(o: Oracles, total: Bytes, shown: seq<Redaction>, headers: seq<Redaction>, g: Redaction, p: nat)
    requires PartsOf(shown, headers, |total|) && |shown| > 1 && !EndsInHash(shown, |total|)
    requires p < |total| && !Covered(shown, p)
    requires g in Complement(SortByEnd(shown), |total|) && Covers(g, p)
    ensures TextLeft(o, total, shown, headers)[p] == if HeaderBetween(headers, p, g) then total[p] else STAR
  {
    LeftText(o, total, shown, headers);
    StretchDecides(o, total, shown, headers, TextLeft(o, total, shown, headers), g, p);
  }

  lemma BestHeader(shown: seq<Redaction>, headers: seq<Redaction>, length: nat, p: nat)
    requires PartsOf(shown, headers, length) && !Covered(shown, p)
    ensures var b := Best(headers, p);
            && (b.Some? ==> b.value in headers && p < b.value.fromIndex)
            && forall h <- headers :: p < h.fromIndex ==> b.Some? && b.value.toIndex <= h.toIndex
  {
    var b := Best(headers, p);
    if b.Some? && Covers(b.value, p) {
      HeadersCover(shown, headers, length, b.value, p);
    }
    forall h <- headers | p < h.fromIndex
      ensures b.Some? && b.value.toIndex <= h.toIndex
    {
      var r :| r in shown && HeaderIn(r, h);
    }
  }

  lemma StretchUnhashed(sorted: seq<Redaction>, length: nat, g: Redaction)
    requires SortedByEnd(sorted) && WellFormed(sorted) && g in Complement(sorted, length)
    ensures !g.hash
  {
    if g in Gaps(sorted, |sorted|) {
      GapFacts(sorted, |sorted|, g);
    }
  }

  // ----- parts that keep apart -----

  predicate Apart(a: Redaction, b: Redaction) {
    a.toIndex <= b.fromIndex || b.toIndex <= a.fromIndex
  }

  predicate PairwiseApart(rs: seq<Redaction>) {
    forall i, j :: 0 <= i < j < |rs| ==> Apart(rs[i], rs[j])
  }

  predicate NotEmpty(rs: seq<Redaction>) {
    forall r <- rs :: r.fromIndex < r.toIndex
  }

  /** Non-empty parts that do not overlap, with chunk headers anywhere inside them. */
  predicate ApartParts(shown: seq<Redaction>, headers: seq<Redaction>, length: nat) {
    PartsOf(shown, headers, length) && NotEmpty(shown) && PairwiseApart(shown) && PairwiseApart(headers)
  }

  lemma TwoOf(rs: seq<Redaction>, a: Redaction, b: Redaction)
    requires PairwiseApart(rs) && a in rs && b in rs
    ensures a == b || Apart(a, b)
  {
    var i, j :| 0 <= i < |rs| && 0 <= j < |rs| && rs[i] == a && rs[j] == b;
  }

  lemma GapApart(sorted: seq<Redaction>, g: Redaction, j: nat)
    requires SortedByEnd(sorted) && NotEmpty(sorted) && WellFormed(sorted) && j < |sorted|
    requires forall i :: 0 <= i < |sorted| ==> sorted[i] == sorted[j] || Apart(sorted[i], sorted[j])
    requires g in Gaps(sorted, |sorted|)
    ensures Apart(g, sorted[j])
  {
    var k := GapAt(sorted, |sorted|, g);
    if j < k {
      assert sorted[j].toIndex <= sorted[k - 1].toIndex;
    } else {
      assert sorted[k].toIndex <= sorted[j].toIndex && sorted[k] in sorted && sorted[j] in sorted;
    }
  }

  /** Every stretch of the complement keeps apart from every part. */
  lemma StretchApart(shown: seq<Redaction>, headers: seq<Redaction>, length: nat, g: Redaction, r: Redaction)
    requires ApartParts(shown, headers, length) && |shown| > 1
    requires g in Complement(SortByEnd(shown), length) && r in shown
    ensures Apart(g, r)
    ensures g.fromIndex < g.toIndex || g.toIndex == length
  {
    var sorted := SortByEnd(shown);
    SortedParts(shown, headers, length);
    var j :| 0 <= j < |sorted| && sorted[j] == r;
    if g in Gaps(sorted, |sorted|) {
      GapFacts(sorted, |sorted|, g);
      forall i | 0 <= i < |sorted|
        ensures sorted[i] == r || Apart(sorted[i], r)
      {
        assert sorted[i] in shown;
        TwoOf(shown, sorted[i], r);
      }
      GapApart(sorted, g, j);
    } else {
      LastEndIs(sorted);
    }
  }

  /** A header of the part, the part itself, or a slice behind the part. */
  predicate Near(headers: seq<Redaction>, length: nat, r: Redaction, q: Redaction) {
    || (q in headers && HeaderIn(r, q))
    || (q == r && r.hash)
    || (r.toIndex <= q.fromIndex && (q.fromIndex < q.toIndex || q.toIndex == length))
  }

  lemma SlicesNear(shown: seq<Redaction>, headers: seq<Redaction>, length: nat, r: Redaction, q: Redaction, p: nat)
    requires ApartParts(shown, headers, length) && |shown| > 1
    requires r in shown && Covers(r, p) && q in AllSlices(shown, headers, length) && q.toIndex > p
    ensures Near(headers, length, r, q)
  {
    SliceFacts(shown, headers, length, q);
    if q.hash {
      TwoOf(shown, q, r);
      assert q.fromIndex < q.toIndex;
    } else if q in headers {
      var s :| s in shown && HeaderIn(s, q);
      TwoOf(shown, s, r);
    } else {
      StretchApart(shown, headers, length, q, r);
    }
  }

  lemma BestNear(shown: seq<Redaction>, headers: seq<Redaction>, length: nat, r: Redaction, p: nat)
    requires ApartParts(shown, headers, length) && |shown| > 1 && r in shown && Covers(r, p)
    ensures var b := Best(AllSlices(shown, headers, length), p);
            && (b.Some? ==> Near(headers, length, r, b.value) && b.value.toIndex > p)
            && (forall h <- headers :: h.toIndex > p ==> b.Some? && b.value.toIndex <= h.toIndex)
            && (r.hash ==> b.Some? && b.value.toIndex <= r.toIndex)
  {
    var all := AllSlices(shown, headers, length);
    var b := Best(all, p);
    if b.Some? {
      SlicesNear(shown, headers, length, r, b.value, p);
    }
    assert forall h <- headers :: h in all;
    if r.hash {
      SortedParts(shown, headers, length);
      HashRevealsBoth(SortByEnd(shown));
      assert r in all;
    }
  }

  /** The part has a chunk header behind the position. */
  predicate HeaderAhead(headers: seq<Redaction>, r: Redaction, p: nat) {
    exists h <- headers :: HeaderIn(r, h) && p < h.fromIndex
  }

  lemma HeaderByte(o: Oracles, total: Bytes, shown: seq<Redaction>, headers: seq<Redaction>, text: Bytes, h: Redaction, p: nat)
    requires ApartParts(shown, headers, |total|) && TextOf(o, total, shown, headers, text)
    requires h in headers && Covers(h, p) && p < |total|
    ensures text[p] == STAR
  {
    var r :| r in shown && HeaderIn(r, h);
    BestNear(shown, headers, |total|, r, p);
    var b := Best(AllSlices(shown, headers, |total|), p).value;
    TwoOf(headers, b, h);
    BestDecides(o, total, shown, headers, text, p);
  }

  lemma NotCovered(rs: seq<Redaction>, p: int)
    requires !Covered(rs, p)
    ensures forall q <- rs :: !Covers(q, p)
  {
    forall q <- rs
      ensures !Covers(q, p)
    {
      var k :| 0 <= k < |rs| && rs[k] == q;
    }
  }

  lemma KeptByte(o: Oracles, total: Bytes, shown: seq<Redaction>, headers: seq<Redaction>, text: Bytes, r: Redaction, p: nat)
    requires ApartParts(shown, headers, |total|) && TextOf(o, total, shown, headers, text)
    requires r in shown && Covers(r, p) && p < |total| && !Covered(headers, p)
    requires !r.hash || HeaderAhead(headers, r, p)
    ensures text[p] == total[p]
  {
    BestNear(shown, headers, |total|, r, p);
    var b := Best(AllSlices(shown, headers, |total|), p);
    NotCovered(headers, p);
    BestDecides(o, total, shown, headers, text, p);
  }

  lemma HashIsBest(shown: seq<Redaction>, headers: seq<Redaction>, length: nat, r: Redaction, q: nat)
    requires ApartParts(shown, headers, length) && |shown| > 1 && !EndsInHash(shown, length)
    requires r in shown && r.hash && Covers(r, q) && !HeaderAhead(headers, r, q) && !Covered(headers, q)
    ensures Best(AllSlices(shown, headers, length), q) == Some(r)
  {
    BestNear(shown, headers, length, r, q);
    var b := Best(AllSlices(shown, headers, length), q).value;
    NotCovered(headers, q);
  }

  lemma UncoveredByte(o: Oracles, total: Bytes, shown: seq<Redaction>, headers: seq<Redaction>, text: Bytes, p: nat)
    requires ApartParts(shown, headers, |total|) && TextOf(o, total, shown, headers, text)
    requires p < |total| && !Covered(shown, p)
    ensures text[p] == STAR
  {
    var g := StretchAround(shown, headers, |total|, p);
    StretchDecides(o, total, shown, headers, text, g, p);
    if HeaderBetween(headers, p, g) {
      var h :| h in headers && p < h.fromIndex && h.toIndex <= g.toIndex;
      var r :| r in shown && HeaderIn(r, h);
      StretchApart(shown, headers, |total|, g, r);
      assert false;
    }
  }

  predicate Split(headers: seq<Redaction>, r: Redaction) {
    exists h <- headers :: HeaderIn(r, h)
  }

  /** The last chunk header of a part. */
  predicate LastHeader(headers: seq<Redaction>, r: Redaction, h: Redaction) {
    h in headers && HeaderIn(r, h) && forall x <- headers :: HeaderIn(r, x) ==> x.toIndex <= h.toIndex
  }

  predicate FirstHeader(headers: seq<Redaction>, r: Redaction, h: Redaction) {
    h in headers && HeaderIn(r, h) && forall x <- headers :: HeaderIn(r, x) ==> h.fromIndex <= x.fromIndex
  }

  /** Of a hashed part: the text of its hash, or as much of it as fits behind its last header. */
  predicate HashLeft(o: Oracles, total: Bytes, headers: seq<Redaction>, text: Bytes, r: Redaction)
    requires r.fromIndex <= r.toIndex <= |total| == |text|
  {
    && (!Split(headers, r) ==> Holds(o, total, r, text))
    && forall h <- headers :: LastHeader(headers, r, h) ==> HashFrom(o, total, text, r, h.toIndex)
  }

  predicate Kept(shown: seq<Redaction>, headers: seq<Redaction>, p: nat) {
    !Covered(headers, p) && exists r <- shown :: Covers(r, p) && (!r.hash || HeaderAhead(headers, r, p))
  }

  /** Byte by byte, what redaction leaves of a response. */
  predicate RedactedText(o: Oracles, total: Bytes, shown: seq<Redaction>, headers: seq<Redaction>, text: Bytes)
    requires PartsOf(shown, headers, |total|)
  {
    && |text| == |total|
    && (forall p :: 0 <= p < |total| && (!Covered(shown, p) || Covered(headers, p)) ==> text[p] == STAR)
    && (forall p :: 0 <= p < |total| && Kept(shown, headers, p) ==> text[p] == total[p])
    && (forall r <- shown :: r.hash ==> HashLeft(o, total, headers, text, r))
  }

  lemma FreeAt(headers: seq<Redaction>, r: Redaction, h: Redaction)
    requires PairwiseApart(headers) && LastHeader(headers, r, h)
    requires forall x <- headers :: x.fromIndex < x.toIndex && (HeaderIn(r, x) || Apart(r, x))
    ensures Covers(r, h.toIndex) && !Covered(headers, h.toIndex)
  {
    if Covered(headers, h.toIndex) {
      var k :| 0 <= k < |headers| && Covers(headers[k], h.toIndex);
      var x := headers[k];
      TwoOf(headers, x, h);
      assert false;
    }
  }

  lemma HeadersNear(shown: seq<Redaction>, headers: seq<Redaction>, length: nat, r: Redaction)
    requires ApartParts(shown, headers, length) && r in shown
    ensures forall x <- headers :: x.fromIndex < x.toIndex && (HeaderIn(r, x) || Apart(r, x))
  {
    forall x <- headers
      ensures x.fromIndex < x.toIndex && (HeaderIn(r, x) || Apart(r, x))
    {
      var s :| s in shown && HeaderIn(s, x);
      TwoOf(shown, s, r);
    }
  }

  lemma HashFirst(shown: seq<Redaction>, headers: seq<Redaction>, length: nat, r: Redaction)
    requires ApartParts(shown, headers, length) && |shown| > 1 && !EndsInHash(shown, length)
    requires r in shown && r.hash && !Split(headers, r)
    ensures Best(AllSlices(shown, headers, length), r.fromIndex) == Some(r)
  {
    HeadersNear(shown, headers, length, r);
    assert !Covered(headers, r.fromIndex);
    HashIsBest(shown, headers, length, r, r.fromIndex);
  }

  lemma HashBehindHeader(shown: seq<Redaction>, headers: seq<Redaction>, length: nat, r: Redaction, h: Redaction)
    requires ApartParts(shown, headers, length) && |shown| > 1 && !EndsInHash(shown, length)
    requires r in shown && r.hash && LastHeader(headers, r, h)
    ensures Best(AllSlices(shown, headers, length), h.toIndex) == Some(r)
  {
    HeadersNear(shown, headers, length, r);
    FreeAt(headers, r, h);
    HashIsBest(shown, headers, length, r, h.toIndex);
  }

  lemma HashBytes(o: Oracles, total: Bytes, shown: seq<Redaction>, headers: seq<Redaction>, text: Bytes, r: Redaction)
    requires ApartParts(shown, headers, |total|) && TextOf(o, total, shown, headers, text) && !EndsInHash(shown, |total|)
    requires r in shown && r.hash
    ensures HashLeft(o, total, headers, text, r)
  {
    if !Split(headers, r) {
      HashFirst(shown, headers, |total|, r);
      HashDecides(o, total, shown, headers, text, r, r.fromIndex);
      HoldsFrom(o, total, text, r);
    }
    forall h | LastHeader(headers, r, h)
      ensures HashFrom(o, total, text, r, h.toIndex)
    {
      HashBehindHeader(shown, headers, |total|, r, h);
      HashDecides(o, total, shown, headers, text, r, h.toIndex);
    }
  }

  lemma BytesLeft(o: Oracles, total: Bytes, shown: seq<Redaction>, headers: seq<Redaction>, text: Bytes)
    requires ApartParts(shown, headers, |total|) && TextOf(o, total, shown, headers, text) && !EndsInHash(shown, |total|)
    ensures RedactedText(o, total, shown, headers, text)
  {
    forall p | 0 <= p < |total| && (!Covered(shown, p) || Covered(headers, p))
      ensures text[p] == STAR
    {
      if k :| 0 <= k < |headers| && Covers(headers[k], p) {
        HeaderByte(o, total, shown, headers, text, headers[k], p);
      } else {
        UncoveredByte(o, total, shown, headers, text, p);
      }
    }
    forall p | 0 <= p < |total| && Kept(shown, headers, p)
      ensures text[p] == total[p]
    {
      var r :| r in shown && Covers(r, p) && (!r.hash || HeaderAhead(headers, r, p));
      KeptByte(o, total, shown, headers, text, r, p);
    }
    forall r <- shown | r.hash
      ensures HashLeft(o, total, headers, text, r)
    {
      HashBytes(o, total, shown, headers, text, r);
    }
  }

  /**
   For parts that keep apart, with chunk headers anywhere: a star where nothing is
   revealed and in chunk headers, the original byte in the rest of a plain part and in
   front of a chunk header of a hashed one, and the text of the hash in the rest of it.
   */
  lemma SurvivorsExact(o: Oracles, total: Bytes, shown: seq<Redaction>, headers: seq<Redaction>)
    requires ApartParts(shown, headers, |total|) && |shown| > 1 && !EndsInHash(shown, |total|)
    ensures RedactedText(o, total, shown, headers, TextLeft(o, total, shown, headers))
  {
    LeftText(o, total, shown, headers);
    BytesLeft(o, total, shown, headers, TextLeft(o, total, shown, headers));
  }

  /**
   A hashed part is replaced by the text of its hash exactly when no chunk header lies in
   it. Otherwise its bytes in front of the first header stay as they are.
   */
  lemma HashShownExactlyWhen(o: Oracles, total: Bytes, shown: seq<Redaction>, headers: seq<Redaction>, r: Redaction)
    requires StarFree(o) && ApartParts(shown, headers, |total|) && |shown| > 1 && !EndsInHash(shown, |total|)
    requires r in shown && r.hash
    ensures Holds(o, total, r, TextLeft(o, total, shown, headers)) <==> !Split(headers, r)
    ensures forall h :: FirstHeader(headers, r, h) && h.fromIndex <= |total| ==>
              TextLeft(o, total, shown, headers)[r.fromIndex..h.fromIndex] == total[r.fromIndex..h.fromIndex]
  {
    var text := TextLeft(o, total, shown, headers);
    LeftText(o, total, shown, headers);
    BytesLeft(o, total, shown, headers, text);
    SplitHashLost(o, total, shown, headers, text, r);
    forall h | FirstHeader(headers, r, h) && h.fromIndex <= |total|
      ensures text[r.fromIndex..h.fromIndex] == total[r.fromIndex..h.fromIndex]
    {
      FrontKept(o, total, shown, headers, text, r, h);
    }
  }

  lemma SplitHashLost(o: Oracles, total: Bytes, shown: seq<Redaction>, headers: seq<Redaction>, text: Bytes, r: Redaction)
    requires StarFree(o) && ApartParts(shown, headers, |total|) && TextOf(o, total, shown, headers, text)
    requires r in shown && r.hash
    ensures Split(headers, r) ==> !Holds(o, total, r, text)
  {
    if Split(headers, r) {
      var h :| h in headers && HeaderIn(r, h);
      HeaderByte(o, total, shown, headers, text, h, h.fromIndex);
      StarNotHeld(o, total, r, text, h.fromIndex);
    }
  }

  lemma StarNotHeld(o: Oracles, total: Bytes, r: Redaction, text: Bytes, p: nat)
    requires StarFree(o) && r.hash && Covers(r, p) && r.toIndex <= |total| == |text| && text[p] == STAR
    ensures !Holds(o, total, r, text)
  {
    var length, at := r.toIndex - r.fromIndex, p - r.fromIndex;
    HashTextStarFree(o, o.oprf(total[r.fromIndex..r.toIndex]), length, at);
    assert text[r.fromIndex..r.toIndex][at] == STAR;
  }

  lemma FrontByte(o: Oracles, total: Bytes, shown: seq<Redaction>, headers: seq<Redaction>, text: Bytes, r: Redaction, h: Redaction, p: nat)
    requires ApartParts(shown, headers, |total|) && TextOf(o, total, shown, headers, text)
    requires r in shown && FirstHeader(headers, r, h) && r.fromIndex <= p < h.fromIndex && p < |total|
    ensures text[p] == total[p]
  {
    HeadersNear(shown, headers, |total|, r);
    assert !Covered(headers, p);
    KeptByte(o, total, shown, headers, text, r, p);
  }

  lemma FrontKept(o: Oracles, total: Bytes, shown: seq<Redaction>, headers: seq<Redaction>, text: Bytes, r: Redaction, h: Redaction)
    requires ApartParts(shown, headers, |total|) && TextOf(o, total, shown, headers, text)
    requires r in shown && FirstHeader(headers, r, h) && h.fromIndex <= |total|
    ensures text[r.fromIndex..h.fromIndex] == total[r.fromIndex..h.fromIndex]
  {
    forall p | r.fromIndex <= p < h.fromIndex
      ensures Same(total, text, p)
    {
      FrontByte(o, total, shown, headers, text, r, h, p);
    }
    SameBetween(total, text, r.fromIndex, h.fromIndex);
  }

  predicate Same(total: Bytes, text: Bytes, p: int)
    requires |total| == |text|
  {
    0 <= p < |total| ==> text[p] == total[p]
  }

  lemma SameBetween(total: Bytes, text: Bytes, from: nat, until: nat)
    requires from <= until <= |total| == |text| && forall p :: from <= p < until ==> Same(total, text, p)
    ensures text[from..until] == total[from..until]
  {
    forall p | from <= p < until
      ensures text[p] == total[p]
    {
      assert Same(total, text, p);
    }
  }
}
