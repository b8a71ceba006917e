/**
 What `getResponseRedactions` leaves of a response, byte by byte, for every list of
 reveals: overlapping or not, hashed or not, with chunk headers anywhere inside them.
 */
module Survivors {
  import opened ByteData
  import opened Redaction
  import opened ResponseRedactions

  // ----- which slice decides about a byte -----

  /** The first slice of the list that ends behind the position, or the end of the list. */
  function FirstBehind(rs: seq<Redaction>, p: nat): (k: nat)
    ensures k <= |rs| && forall i :: 0 <= i < k ==> rs[i].toIndex <= p
    ensures k < |rs| ==> rs[k].toIndex > p
  {
    if rs == [] then 0
    else
      var n := |rs| - 1;
      var k := FirstBehind(rs[..n], p);
      if k < n || rs[n].toIndex > p then k else |rs|
  }

  /** The byte that a slice which begins at or before the position leaves there. */
  function ByteOf(o: Oracles, total: Bytes, r: Redaction, start: nat, p: nat): Byte
    requires r.fromIndex <= start <= p < r.toIndex <= |total|
  {
    Replacement(o, total, r)[p - start]
  }

  /** What the text holds at a position, given the first slice that ends behind it. */
  predicate Decided(o: Oracles, total: Bytes, rs: seq<Redaction>, text: Bytes, p: nat)
    requires WellFormed(rs) && p < |total| == |text|
  {
    var k := FirstBehind(rs, p);
    if k == |rs| || p < rs[k].fromIndex then text[p] == total[p]
    else
      var start := Max(Reach(rs[..k]), rs[k].fromIndex);
      && start <= p && rs[k].toIndex <= |total|
      && text[p] == ByteOf(o, total, rs[k], start, p)
  }

  lemma {:induction false} SortedReach(rs: seq<Redaction>, m: nat)
    requires WellFormed(rs) && EndsBy(rs, m)
    ensures Reach(rs) <= m
    ensures forall k :: 0 <= k < |rs| ==> rs[k].toIndex <= Reach(rs)
  {
    if rs != [] {
      SortedReach(rs[..|rs| - 1], m);
    }
  }

  lemma {:induction false} SweepEnds(o: Oracles, total: Bytes, rs: seq<Redaction>)
    requires WellFormed(rs) && SweepAll(o, total, rs).Some?
    ensures SweepAll(o, total, rs).value.cursor == Reach(rs) <= |total|
    ensures forall k :: 0 <= k < |rs| ==> rs[k].toIndex <= |total|
  {
    if rs != [] {
      SweepEnds(o, total, rs[..|rs| - 1]);
    }
  }

  lemma OverwrittenByte(text: Bytes, start: nat, end: nat, with: Bytes, p: nat)
    requires (start <= end ==> end - start <= |with|) && p < |text|
    ensures Overwrite(text, start, end, with)[p] == if start <= p < end then with[p - start] else text[p]
  {
  }

  /** Slices in the order of their ends: the first that ends behind a position decides. */
  lemma {:induction false} SortedSweep(o: Oracles, total: Bytes, rs: seq<Redaction>, p: nat)
    requires WellFormed(rs) && SortedByEnd(rs) && SweepAll(o, total, rs).Some? && p < |total|
    ensures Decided(o, total, rs, SweepAll(o, total, rs).value.text, p)
  {
    if rs != [] {
      var n := |rs| - 1;
      var prior, r := rs[..n], rs[n];
      SortedSweep(o, total, prior, p);
      SweepEnds(o, total, prior);
      SweepEnds(o, total, rs);
      var s := SweepAll(o, total, prior).value;
      var start := Max(s.cursor, r.fromIndex);
      OverwrittenByte(s.text, start, r.toIndex, Replacement(o, total, r), p);
      var k := FirstBehind(prior, p);
      if k < n {
        assert prior[..k] == rs[..k];
        SortedReach(prior, r.toIndex);
      } else {
        SortedReach(prior, p);
        assert rs[..n] == prior;
      }
    }
  }

  // ----- where the cursor stands -----

  /** The greatest end, up to the position, of a slice of the list. */
  function EndBefore(rs: seq<Redaction>, p: nat): (e: nat)
    ensures e <= p && (e == 0 || exists q <- rs :: q.toIndex == e)
    ensures forall q <- rs :: q.toIndex <= p ==> q.toIndex <= e
  {
    if rs == [] then 0
    else
      var n := |rs| - 1;
      assert rs == rs[..n] + [rs[n]];
      var e := EndBefore(rs[..n], p);
      if rs[n].toIndex <= p then Max(e, rs[n].toIndex) else e
  }

  lemma SameEndBefore(rs: seq<Redaction>, qs: seq<Redaction>, p: nat)
    requires forall q :: q in rs <==> q in qs
    ensures EndBefore(rs, p) == EndBefore(qs, p)
  {
  }

  /** In front of the first slice that ends behind the position, the cursor stands there. */
  lemma CursorAt(rs: seq<Redaction>, p: nat)
    requires WellFormed(rs) && SortedByEnd(rs)
    ensures Reach(rs[..FirstBehind(rs, p)]) == EndBefore(rs, p)
  {
    var k := FirstBehind(rs, p);
    ReachIsEnd(rs[..k], p);
    forall q <- rs | q.toIndex <= p
      ensures q in rs[..k]
    {
      StandsBefore(rs, q, p);
    }
    SameSmall(rs[..k], rs, p);
  }

  lemma StandsBefore(rs: seq<Redaction>, h: Redaction, q: nat)
    requires SortedByEnd(rs) && h in rs && h.toIndex <= q
    ensures exists i :: 0 <= i < FirstBehind(rs, q) && rs[i] == h
    ensures h in rs[..FirstBehind(rs, q)]
  {
    var i :| 0 <= i < |rs| && rs[i] == h;
    assert i < FirstBehind(rs, q);
    assert rs[..FirstBehind(rs, q)][i] == h;
  }

  lemma SameSmall(rs: seq<Redaction>, qs: seq<Redaction>, p: nat)
    requires forall q <- rs :: q in qs && q.toIndex <= p
    requires forall q <- qs :: q.toIndex <= p ==> q in rs
    ensures EndBefore(rs, p) == EndBefore(qs, p)
  {
  }

  lemma ReachIsEnd(rs: seq<Redaction>, p: nat)
    requires WellFormed(rs) && EndsBy(rs, p)
    ensures Reach(rs) == EndBefore(rs, p)
    decreases |rs|
  {
    if rs != [] {
      ReachIsEnd(rs[..|rs| - 1], p);
    }
  }

  // ----- the first slice of a sorted list, from the list before sorting -----

  /** Of the slices that end behind the position, the first among those that end first. */
  function Best(rs: seq<Redaction>, p: nat): (b: Option<Redaction>)
    ensures b.Some? ==> b.value in rs && b.value.toIndex > p
    ensures forall q <- rs :: q.toIndex > p ==> b.Some? && b.value.toIndex <= q.toIndex
  {
    if rs == [] then None
    else
      var n := |rs| - 1;
      assert rs == rs[..n] + [rs[n]];
      Better(Best(rs[..n], p), if rs[n].toIndex > p then Some(rs[n]) else None)
  }

  /** The one that ends first; of two that end together, the first. */
  function Better(a: Option<Redaction>, b: Option<Redaction>): Option<Redaction> {
    if b.Some? && (a.None? || b.value.toIndex < a.value.toIndex) then b else a
  }

  lemma {:induction false} BestConcat(xs: seq<Redaction>, ys: seq<Redaction>, p: nat)
    ensures Best(xs + ys, p) == Better(Best(xs, p), Best(ys, p))
  {
    if ys == [] {
      assert xs + ys == xs;
    } else {
      var n := |ys| - 1;
      assert (xs + ys)[..|xs + ys| - 1] == xs + ys[..n];
      BestConcat(xs, ys[..n], p);
    }
  }

  /** The first slice of the list that ends behind the position. */
  function First(rs: seq<Redaction>, p: nat): Option<Redaction> {
    var k := FirstBehind(rs, p);
    if k < |rs| then Some(rs[k]) else None
  }

  function IfBehind(r: Redaction, p: nat): Option<Redaction> {
    if r.toIndex > p then Some(r) else None
  }

  lemma FirstSnoc(rs: seq<Redaction>, r: Redaction, p: nat)
    ensures First(rs + [r], p) == if First(rs, p).Some? then First(rs, p) else IfBehind(r, p)
  {
    assert (rs + [r])[..|rs|] == rs;
  }

  lemma InsertedBefore(prior: seq<Redaction>, last: Redaction, r: Redaction, p: nat)
    requires r.toIndex < last.toIndex && forall q <- prior :: q.toIndex <= last.toIndex
    requires First(InsertByEnd(prior, r), p) == Better(First(prior, p), IfBehind(r, p))
    ensures First(InsertByEnd(prior, r) + [last], p) == Better(First(prior + [last], p), IfBehind(r, p))
  {
    FirstSnoc(InsertByEnd(prior, r), last, p);
    FirstSnoc(prior, last, p);
  }

  lemma {:induction false} BestInserted(rs: seq<Redaction>, r: Redaction, p: nat)
    requires SortedByEnd(rs)
    ensures First(InsertByEnd(rs, r), p) == Better(First(rs, p), IfBehind(r, p))
  {
    var n := |rs| - 1;
    if rs == [] || rs[n].toIndex <= r.toIndex {
      FirstSnoc(rs, r, p);
    } else {
      BestInserted(rs[..n], r, p);
      InsertedBefore(rs[..n], rs[n], r, p);
      assert rs == rs[..n] + [rs[n]];
    }
  }

  /** Sorting is stable, so the first slice behind a position is the best one. */
  lemma {:induction false} BestSorted(rs: seq<Redaction>, p: nat)
    ensures First(SortByEnd(rs), p) == Best(rs, p)
  {
    if rs != [] {
      var n := |rs| - 1;
      BestSorted(rs[..n], p);
      SortSorts(rs[..n]);
      BestInserted(SortByEnd(rs[..n]), rs[n], p);
    }
  }

  // ----- reveals and chunk headers in general -----

  predicate HeaderIn(r: Redaction, h: Redaction) {
    !h.hash && r.fromIndex <= h.fromIndex < h.toIndex < r.toIndex
  }

  predicate InSome(shown: seq<Redaction>, h: Redaction) {
    exists r <- shown :: HeaderIn(r, h)
  }

  /** Parts of the response, and chunk headers inside them. */
  predicate PartsOf(shown: seq<Redaction>, headers: seq<Redaction>, length: nat) {
    && (forall r <- shown :: r.fromIndex <= r.toIndex <= length)
    && (forall h <- headers :: InSome(shown, h))
  }

  /** The slices before they are sorted for the last time. */
  function AllSlices(shown: seq<Redaction>, headers: seq<Redaction>, length: nat): seq<Redaction> {
    headers + Complement(SortByEnd(shown), length) + HashReveals(SortByEnd(shown))
  }

  lemma SameSize(rs: seq<Redaction>, sorted: seq<Redaction>)
    requires multiset(sorted) == multiset(rs)
    ensures |sorted| == |rs| && forall q :: q in sorted <==> q in rs
  {
    assert |multiset(sorted)| == |sorted| && |multiset(rs)| == |rs|;
    forall q: Redaction
      ensures q in sorted <==> q in rs
    {
      assert q in multiset(sorted) <==> q in multiset(rs);
    }
  }

  lemma {:induction false} GapFacts(sorted: seq<Redaction>, n: nat, g: Redaction)
    requires n <= |sorted| && SortedByEnd(sorted) && WellFormed(sorted) && g in Gaps(sorted, n)
    ensures !g.hash && g.fromIndex < g.toIndex
    ensures n > 0 && g.toIndex <= sorted[n - 1].toIndex
  {
    if g in Gaps(sorted, n - 1) {
      GapFacts(sorted, n - 1, g);
    }
  }

  lemma LastEndIs(sorted: seq<Redaction>)
    requires SortedByEnd(sorted)
    ensures forall r <- sorted :: r.toIndex <= LastEnd(sorted)
  {
  }

  lemma {:induction false} HashRevealsBoth(sorted: seq<Redaction>)
    ensures forall r :: r in HashReveals(sorted) <==> r in sorted && r.hash
  {
    forall r: Redaction
      ensures r in HashReveals(sorted) <==> r in sorted && r.hash
    {
      HashRevealsAre(sorted, r);
    }
  }

  /** Where the slices come from, and that they lie in the response. */
  lemma SliceFacts(shown: seq<Redaction>, headers: seq<Redaction>, length: nat, q: Redaction)
    requires PartsOf(shown, headers, length) && |shown| > 1 && q in AllSlices(shown, headers, length)
    ensures q.fromIndex <= q.toIndex <= length
    ensures q.hash <==> q in shown && q.hash
    ensures !q.hash ==> q in headers || q in Complement(SortByEnd(shown), length)
  {
    var sorted := SortByEnd(shown);
    SortSorts(shown);
    SameSize(shown, sorted);
    HashRevealsBoth(sorted);
    LastEndIs(sorted);
    assert WellFormed(sorted) && LastEnd(sorted) <= length by {
      forall k | 0 <= k < |sorted|
        ensures sorted[k].fromIndex <= sorted[k].toIndex <= length
      {
        assert sorted[k] in shown;
      }
    }
    if q in headers {
      var r :| r in shown && HeaderIn(r, q);
    } else if q in Gaps(sorted, |sorted|) {
      GapFacts(sorted, |sorted|, q);
    }
  }

  lemma SortedSlices(shown: seq<Redaction>, headers: seq<Redaction>, length: nat)
    requires PartsOf(shown, headers, length) && |shown| > 1
    ensures var rs := RedactionsFor(shown, headers, length);
            && SortedByEnd(rs) && WellFormed(rs)
            && (forall q :: q in rs <==> q in AllSlices(shown, headers, length))
            && (forall k :: 0 <= k < |rs| ==> rs[k].toIndex <= length)
  {
    var all, rs := AllSlices(shown, headers, length), RedactionsFor(shown, headers, length);
    SortSorts(all);
    SameSize(all, rs);
    forall k | 0 <= k < |rs|
      ensures rs[k].fromIndex <= rs[k].toIndex <= length
    {
      assert rs[k] in all;
      SliceFacts(shown, headers, length, rs[k]);
    }
  }

  // ----- exactly when redaction succeeds -----

  lemma HashAtEndFrom(shown: seq<Redaction>, headers: seq<Redaction>, length: nat, k: nat)
    requires PartsOf(shown, headers, length) && |shown| > 1
    requires k < |RedactionsFor(shown, headers, length)| && HashAtEnd(RedactionsFor(shown, headers, length), k, length)
    ensures EndsInHash(shown, length)
  {
    var rs := RedactionsFor(shown, headers, length);
    SortedSlices(shown, headers, length);
    SliceFacts(shown, headers, length, rs[k]);
    assert EndsBy(rs[..k], rs[k].toIndex) && WellFormed(rs[..k]);
    SortedReach(rs[..k], rs[k].toIndex);
  }

  lemma LastEndReached(shown: seq<Redaction>, headers: seq<Redaction>, length: nat, h: Redaction)
    requires PartsOf(shown, headers, length) && |shown| > 1 && h in shown && h.toIndex == length
    ensures LastEnd(SortByEnd(shown)) == length && |SortByEnd(shown)| > 1 && h in SortByEnd(shown)
  {
    var sorted := SortByEnd(shown);
    SortSorts(shown);
    SameSize(shown, sorted);
    LastEndIs(sorted);
    assert sorted[|sorted| - 1] in shown;
  }

  lemma SlicesEnd(shown: seq<Redaction>, headers: seq<Redaction>, length: nat)
    requires PartsOf(shown, headers, length) && |shown| > 1
    ensures EndsBy(AllSlices(shown, headers, length), length)
  {
    var all := AllSlices(shown, headers, length);
    forall k | 0 <= k < |all|
      ensures all[k].toIndex <= length
    {
      SliceFacts(shown, headers, length, all[k]);
    }
  }

  /** The last stretch is empty, and comes before the hash that ends with it. */
  lemma StretchThenHash(front: seq<Redaction>, last: Redaction, hashes: seq<Redaction>, h: Redaction, all: seq<Redaction>)
    requires all == front + [last] + hashes && h in hashes && EndsBy(all, h.toIndex)
    ensures Before(SortByEnd(all), last, h)
  {
    var x :| 0 <= x < |hashes| && hashes[x] == h;
    assert all[|front|] == last && all[|front| + 1 + x] == h;
    SortKeepsOrder(all, |front|, |front| + 1 + x);
  }

  lemma EndHashIsLate(shown: seq<Redaction>, headers: seq<Redaction>, length: nat, h: Redaction)
    requires PartsOf(shown, headers, length) && |shown| > 1
    requires h in shown && h.hash && h.toIndex == length
    ensures Before(RedactionsFor(shown, headers, length), Redaction(length, length, false), h)
  {
    var sorted, all := SortByEnd(shown), AllSlices(shown, headers, length);
    LastEndReached(shown, headers, length, h);
    HashRevealsAre(sorted, h);
    SlicesEnd(shown, headers, length);
    var front := headers + Gaps(sorted, |sorted|);
    assert headers + Complement(sorted, length) == front + [Redaction(length, length, false)];
    StretchThenHash(front, Redaction(length, length, false), HashReveals(sorted), h, all);
  }

  /**
   For every list of reveals, redacting the response succeeds exactly when no hashed one
   ends where the response ends.
   */
  lemma RedactsExactlyWhen(o: Oracles, total: Bytes, shown: seq<Redaction>, headers: seq<Redaction>)
    requires PartsOf(shown, headers, |total|) && |shown| > 1
    ensures var rs := RedactionsFor(shown, headers, |total|);
            && WellFormed(rs) && SortedByEnd(rs)
            && (SweepAll(o, total, rs).Some? <==> !EndsInHash(shown, |total|))
  {
    var rs := RedactionsFor(shown, headers, |total|);
    SortedSlices(shown, headers, |total|);
    if EndsInHash(shown, |total|) {
      var h :| h in shown && h.hash && h.toIndex == |total|;
      EndHashIsLate(shown, headers, |total|, h);
      assert forall q :: q in multiset(rs) <==> q in rs;
      FailsBehindEnd(o, total, rs, Redaction(|total|, |total|, false), h);
    } else {
      SortedReach(rs, |total|);
      SweepFailure(o, total, rs);
      if SweepAll(o, total, rs) == None {
        var k :| 0 <= k < |rs| && HashAtEnd(rs, k, |total|);
        HashAtEndFrom(shown, headers, |total|, k);
      }
    }
  }
}
