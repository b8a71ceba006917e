/**
 `getResponseRedactions`: from the parts of the response that a provider reveals to
 the list of slices that are redacted or hashed.
 */
module ResponseRedactions {
  import opened ByteData
  import opened Redaction

  // ----- sorting by the end of the slice -----

  predicate SortedByEnd(rs: seq<Redaction>) {
    forall i, j :: 0 <= i < j < |rs| ==> rs[i].toIndex <= rs[j].toIndex
  }

  /** Puts a slice behind all that end no later: the stable order. */
  function InsertByEnd(rs: seq<Redaction>, r: Redaction): seq<Redaction> {
    if rs == [] || rs[|rs| - 1].toIndex <= r.toIndex then rs + [r]
    else InsertByEnd(rs[..|rs| - 1], r) + [rs[|rs| - 1]]
  }

  /** `sort((a, b) => a.toIndex - b.toIndex)`, which is stable. */
  function SortByEnd(rs: seq<Redaction>): seq<Redaction> {
    if rs == [] then [] else InsertByEnd(SortByEnd(rs[..|rs| - 1]), rs[|rs| - 1])
  }

  predicate EndsBy(rs: seq<Redaction>, m: int) {
    forall k :: 0 <= k < |rs| ==> rs[k].toIndex <= m
  }

  lemma {:induction false} InsertEndsBy(rs: seq<Redaction>, r: Redaction, m: int)
    requires EndsBy(rs, m) && r.toIndex <= m
    ensures EndsBy(InsertByEnd(rs, r), m)
  {
    if rs != [] {
      InsertEndsBy(rs[..|rs| - 1], r, m);
    }
  }

  lemma {:induction false} InsertKeeps(rs: seq<Redaction>, r: Redaction)
    ensures multiset(InsertByEnd(rs, r)) == multiset(rs) + multiset{r}
  {
    if rs != [] {
      var n := |rs| - 1;
      assert rs == rs[..n] + [rs[n]];
      if r.toIndex < rs[n].toIndex {
        InsertKeeps(rs[..n], r);
      }
    }
  }

  lemma {:induction false} InsertSorts(rs: seq<Redaction>, r: Redaction)
    requires SortedByEnd(rs)
    ensures SortedByEnd(InsertByEnd(rs, r))
  {
    if rs != [] && r.toIndex < rs[|rs| - 1].toIndex {
      var n := |rs| - 1;
      InsertSorts(rs[..n], r);
      InsertEndsBy(rs[..n], r, rs[n].toIndex);
    }
  }

  /** The sorted list holds the same slices, in the order of their ends. */
  lemma {:induction false} SortSorts(rs: seq<Redaction>)
    ensures SortedByEnd(SortByEnd(rs))
    ensures multiset(SortByEnd(rs)) == multiset(rs)
  {
    if rs != [] {
      var n := |rs| - 1;
      assert rs == rs[..n] + [rs[n]];
      SortSorts(rs[..n]);
      InsertSorts(SortByEnd(rs[..n]), rs[n]);
      InsertKeeps(SortByEnd(rs[..n]), rs[n]);
    }
  }

  /** Any two slices of the list, the earlier one first, are so related. */
  ghost predicate Pairwise(rs: seq<Redaction>, related: (Redaction, Redaction) -> bool) {
    forall i, j :: 0 <= i < j < |rs| ==> related(rs[i], rs[j])
  }

  ghost predicate Symmetric(related: (Redaction, Redaction) -> bool) {
    forall a, b :: related(a, b) == related(b, a)
  }

  lemma {:induction false} InsertPairwise(rs: seq<Redaction>, r: Redaction, related: (Redaction, Redaction) -> bool)
    requires Symmetric(related) && Pairwise(rs, related) && forall i :: 0 <= i < |rs| ==> related(rs[i], r)
    ensures Pairwise(InsertByEnd(rs, r), related)
    decreases |rs|
  {
    if rs != [] && r.toIndex < rs[|rs| - 1].toIndex {
      var n := |rs| - 1;
      InsertPairwise(rs[..n], r, related);
      InsertKeeps(rs[..n], r);
      var inserted := InsertByEnd(rs[..n], r);
      forall i | 0 <= i < |inserted|
        ensures related(inserted[i], rs[n])
      {
        assert inserted[i] in multiset(inserted);
        assert inserted[i] in multiset(rs[..n]) || inserted[i] == r;
      }
    }
  }

  /** Sorting keeps what relates any two slices. */
  lemma {:induction false} SortPairwise(rs: seq<Redaction>, related: (Redaction, Redaction) -> bool)
    requires Symmetric(related) && Pairwise(rs, related)
    ensures Pairwise(SortByEnd(rs), related)
    decreases |rs|
  {
    if rs != [] {
      var n := |rs| - 1;
      SortPairwise(rs[..n], related);
      SortSorts(rs[..n]);
      var sorted := SortByEnd(rs[..n]);
      forall i | 0 <= i < |sorted|
        ensures related(sorted[i], rs[n])
      {
        assert sorted[i] in multiset(rs[..n]);
      }
      InsertPairwise(sorted, rs[n], related);
    }
  }

  // ----- the complement -----

  /** The stretches in front of the first `n` reveals that none of those before reaches. */
  function Gaps(shown: seq<Redaction>, n: nat): seq<Redaction>
    requires n <= |shown|
  {
    if n == 0 then []
    else
      var currentIndex := if n == 1 then 0 else shown[n - 2].toIndex;
      var r := shown[n - 1];
      Gaps(shown, n - 1)
      + if currentIndex < r.fromIndex then [Redaction(currentIndex, r.fromIndex, false)] else []
  }

  function LastEnd(shown: seq<Redaction>): nat {
    if shown == [] then 0 else shown[|shown| - 1].toIndex
  }

  function Complement(shown: seq<Redaction>, length: nat): seq<Redaction> {
    if |shown| > 1 then Gaps(shown, |shown|) + [Redaction(LastEnd(shown), length, false)] else []
  }

  function HashReveals(shown: seq<Redaction>): seq<Redaction> {
    if shown == [] then []
    else
      HashReveals(shown[..|shown| - 1])
      + if shown[|shown| - 1].hash then [shown[|shown| - 1]] else []
  }

  /** The slices for a list of reveals and the chunk headers inside them. */
  function RedactionsFor(shown: seq<Redaction>, headers: seq<Redaction>, length: nat): seq<Redaction> {
    var sorted := SortByEnd(shown);
    SortByEnd(headers + Complement(sorted, length) + HashReveals(sorted))
  }

  /** The part of `getResponseRedactions` behind the collection of the reveals. */
  method ComplementReveals(shown: seq<Redaction>, headers: seq<Redaction>, length: nat)
    returns (redactions: seq<Redaction>)
    ensures redactions == RedactionsFor(shown, headers, length)
  {
    var sorted := SortByEnd(shown);
    redactions := headers;
    if |sorted| > 1 {
      var currentIndex := 0;
      for k := 0 to |sorted|
        invariant redactions == headers + Gaps(sorted, k)
        invariant currentIndex == if k == 0 then 0 else sorted[k - 1].toIndex
      {
        var r := sorted[k];
        if currentIndex < r.fromIndex {
          redactions := redactions + [Redaction(currentIndex, r.fromIndex, false)];
        }
        currentIndex := r.toIndex;
      }
      redactions := redactions + [Redaction(currentIndex, length, false)];
    }
    assert redactions == headers + Complement(sorted, length);
    ghost var plain := redactions;
    for k := 0 to |sorted|
      invariant redactions == plain + HashReveals(sorted[..k])
    {
      assert sorted[..k + 1][..k] == sorted[..k];
      if sorted[k].hash {
        redactions := redactions + [sorted[k]];
      }
    }
    assert sorted[..|sorted|] == sorted;
    redactions := SortByEnd(redactions);
  }

  // ----- the complement holds what no reveal holds -----

  /** A position in no reveal lies in the gap before the first reveal that ends behind it. */
  lemma {:induction false} GapAround(sorted: seq<Redaction>, n: nat, p: nat) returns (g: Redaction)
    requires 0 < n <= |sorted| && p < sorted[n - 1].toIndex && !Covered(sorted, p)
    ensures g in Gaps(sorted, n) && Covers(g, p)
  {
    if n > 1 && p < sorted[n - 2].toIndex {
      g := GapAround(sorted, n - 1, p);
    } else {
      assert !Covers(sorted[n - 1], p);
      g := Redaction(if n == 1 then 0 else sorted[n - 2].toIndex, sorted[n - 1].fromIndex, false);
    }
  }

  lemma {:induction false} HashRevealsAre(shown: seq<Redaction>, r: Redaction)
    ensures r in HashReveals(shown) <==> r in shown && r.hash
  {
    if shown != [] {
      var n := |shown| - 1;
      HashRevealsAre(shown[..n], r);
      assert shown == shown[..n] + [shown[n]];
    }
  }

  // ----- a hash at the very end -----

  predicate EndsInHash(shown: seq<Redaction>, length: nat) {
    exists r <- shown :: r.hash && r.toIndex == length
  }

  /** The slice stands somewhere in front of the other. */
  predicate Before(rs: seq<Redaction>, q: Redaction, r: Redaction) {
    exists i, k :: 0 <= i < k < |rs| && rs[i] == q && rs[k] == r
  }

  lemma {:induction false} InsertKeepsOrder(rs: seq<Redaction>, x: Redaction, i: nat, k: nat)
    returns (i': nat, k': nat)
    requires i < k < |rs|
    ensures i' < k' < |InsertByEnd(rs, x)|
    ensures InsertByEnd(rs, x)[i'] == rs[i] && InsertByEnd(rs, x)[k'] == rs[k]
  {
    var n := |rs| - 1;
    if rs[n].toIndex <= x.toIndex {
      i', k' := i, k;
    } else if k < n {
      i', k' := InsertKeepsOrder(rs[..n], x, i, k);
    } else {
      i' := InsertKeepsOne(rs[..n], x, i);
      k' := |InsertByEnd(rs, x)| - 1;
    }
  }

  lemma {:induction false} InsertKeepsOne(rs: seq<Redaction>, x: Redaction, i: nat) returns (i': nat)
    requires i < |rs|
    ensures i' < |InsertByEnd(rs, x)| && InsertByEnd(rs, x)[i'] == rs[i]
  {
    var n := |rs| - 1;
    if rs[n].toIndex <= x.toIndex {
      i' := i;
    } else if i < n {
      i' := InsertKeepsOne(rs[..n], x, i);
    } else {
      i' := |InsertByEnd(rs, x)| - 1;
    }
  }

  lemma InsertKeepsBefore(rs: seq<Redaction>, x: Redaction, q: Redaction, r: Redaction)
    requires Before(rs, q, r)
    ensures Before(InsertByEnd(rs, x), q, r)
  {
    var i, k :| 0 <= i < k < |rs| && rs[i] == q && rs[k] == r;
    var a, b := InsertKeepsOrder(rs, x, i, k);
  }

  /** A slice that ends no earlier than any comes in behind all of them. */
  lemma InsertLast(rs: seq<Redaction>, q: Redaction, r: Redaction)
    requires q in rs && EndsBy(rs, r.toIndex)
    ensures Before(InsertByEnd(rs, r), q, r)
  {
    var i :| 0 <= i < |rs| && rs[i] == q;
    assert InsertByEnd(rs, r) == rs + [r];
    assert (rs + [r])[i] == q && (rs + [r])[|rs|] == r;
  }

  lemma SortedEndsBy(rs: seq<Redaction>, sorted: seq<Redaction>, m: int)
    requires multiset(sorted) == multiset(rs) && EndsBy(rs, m)
    ensures EndsBy(sorted, m)
    ensures forall q :: q in rs <==> q in sorted
  {
    forall q: Redaction
      ensures q in rs <==> q in sorted
    {
      assert q in multiset(rs) <==> q in multiset(sorted);
    }
    forall j | 0 <= j < |sorted|
      ensures sorted[j].toIndex <= m
    {
      assert sorted[j] in rs;
    }
  }

  lemma SortStep(rs: seq<Redaction>)
    requires rs != []
    ensures SortByEnd(rs) == InsertByEnd(SortByEnd(rs[..|rs| - 1]), rs[|rs| - 1])
  {
  }

  /** Sorting leaves a slice in front of a later one that ends no earlier than any. */
  lemma {:induction false} SortKeepsOrder(rs: seq<Redaction>, i: nat, k: nat)
    requires i < k < |rs| && EndsBy(rs, rs[k].toIndex)
    ensures Before(SortByEnd(rs), rs[i], rs[k])
  {
    var n := |rs| - 1;
    var prior := rs[..n];
    assert prior[i] == rs[i];
    if k < n {
      SortKeepsOrder(prior, i, k);
      InsertKeepsBefore(SortByEnd(prior), rs[n], rs[i], rs[k]);
    } else {
      SortSorts(prior);
      SortedEndsBy(prior, SortByEnd(prior), rs[n].toIndex);
      InsertLast(SortByEnd(prior), rs[i], rs[n]);
    }
    SortStep(rs);
  }

  lemma FailsBehindEnd(o: Oracles, total: Bytes, rs: seq<Redaction>, last: Redaction, h: Redaction)
    requires forall q :: q in multiset(rs) ==> q.fromIndex <= q.toIndex <= |total|
    requires Before(rs, last, h) && last.toIndex == |total| && h.hash
    ensures WellFormed(rs) && SweepAll(o, total, rs) == None
  {
    forall k | 0 <= k < |rs|
      ensures rs[k].fromIndex <= rs[k].toIndex <= |total|
    {
      assert rs[k] in multiset(rs);
    }
    BoundedReach(rs, |total|);
    var i, k :| 0 <= i < k < |rs| && rs[i] == last && rs[k] == h;
    ReachGrows(rs[..k], i);
    BoundedReach(rs[..k], |total|);
    assert HashAtEnd(rs, k, |total|);
    SweepFailure(o, total, rs);
  }

  lemma {:induction false} BoundedReach(rs: seq<Redaction>, n: nat)
    requires forall k :: 0 <= k < |rs| ==> rs[k].fromIndex <= n && rs[k].toIndex <= n
    ensures Reach(rs) <= n
  {
    if rs != [] {
      BoundedReach(rs[..|rs| - 1], n);
    }
  }
}
