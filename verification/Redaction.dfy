/**
 Redaction of a response as one flat text: `redactSlices`, and the left-to-right
 sweep that `getBlocksToReveal` performs, told without blocks.
 */
module Redaction {
  import opened ByteData

  /** A slice to redact, or to replace by the text of its hash. */
  datatype Redaction = Redaction(fromIndex: nat, toIndex: nat, hash: bool)

  /** Calls whose results this program does not compute itself. */
  datatype Oracles = Oracles(
    /** the nullifier the OPRF yields for a plaintext */
    oprf: Bytes -> Bytes,
    base64: Bytes -> Bytes)

  const ZERO_CHAR: Byte := 48  // '0'

  /** `binaryHashToStr`: the base64 text of the hash, padded or cut to the length. */
  function BinaryHashToStr(o: Oracles, hash: Bytes, length: nat): (text: Bytes)
    ensures |text| == length
    ensures text[..Min(length, |o.base64(hash)|)] == o.base64(hash)[..Min(length, |o.base64(hash)|)]
    ensures forall i :: |o.base64(hash)| <= i < length ==> text[i] == ZERO_CHAR
  {
    var encoded := o.base64(hash);
    if |encoded| >= length then encoded[..length] else encoded + Fill(ZERO_CHAR, length - |encoded|)
  }

  /** Base64 has no star. */
  ghost predicate StarFree(o: Oracles) {
    forall h, i :: 0 <= i < |o.base64(h)| ==> o.base64(h)[i] != STAR
  }

  lemma HashTextStarFree(o: Oracles, hash: Bytes, length: nat, j: nat)
    requires StarFree(o) && j < length
    ensures BinaryHashToStr(o, hash, length)[j] != STAR
  {
    var text, encoded := BinaryHashToStr(o, hash, length), o.base64(hash);
    if j < |encoded| {
      var m := Min(length, |encoded|);
      assert text[..m][j] == encoded[..m][j];
    }
  }

  predicate Covers(r: Redaction, p: int) {
    r.fromIndex <= p < r.toIndex
  }

  predicate Covered(rs: seq<Redaction>, p: int) {
    exists k :: 0 <= k < |rs| && Covers(rs[k], p)
  }

  /** The text with stars at the covered positions. */
  function Starred(total: Bytes, rs: seq<Redaction>): Bytes {
    seq(|total|, p requires 0 <= p < |total| => if Covered(rs, p) then STAR else total[p])
  }

  /** `redactSlices`; writes beyond the end of the text have no effect. */
  method RedactSlices(total: Bytes, slices: seq<Redaction>) returns (redacted: array<Byte>)
    ensures fresh(redacted) && redacted[..] == Starred(total, slices)
  {
    redacted := new Byte[|total|](i requires 0 <= i < |total| => total[i]);
    for k := 0 to |slices|
      invariant redacted[..] == Starred(total, slices[..k])
    {
      var slice := slices[k];
      ghost var before := redacted[..];
      var i := slice.fromIndex;
      while i < slice.toIndex
        invariant slice.fromIndex <= i
        invariant i <= slice.toIndex || i == slice.fromIndex
        invariant forall p :: 0 <= p < |total| ==>
          redacted[p] == if slice.fromIndex <= p < i then STAR else before[p]
      {
        if i < redacted.Length {
          redacted[i] := STAR;
        }
        i := i + 1;
      }
      CoveredSnoc(slices, k);
    }
    assert slices[..|slices|] == slices;
  }

  lemma CoveredSnoc(rs: seq<Redaction>, k: nat)
    requires k < |rs|
    ensures forall p :: Covered(rs[..k + 1], p) <==> Covered(rs[..k], p) || Covers(rs[k], p)
  {
    forall p
      ensures Covered(rs[..k + 1], p) <==> Covered(rs[..k], p) || Covers(rs[k], p)
    {
      if Covered(rs[..k], p) {
        var j :| 0 <= j < k && Covers(rs[..k][j], p);
        assert Covers(rs[..k + 1][j], p);
      }
      if Covers(rs[k], p) {
        assert Covers(rs[..k + 1][k], p);
      }
      if Covered(rs[..k + 1], p) {
        var j :| 0 <= j < k + 1 && Covers(rs[..k + 1][j], p);
        assert j < k ==> Covers(rs[..k][j], p);
      }
    }
  }

  lemma CoveredMember(rs: seq<Redaction>, r: Redaction, p: int)
    requires r in rs && Covers(r, p)
    ensures Covered(rs, p)
  {
    var k :| 0 <= k < |rs| && rs[k] == r;
    assert Covers(rs[k], p);
  }

  lemma CoveredSameElements(rs: seq<Redaction>, qs: seq<Redaction>, p: int)
    requires multiset(rs) == multiset(qs)
    ensures Covered(rs, p) <==> Covered(qs, p)
  {
    if Covered(rs, p) {
      var k :| 0 <= k < |rs| && Covers(rs[k], p);
      assert rs[k] in multiset(qs);
      CoveredMember(qs, rs[k], p);
    }
    if Covered(qs, p) {
      var k :| 0 <= k < |qs| && Covers(qs[k], p);
      assert qs[k] in multiset(rs);
      CoveredMember(rs, qs[k], p);
    }
  }

  lemma CoveredConcat(rs: seq<Redaction>, qs: seq<Redaction>, p: int)
    ensures Covered(rs + qs, p) <==> Covered(rs, p) || Covered(qs, p)
  {
    if Covered(rs, p) {
      var k :| 0 <= k < |rs| && Covers(rs[k], p);
      assert Covers((rs + qs)[k], p);
    }
    if Covered(qs, p) {
      var k :| 0 <= k < |qs| && Covers(qs[k], p);
      assert Covers((rs + qs)[|rs| + k], p);
    }
    if Covered(rs + qs, p) {
      var k :| 0 <= k < |rs + qs| && Covers((rs + qs)[k], p);
      if k < |rs| {
        assert Covers(rs[k], p);
      } else {
        assert Covers(qs[k - |rs|], p);
      }
    }
  }

  /** `isFullyRedacted`. */
  predicate FullyRedacted(text: Bytes) {
    forall i :: 0 <= i < |text| ==> text[i] == STAR
  }

  method IsFullyRedacted(text: Bytes) returns (fully: bool)
    ensures fully == FullyRedacted(text)
  {
    for i := 0 to |text|
      invariant forall j :: 0 <= j < i ==> text[j] == STAR
    {
      if text[i] != STAR {
        return false;
      }
    }
    return true;
  }

  /** `isRedactionCongruent`: every byte is the original one or a star. */
  predicate Congruent(redacted: Bytes, original: Bytes) {
    forall i :: 0 <= i < |redacted| ==> redacted[i] == STAR || (i < |original| && redacted[i] == original[i])
  }

  method IsRedactionCongruent(redacted: Bytes, original: Bytes) returns (congruent: bool)
    ensures congruent == Congruent(redacted, original)
  {
    for i := 0 to |redacted|
      invariant forall j :: 0 <= j < i ==> redacted[j] == STAR || (j < |original| && redacted[j] == original[j])
    {
      var areSame := (i < |original| && redacted[i] == original[i]) || redacted[i] == STAR;
      if !areSame {
        return false;
      }
    }
    return true;
  }

  // ----- the sweep -----

  /** A hashed slice: where its text begins, how long it is, and what was hashed. */
  datatype Toprf = Toprf(at: nat, length: nat, nullifier: Bytes, plaintext: Bytes)

  datatype Sweep = Sweep(cursor: nat, text: Bytes, toprfs: seq<Toprf>)

  function Max(a: int, b: int): int {
    if a >= b then a else b
  }

  /** The text with `with` written from `start` up to `end`. */
  function Overwrite(text: Bytes, start: nat, end: nat, with: Bytes): (r: Bytes)
    requires start <= end ==> end - start <= |with|
    ensures |r| == |text|
  {
    seq(|text|, p requires 0 <= p < |text| => if start <= p < end then with[p - start] else text[p])
  }

  /** The slice's replacement, as long as the slice. */
  function Replacement(o: Oracles, total: Bytes, r: Redaction): (text: Bytes)
    requires r.fromIndex <= r.toIndex <= |total|
    ensures |text| == r.toIndex - r.fromIndex
  {
    if r.hash then BinaryHashToStr(o, o.oprf(total[r.fromIndex..r.toIndex]), r.toIndex - r.fromIndex)
    else Fill(STAR, r.toIndex - r.fromIndex)
  }

  /**
   One slice of the sweep. The cursor never moves back, so a slice that begins
   behind it is written from the cursor on. There is no block to carry a hash, and
   the sweep fails, when the cursor is at the end of the text.
   */
  function SweepOne(o: Oracles, total: Bytes, s: Sweep, r: Redaction): (next: Option<Sweep>)
    requires |s.text| == |total| && s.cursor <= |total| && r.fromIndex <= r.toIndex
    ensures next.Some? ==> |next.value.text| == |total| && next.value.cursor <= |total|
  {
    var start := Max(s.cursor, r.fromIndex);
    if start > |total| || r.toIndex > |total| || (r.hash && start == |total|) then None
    else
      var text := Overwrite(s.text, start, r.toIndex, Replacement(o, total, r));
      var plaintext := total[r.fromIndex..r.toIndex];
      var toprfs := if r.hash then s.toprfs + [Toprf(start, |plaintext|, o.oprf(plaintext), plaintext)]
                    else s.toprfs;
      Some(Sweep(Max(start, r.toIndex), text, toprfs))
  }

  predicate WellFormed(rs: seq<Redaction>) {
    forall k :: 0 <= k < |rs| ==> rs[k].fromIndex <= rs[k].toIndex
  }

  function SweepAll(o: Oracles, total: Bytes, rs: seq<Redaction>): (end: Option<Sweep>)
    requires WellFormed(rs)
    ensures end.Some? ==> |end.value.text| == |total| && end.value.cursor <= |total|
  {
    if rs == [] then Some(Sweep(0, total, []))
    else
      var n := |rs| - 1;
      match SweepAll(o, total, rs[..n])
      case None => None
      case Some(s) => SweepOne(o, total, s, rs[n])
  }

  /** How far the slices reach: where the cursor stands after them. */
  function Reach(rs: seq<Redaction>): nat {
    if rs == [] then 0
    else Max(Reach(rs[..|rs| - 1]), Max(rs[|rs| - 1].fromIndex, rs[|rs| - 1].toIndex))
  }

  lemma {:induction false} ReachGrows(rs: seq<Redaction>, k: nat)
    requires k <= |rs|
    ensures Reach(rs[..k]) <= Reach(rs)
    ensures k < |rs| ==> rs[k].fromIndex <= Reach(rs) && rs[k].toIndex <= Reach(rs)
  {
    if k < |rs| {
      var n := |rs| - 1;
      assert rs[..n][..k] == rs[..k];
      ReachGrows(rs[..n], k);
    } else {
      assert rs[..k] == rs;
    }
  }

  // ----- when the sweep fails -----

  /** A hash that the sweep meets only at the end of the text, where no block can carry it. */
  predicate HashAtEnd(rs: seq<Redaction>, k: nat, n: nat)
    requires k < |rs|
  {
    rs[k].hash && Max(Reach(rs[..k]), rs[k].fromIndex) == n
  }

  lemma {:induction false} SweepFailure(o: Oracles, total: Bytes, rs: seq<Redaction>)
    requires WellFormed(rs) && Reach(rs) <= |total|
    ensures SweepAll(o, total, rs) == None <==> exists k :: 0 <= k < |rs| && HashAtEnd(rs, k, |total|)
    ensures SweepAll(o, total, rs).Some? ==> SweepAll(o, total, rs).value.cursor == Reach(rs)
  {
    if rs != [] {
      var n := |rs| - 1;
      var prior := rs[..n];
      ReachGrows(rs, n);
      SweepFailure(o, total, prior);
      forall k | 0 <= k < n
        ensures HashAtEnd(prior, k, |total|) <==> HashAtEnd(rs, k, |total|)
      {
        assert prior[..k] == rs[..k];
      }
      if SweepAll(o, total, prior) == None {
        var k :| 0 <= k < n && HashAtEnd(prior, k, |total|);
        assert HashAtEnd(rs, k, |total|);
      } else if SweepAll(o, total, rs) == None {
        assert HashAtEnd(rs, n, |total|);
      }
    }
  }

  // ----- plain redactions: the sweep against `redactSlices` -----

  predicate AllPlain(rs: seq<Redaction>) {
    forall k :: 0 <= k < |rs| ==> !rs[k].hash
  }

  /** Whatever a slice covers behind the cursor, an earlier slice covered. */
  ghost predicate NothingPassedOver(rs: seq<Redaction>) {
    forall k, p :: 0 <= k < |rs| && Covers(rs[k], p) && p < Reach(rs[..k]) ==> Covered(rs[..k], p)
  }

  /** The position is written while the sweep handles the slice `k`. */
  predicate Swept(rs: seq<Redaction>, k: int, p: int) {
    0 <= k < |rs| && Max(Reach(rs[..k]), rs[k].fromIndex) <= p < rs[k].toIndex
  }

  lemma {:induction false} PlainSweep(o: Oracles, total: Bytes, rs: seq<Redaction>)
    requires WellFormed(rs) && AllPlain(rs) && Reach(rs) <= |total|
    ensures SweepAll(o, total, rs).Some?
    ensures forall p :: 0 <= p < |total| ==>
              SweepAll(o, total, rs).value.text[p] == if exists k :: Swept(rs, k, p) then STAR else total[p]
  {
    SweepFailure(o, total, rs);
    if rs != [] {
      var n := |rs| - 1;
      var prior := rs[..n];
      ReachGrows(rs, n);
      PlainSweep(o, total, prior);
      SweepFailure(o, total, prior);
      forall p | 0 <= p < |total|
        ensures SweepAll(o, total, rs).value.text[p] == if exists k :: Swept(rs, k, p) then STAR else total[p]
      {
        SweptSnoc(rs, p);
      }
    }
  }

  lemma SweptSnoc(rs: seq<Redaction>, p: int)
    requires rs != []
    ensures var n := |rs| - 1;
            (exists k :: Swept(rs, k, p)) <==> (exists k :: Swept(rs[..n], k, p)) || Swept(rs, n, p)
  {
    var n := |rs| - 1;
    forall k | 0 <= k < n
      ensures Swept(rs[..n], k, p) <==> Swept(rs, k, p)
    {
      assert rs[..n][..k] == rs[..k];
    }
    if k :| Swept(rs, k, p) && k != n {
      assert Swept(rs[..n], k, p);
    }
    if k :| Swept(rs[..n], k, p) {
      assert Swept(rs, k, p);
    }
  }

  lemma {:induction false} CoveredIsSwept(rs: seq<Redaction>, p: int)
    requires NothingPassedOver(rs) && Covered(rs, p)
    ensures exists k :: Swept(rs, k, p)
  {
    var n := |rs| - 1;
    var prior := rs[..n];
    forall k, q | 0 <= k < n && Covers(prior[k], q) && q < Reach(prior[..k])
      ensures Covered(prior[..k], q)
    {
      assert prior[..k] == rs[..k];
      assert Covers(rs[k], q);
    }
    if Covered(prior, p) {
      CoveredIsSwept(prior, p);
      var k :| Swept(prior, k, p);
      assert prior[..k] == rs[..k];
      assert Swept(rs, k, p);
    } else {
      assert rs[..n + 1] == rs;
      CoveredSnoc(rs, n);
      assert Swept(rs, n, p);
    }
  }

  /**
   Where no star stood before, the sweep over plain slices agrees with
   `redactSlices` exactly when no slice begins behind the cursor with bytes that no
   earlier slice covered.
   */
  lemma PlainSweepAgrees(o: Oracles, total: Bytes, rs: seq<Redaction>)
    requires WellFormed(rs) && AllPlain(rs) && Reach(rs) <= |total| && STAR !in total
    ensures SweepAll(o, total, rs).Some?
    ensures SweepAll(o, total, rs).value.text == Starred(total, rs) <==> NothingPassedOver(rs)
  {
    PlainSweep(o, total, rs);
    var text := SweepAll(o, total, rs).value.text;
    if NothingPassedOver(rs) {
      forall p | 0 <= p < |total|
        ensures text[p] == Starred(total, rs)[p]
      {
        if Covered(rs, p) {
          CoveredIsSwept(rs, p);
        }
      }
    }
    if text == Starred(total, rs) {
      forall k, p | 0 <= k < |rs| && Covers(rs[k], p) && p < Reach(rs[..k])
        ensures Covered(rs[..k], p)
      {
        ReachGrows(rs, k);
        assert Covered(rs, p) && text[p] == STAR && total[p] in total;
        var j :| Swept(rs, j, p);
        if j >= k {
          assert rs[..j][..k] == rs[..k];
          ReachGrows(rs[..j], k);
          assert false;
        }
        assert Covers(rs[..k][j], p);
      }
    }
  }

  predicate SortedByStart(rs: seq<Redaction>) {
    forall i, j :: 0 <= i < j < |rs| ==> rs[i].fromIndex <= rs[j].fromIndex
  }

  lemma {:induction false} ReachedBy(rs: seq<Redaction>, p: int)
    requires WellFormed(rs) && 0 <= p < Reach(rs)
    ensures exists j :: 0 <= j < |rs| && p < rs[j].toIndex
  {
    var n := |rs| - 1;
    if p >= rs[n].toIndex {
      ReachedBy(rs[..n], p);
      var j :| 0 <= j < n && p < rs[..n][j].toIndex;
      assert p < rs[j].toIndex;
    }
  }

  /** Slices in the order of their starts pass nothing over, overlapping or not. */
  lemma SortedPassNothingOver(rs: seq<Redaction>)
    requires WellFormed(rs) && SortedByStart(rs)
    ensures NothingPassedOver(rs)
  {
    forall k, p | 0 <= k < |rs| && Covers(rs[k], p) && p < Reach(rs[..k])
      ensures Covered(rs[..k], p)
    {
      ReachedBy(rs[..k], p);
      var j :| 0 <= j < k && p < rs[..k][j].toIndex;
      assert Covers(rs[..k][j], p);
    }
  }

  /**
   Slices that overlap and are sorted by their ends, as `getResponseRedactions`
   hands them over, may be passed over: the byte 0 here is covered and survives.
   */
  lemma SortedByEndMayPassOver(o: Oracles, total: Bytes)
    requires |total| == 4 && STAR !in total
    ensures var rs := [Redaction(1, 2, false), Redaction(0, 3, false)];
            && SweepAll(o, total, rs).Some?
            && Covered(rs, 0) && SweepAll(o, total, rs).value.text[0] == total[0] != STAR
  {
    var rs := [Redaction(1, 2, false), Redaction(0, 3, false)];
    assert Covers(rs[1], 0);
    assert rs[..0] == [] && rs[..1] == [Redaction(1, 2, false)] && rs[..1][..0] == [];
    assert Reach(rs[..1]) == 2 && Reach(rs) == 3;
    PlainSweep(o, total, rs);
    assert !Swept(rs, 0, 0) && !Swept(rs, 1, 0);
    assert total[0] in total;
  }

  // ----- slices in order: where every byte of the result comes from -----

  /** One behind the other, inside the text; a hashed slice is not empty. */
  predicate Ordered(rs: seq<Redaction>, n: nat) {
    && (forall k :: 0 <= k < |rs| ==> rs[k].fromIndex <= rs[k].toIndex <= n)
    && (forall k :: 0 <= k < |rs| && rs[k].hash ==> rs[k].fromIndex < rs[k].toIndex)
    && (forall i, k :: 0 <= i < k < |rs| ==> rs[i].toIndex <= rs[k].fromIndex)
  }

  /** The hash of a slice, with the place where the slice begins. */
  function HashOf(o: Oracles, total: Bytes, r: Redaction): seq<Toprf>
    requires r.fromIndex <= r.toIndex <= |total|
  {
    var plaintext := total[r.fromIndex..r.toIndex];
    if r.hash then [Toprf(r.fromIndex, |plaintext|, o.oprf(plaintext), plaintext)] else []
  }

  function Hashed(o: Oracles, total: Bytes, rs: seq<Redaction>): seq<Toprf>
    requires Ordered(rs, |total|)
  {
    if rs == [] then [] else Hashed(o, total, rs[..|rs| - 1]) + HashOf(o, total, rs[|rs| - 1])
  }

  /** A slice that begins at or behind the cursor. */
  lemma SweepAhead(o: Oracles, total: Bytes, s: Sweep, r: Redaction)
    requires |s.text| == |total| && s.cursor <= r.fromIndex <= r.toIndex <= |total|
    requires r.hash ==> r.fromIndex < r.toIndex
    ensures SweepOne(o, total, s, r) ==
            Some(Sweep(r.toIndex, Overwrite(s.text, r.fromIndex, r.toIndex, Replacement(o, total, r)),
                       s.toprfs + HashOf(o, total, r)))
  {
    assert s.toprfs + [] == s.toprfs;
  }

  lemma {:induction false} OrderedReach(rs: seq<Redaction>, n: nat)
    requires Ordered(rs, n)
    ensures Reach(rs) <= n
    ensures rs != [] ==> Reach(rs) == rs[|rs| - 1].toIndex
  {
    if rs != [] {
      OrderedReach(rs[..|rs| - 1], n);
    }
  }

  /** Uncovered bytes are the original ones, and every slice holds its replacement. */
  predicate Replaced(o: Oracles, total: Bytes, rs: seq<Redaction>, text: Bytes)
    requires Ordered(rs, |total|)
  {
    && |text| == |total|
    && (forall p :: 0 <= p < |total| && !Covered(rs, p) ==> text[p] == total[p])
    && (forall k :: 0 <= k < |rs| ==> Holds(o, total, rs[k], text))
  }

  predicate Holds(o: Oracles, total: Bytes, r: Redaction, text: Bytes)
    requires r.fromIndex <= r.toIndex <= |total|
  {
    |text| == |total| && text[r.fromIndex..r.toIndex] == Replacement(o, total, r)
  }

  lemma OverwriteHolds(o: Oracles, total: Bytes, text: Bytes, r: Redaction, next: Bytes)
    requires |text| == |total| && r.fromIndex <= r.toIndex <= |total|
    requires next == Overwrite(text, r.fromIndex, r.toIndex, Replacement(o, total, r))
    ensures Holds(o, total, r, next)
    ensures forall p :: 0 <= p < |total| && !Covers(r, p) ==> next[p] == text[p]
    ensures forall q: Redaction :: q.fromIndex <= q.toIndex <= r.fromIndex && Holds(o, total, q, text) ==>
              Holds(o, total, q, next)
  {
    forall q: Redaction | q.fromIndex <= q.toIndex <= r.fromIndex && Holds(o, total, q, text)
      ensures Holds(o, total, q, next)
    {
      assert next[q.fromIndex..q.toIndex] == text[q.fromIndex..q.toIndex];
    }
  }

  lemma ReplacedStep(o: Oracles, total: Bytes, rs: seq<Redaction>, text: Bytes, next: Bytes)
    requires rs != [] && Ordered(rs, |total|) && Replaced(o, total, rs[..|rs| - 1], text)
    requires var r := rs[|rs| - 1]; next == Overwrite(text, r.fromIndex, r.toIndex, Replacement(o, total, r))
    ensures Replaced(o, total, rs, next)
  {
    var n := |rs| - 1;
    OverwriteHolds(o, total, text, rs[n], next);
    assert rs[..n + 1] == rs;
    CoveredSnoc(rs, n);
    forall k | 0 <= k < |rs|
      ensures Holds(o, total, rs[k], next)
    {
      if k < n {
        assert Holds(o, total, rs[..n][k], text);
      }
    }
  }

  /**
   For slices in order the sweep succeeds, writes every slice's replacement over
   the slice, leaves all other bytes, and records each hash where its slice begins.
   */
  lemma {:induction false} OrderedSweep(o: Oracles, total: Bytes, rs: seq<Redaction>)
    requires Ordered(rs, |total|)
    ensures var end := SweepAll(o, total, rs);
            && end.Some?
            && end.value.cursor == Reach(rs)
            && end.value.toprfs == Hashed(o, total, rs)
            && Replaced(o, total, rs, end.value.text)
  {
    OrderedReach(rs, |total|);
    if rs != [] {
      var prior, r := rs[..|rs| - 1], rs[|rs| - 1];
      OrderedReach(prior, |total|);
      OrderedSweep(o, total, prior);
      var before := SweepAll(o, total, prior).value;
      SweepAhead(o, total, before, r);
      ReplacedStep(o, total, rs, before.text, SweepAll(o, total, rs).value.text);
    }
  }
}
