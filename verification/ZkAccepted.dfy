/**
 Which hashes a packet may have: `addPacketToProve` succeeds or refuses, told from the
 places of the hashes alone.
 */
module ZkAccepted {
  import opened ByteData
  import opened BlockReveal
  import opened Redaction
  import opened ZkPlan
  import opened ZkPartition
  import opened ZkRoundTrip

  // ----- the slice for one hash -----

  /** The hash and the byte behind it lie in one chunk of the grid. */
  predicate InOneChunk(alg: Algorithm, t: BlockToprf) {
    t.fromIndex / alg.chunk == (t.fromIndex + t.length) / alg.chunk
  }

  /**
   There is a place for the hash: in one chunk of the grid, or, as the guard has it, its end
   in blocks, rounded up, is at most a chunk behind the beginning of its first block in bytes.
   */
  predicate Placeable(alg: Algorithm, t: BlockToprf) {
    InOneChunk(alg, t)
    || (t.fromIndex + t.length + alg.block - 1) / alg.block <= t.fromIndex - t.fromIndex % alg.block + alg.chunk
  }

  /** The place is taken from the beginning of the hash's chunk, or else of its block. */
  function Start(alg: Algorithm, t: BlockToprf): nat {
    if InOneChunk(alg, t) then t.fromIndex - t.fromIndex % alg.chunk else t.fromIndex - t.fromIndex % alg.block
  }

  /** The position lies in the hash's chunk from its start, cut at the end of the packet. */
  predicate Takes(alg: Algorithm, size: nat, t: BlockToprf, p: nat) {
    Start(alg, t) <= p < Start(alg, t) + alg.chunk && p < size
  }

  lemma StartIs(alg: Algorithm, t: BlockToprf)
    ensures IdealOffset(alg, t.fromIndex, t.length) == if Placeable(alg, t) then Ok(Start(alg, t)) else Err(CannotFit)
  {
    DivBounds(t.fromIndex, alg.chunk);
    DivBounds(t.fromIndex, alg.block);
  }

  lemma OwnTakes(alg: Algorithm, size: nat, t: BlockToprf, p: nat)
    requires Placeable(alg, t)
    ensures OwnSlice(alg, size, t) == Some(Slice(Start(alg, t), Min(Start(alg, t) + alg.chunk, size)))
    ensures Takes(alg, size, t, p) <==> Contains(OwnSlice(alg, size, t).value, p)
  {
    StartIs(alg, t);
  }

  // ----- the slices placed so far -----

  /** The slices placed are those of the hashes, without empty ones. */
  ghost predicate SlicesOf(alg: Algorithm, size: nat, toprfs: seq<BlockToprf>, slices: seq<Slice>) {
    forall s :: s in slices <==> s.fromIndex < s.toIndex && exists k :: 0 <= k < |toprfs| && OwnSlice(alg, size, toprfs[k]) == Some(s)
  }

  lemma PlacedSlice(alg: Algorithm, ct: Bytes, rp: Bytes, t: BlockToprf, plan: Plan, s: Slice)
    requires AddToprf(alg, ct, rp, t, plan).Ok?
    ensures s in AddToprf(alg, ct, rp, t, plan).value.slices
       <==> s in plan.slices || (s.fromIndex < s.toIndex && OwnSlice(alg, |ct|, t) == Some(s))
  {
    var own := OwnSlice(alg, |ct|, t).value;
    OneSlice(alg, ct, rp, own, Some(Rebased(alg, t)), plan);
  }

  lemma {:induction false} PlacedSlices(alg: Algorithm, ct: Bytes, rp: Bytes, toprfs: seq<BlockToprf>)
    requires AddToprfs(alg, ct, rp, toprfs).Ok?
    ensures SlicesOf(alg, |ct|, toprfs, AddToprfs(alg, ct, rp, toprfs).value.slices)
    decreases |toprfs|
  {
    if toprfs != [] {
      var n := |toprfs| - 1;
      var prior, t := toprfs[..n], toprfs[n];
      PlacedSlices(alg, ct, rp, prior);
      var plan := AddToprfs(alg, ct, rp, prior).value;
      forall s
        ensures s in AddToprf(alg, ct, rp, t, plan).value.slices <==>
                s.fromIndex < s.toIndex && exists k :: 0 <= k < |toprfs| && OwnSlice(alg, |ct|, toprfs[k]) == Some(s)
      {
        PlacedSlice(alg, ct, rp, t, plan, s);
        assert forall k :: 0 <= k < n ==> prior[k] == toprfs[k];
      }
    }
  }

  // ----- one hash after the other -----

  /** A position of the packet would be taken for both hashes. */
  ghost predicate Collide(alg: Algorithm, size: nat, a: BlockToprf, b: BlockToprf) {
    exists p: nat :: Takes(alg, size, a, p) && Takes(alg, size, b, p)
  }

  /** What is wrong with hash `n`, as far as the ones in front of it are right. */
  ghost function ErrorAt(alg: Algorithm, size: nat, toprfs: seq<BlockToprf>, n: nat): Option<Error>
    requires n < |toprfs|
  {
    if toprfs[n].fromIndex + toprfs[n].length > size then Some(OutOfBounds)
    else if !Placeable(alg, toprfs[n]) then Some(CannotFit)
    else if exists j :: 0 <= j < n && Collide(alg, size, toprfs[j], toprfs[n]) then Some(Overlap)
    else None
  }

  ghost predicate AllRight(alg: Algorithm, size: nat, toprfs: seq<BlockToprf>, n: nat)
    requires n <= |toprfs|
  {
    forall j :: 0 <= j < n ==> ErrorAt(alg, size, toprfs, j) == None
  }

  /** The slice holds just the positions taken for the hash. */
  ghost predicate HoldsTaken(alg: Algorithm, size: nat, t: BlockToprf, s: Slice) {
    && s.fromIndex <= s.toIndex <= size
    && (s.fromIndex < s.toIndex || s.fromIndex == size)
    && forall p: nat :: Takes(alg, size, t, p) <==> Contains(s, p)
  }

  lemma OwnHoldsTaken(alg: Algorithm, size: nat, t: BlockToprf) returns (s: Slice)
    requires Placeable(alg, t) && t.fromIndex + t.length <= size
    ensures OwnSlice(alg, size, t) == Some(s) && HoldsTaken(alg, size, t, s)
  {
    StartIs(alg, t);
    StartBefore(alg, t);
    s := OwnSlice(alg, size, t).value;
    forall p: nat
      ensures Takes(alg, size, t, p) <==> Contains(s, p)
    {
      OwnTakes(alg, size, t, p);
    }
  }

  lemma StartBefore(alg: Algorithm, t: BlockToprf)
    ensures Start(alg, t) <= t.fromIndex
  {
  }

  lemma SlicesCollide(alg: Algorithm, size: nat, a: BlockToprf, s: Slice, b: BlockToprf, t: Slice)
    requires HoldsTaken(alg, size, a, s) && HoldsTaken(alg, size, b, t)
    ensures Collide(alg, size, a, b) <==> t.fromIndex < t.toIndex && Overlaps(s, t)
  {
    if p: nat :| Takes(alg, size, a, p) && Takes(alg, size, b, p) {
      assert Contains(s, p) && Contains(t, p);
    }
    if t.fromIndex < t.toIndex && Overlaps(s, t) {
      var p := Max(s.fromIndex, t.fromIndex);
      assert Contains(s, p) && Contains(t, p);
      assert Takes(alg, size, a, p) && Takes(alg, size, b, p);
    }
  }

  /** A hash overlaps one of the slices placed if and only if it collides with one of the hashes. */
  lemma OverlapsExactly(alg: Algorithm, size: nat, toprfs: seq<BlockToprf>, slices: seq<Slice>, t: BlockToprf, own: Slice)
    requires SlicesOf(alg, size, toprfs, slices) && HoldsTaken(alg, size, t, own)
    requires forall k :: 0 <= k < |toprfs| ==> Placeable(alg, toprfs[k]) && toprfs[k].fromIndex + toprfs[k].length <= size
    ensures (exists k :: 0 <= k < |slices| && Overlaps(own, slices[k]))
            <==> exists j :: 0 <= j < |toprfs| && Collide(alg, size, toprfs[j], t)
  {
    if k :| 0 <= k < |slices| && Overlaps(own, slices[k]) {
      assert slices[k] in slices;
      var j :| 0 <= j < |toprfs| && OwnSlice(alg, size, toprfs[j]) == Some(slices[k]);
      var s := OwnHoldsTaken(alg, size, toprfs[j]);
      SlicesCollide(alg, size, t, own, toprfs[j], s);
      assert Collide(alg, size, toprfs[j], t);
    }
    if j :| 0 <= j < |toprfs| && Collide(alg, size, toprfs[j], t) {
      assert Collide(alg, size, t, toprfs[j]);
      var s := OwnHoldsTaken(alg, size, toprfs[j]);
      SlicesCollide(alg, size, t, own, toprfs[j], s);
      assert s in slices;
      var k :| 0 <= k < |slices| && slices[k] == s;
    }
  }

  lemma OneMoreHash(alg: Algorithm, ct: Bytes, rp: Bytes, toprfs: seq<BlockToprf>, n: nat)
    requires n < |toprfs| && AddToprfs(alg, ct, rp, toprfs[..n]).Ok? && AllRight(alg, |ct|, toprfs, n)
    ensures var plan := AddToprfs(alg, ct, rp, toprfs[..n]).value;
            var e := ErrorAt(alg, |ct|, toprfs, n);
            if e == None then AddToprf(alg, ct, rp, toprfs[n], plan).Ok?
            else AddToprf(alg, ct, rp, toprfs[n], plan) == Err(e.value)
  {
    var prior, t := toprfs[..n], toprfs[n];
    StartIs(alg, t);
    if Placeable(alg, t) && t.fromIndex + t.length <= |ct| {
      PlacedSlices(alg, ct, rp, prior);
      forall k | 0 <= k < |prior|
        ensures Placeable(alg, prior[k]) && prior[k].fromIndex + prior[k].length <= |ct|
      {
        assert ErrorAt(alg, |ct|, toprfs, k) == None;
      }
      var own := OwnHoldsTaken(alg, |ct|, t);
      OverlapsExactly(alg, |ct|, prior, AddToprfs(alg, ct, rp, prior).value.slices, t, own);
      CollidesBefore(alg, |ct|, toprfs, prior, n);
    }
  }

  lemma CollidesBefore(alg: Algorithm, size: nat, toprfs: seq<BlockToprf>, prior: seq<BlockToprf>, n: nat)
    requires n < |toprfs| && prior == toprfs[..n]
    ensures (exists j :: 0 <= j < |prior| && Collide(alg, size, prior[j], toprfs[n]))
       <==> exists j :: 0 <= j < n && Collide(alg, size, toprfs[j], toprfs[n])
  {
    assert forall j :: 0 <= j < n ==> prior[j] == toprfs[j];
  }

  /** The first hash with something wrong decides. */
  lemma {:induction false} PlacedExactly(alg: Algorithm, ct: Bytes, rp: Bytes, toprfs: seq<BlockToprf>, n: nat)
    requires n <= |toprfs|
    ensures AddToprfs(alg, ct, rp, toprfs[..n]).Ok? <==> AllRight(alg, |ct|, toprfs, n)
    ensures forall j :: 0 <= j < n && AllRight(alg, |ct|, toprfs, j) && ErrorAt(alg, |ct|, toprfs, j).Some? ==>
              AddToprfs(alg, ct, rp, toprfs[..n]) == Err(ErrorAt(alg, |ct|, toprfs, j).value)
    decreases n
  {
    if n > 0 {
      PlacedExactly(alg, ct, rp, toprfs, n - 1);
      assert toprfs[..n][..n - 1] == toprfs[..n - 1];
      if AllRight(alg, |ct|, toprfs, n - 1) {
        OneMoreHash(alg, ct, rp, toprfs, n - 1);
      }
    }
  }

  /**
   A packet is planned if and only if every hash ends inside it, there is a place for each,
   and no position of the packet would be taken for two of them; otherwise it is refused
   with the error of the first hash for which that does not hold.
   */
  lemma AcceptedExactlyWhen(alg: Algorithm, ct: Bytes, rp: Bytes, toprfs: seq<BlockToprf>)
    ensures PlanPacket(alg, ct, rp, toprfs).Ok? <==>
            && (forall k :: 0 <= k < |toprfs| ==> toprfs[k].fromIndex + toprfs[k].length <= |ct| && Placeable(alg, toprfs[k]))
            && (forall j, k :: 0 <= j < k < |toprfs| ==> !Collide(alg, |ct|, toprfs[j], toprfs[k]))
    ensures forall n :: 0 <= n < |toprfs| && AllRight(alg, |ct|, toprfs, n) && ErrorAt(alg, |ct|, toprfs, n).Some? ==>
              PlanPacket(alg, ct, rp, toprfs) == Err(ErrorAt(alg, |ct|, toprfs, n).value)
  {
    PlacedExactly(alg, ct, rp, toprfs, |toprfs|);
    assert toprfs[..|toprfs|] == toprfs;
    if AllRight(alg, |ct|, toprfs, |toprfs|) {
      forall k | 0 <= k < |toprfs|
        ensures toprfs[k].fromIndex + toprfs[k].length <= |ct| && Placeable(alg, toprfs[k])
        ensures forall j :: 0 <= j < k ==> !Collide(alg, |ct|, toprfs[j], toprfs[k])
      {
        assert ErrorAt(alg, |ct|, toprfs, k) == None;
      }
    }
  }
}
