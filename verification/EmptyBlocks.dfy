/**
 What empty blocks do to `getBlocksToReveal`: its cursor takes a step over each of them,
 so that everything behind is redacted one byte too early.
 */
module EmptyBlocks {
  import opened ByteData
  import opened Redaction
  import opened BlockReveal
  import opened ResponseRedactions
  import opened Survivors

  /** How many of the first `n` blocks are empty. */
  function EmptyBefore(blocks: seq<Bytes>, n: nat): nat
    requires n <= |blocks|
  {
    if n == 0 then 0 else EmptyBefore(blocks, n - 1) + if blocks[n - 1] == [] then 1 else 0
  }

  lemma {:induction false} WideOffset(blocks: seq<Bytes>, b: nat)
    requires b <= |blocks|
    ensures Offset(Wide(blocks), b) == Offset(blocks, b) + EmptyBefore(blocks, b)
    decreases b
  {
    if b > 0 {
      WideOffset(blocks, b - 1);
      OffsetNext(blocks, b - 1);
      OffsetNext(Wide(blocks), b - 1);
    } else {
      OffsetEnd(blocks);
      OffsetEnd(Wide(blocks));
    }
  }

  lemma WideIsLonger(blocks: seq<Bytes>)
    ensures |Concat(Wide(blocks))| == |Concat(blocks)| + EmptyBefore(blocks, |blocks|)
  {
    WideOffset(blocks, |blocks|);
    OffsetEnd(blocks);
    OffsetEnd(Wide(blocks));
  }

  // ----- the sweep over the blocks -----

  /** What is written over a slice. */
  function Written(o: Oracles, source: Bytes, r: Redaction): (text: Bytes)
    requires r.fromIndex <= r.toIndex
    ensures |text| == r.toIndex - r.fromIndex
  {
    if r.hash then BinaryHashToStr(o, o.oprf(Take(source, r.fromIndex, r.toIndex)), r.toIndex - r.fromIndex)
    else Fill(STAR, r.toIndex - r.fromIndex)
  }

  lemma {:induction false} WideEnds(o: Oracles, source: Bytes, text: Bytes, rs: seq<Redaction>)
    requires WellFormed(rs) && WideAll(o, source, text, rs).Some?
    ensures WideAll(o, source, text, rs).value.cursor == Reach(rs) <= |text|
    ensures forall k :: 0 <= k < |rs| ==> rs[k].toIndex <= |text|
    decreases |rs|
  {
    if rs != [] {
      WideEnds(o, source, text, rs[..|rs| - 1]);
    }
  }

  /** The byte at a position, from the first slice that ends behind it. */
  function Shown(o: Oracles, source: Bytes, rs: seq<Redaction>, p: nat, original: Byte): Byte
    requires WellFormed(rs)
  {
    var k := FirstBehind(rs, p);
    if k == |rs| || p < rs[k].fromIndex then original
    else Written(o, source, rs[k])[p - Max(rs[k].fromIndex, Min(p, Reach(rs[..k])))]
  }

  lemma WrittenByte(o: Oracles, source: Bytes, s: Sweep, r: Redaction, p: nat)
    requires s.cursor <= |s.text| && r.fromIndex <= r.toIndex && WideOne(o, source, s, r).Some? && p < |s.text|
    ensures WideOne(o, source, s, r).value.text[p] ==
            var start := Max(s.cursor, r.fromIndex);
            if start <= p < r.toIndex then Written(o, source, r)[p - start] else s.text[p]
  {
  }

  lemma ShownEarlier(o: Oracles, source: Bytes, rs: seq<Redaction>, all: seq<Redaction>, p: nat, original: Byte)
    requires WellFormed(rs) && WellFormed(all) && rs <= all && FirstBehind(rs, p) < |rs|
    ensures Shown(o, source, all, p, original) == Shown(o, source, rs, p, original)
  {
    var k := FirstBehind(rs, p);
    assert forall i :: 0 <= i < |rs| ==> rs[i] == all[i];
    assert FirstBehind(all, p) == k && all[..k] == rs[..k];
  }

  lemma ShownLast(o: Oracles, source: Bytes, rs: seq<Redaction>, r: Redaction, p: nat, original: Byte)
    requires WellFormed(rs) && WellFormed(rs + [r]) && FirstBehind(rs, p) == |rs| && Reach(rs) <= p
    ensures Shown(o, source, rs + [r], p, original) ==
            if r.fromIndex <= p < r.toIndex then Written(o, source, r)[p - Max(Reach(rs), r.fromIndex)] else original
  {
    assert (rs + [r])[..|rs|] == rs;
    assert forall i :: 0 <= i < |rs| ==> rs[i] == (rs + [r])[i];
  }

  lemma ShownSnoc(o: Oracles, source: Bytes, rs: seq<Redaction>, r: Redaction, p: nat, original: Byte)
    requires WellFormed(rs) && WellFormed(rs + [r]) && EndsBy(rs, r.toIndex) && SortedByEnd(rs)
    ensures Shown(o, source, rs + [r], p, original) ==
            if Max(Reach(rs), r.fromIndex) <= p < r.toIndex then Written(o, source, r)[p - Max(Reach(rs), r.fromIndex)]
            else Shown(o, source, rs, p, original)
  {
    if FirstBehind(rs, p) < |rs| {
      SortedReach(rs, r.toIndex);
      ShownEarlier(o, source, rs, rs + [r], p, original);
    } else {
      SortedReach(rs, p);
      ShownLast(o, source, rs, r, p, original);
    }
  }

  /** The sweep is done with `prior`, and left what `Shown` says at `p`. */
  predicate Agrees(o: Oracles, source: Bytes, text: Bytes, prior: seq<Redaction>, s: Sweep, p: nat)
    requires p < |text|
  {
    && WellFormed(prior) && SortedByEnd(prior) && WideAll(o, source, text, prior) == Some(s)
    && |s.text| == |text| && s.text[p] == Shown(o, source, prior, p, text[p])
  }

  lemma AgreesNext(o: Oracles, source: Bytes, text: Bytes, prior: seq<Redaction>, r: Redaction, s: Sweep, p: nat)
    requires p < |text| && Agrees(o, source, text, prior, s, p) && EndsBy(prior, r.toIndex) && WellFormed(prior + [r])
    requires SortedByEnd(prior + [r]) && r.fromIndex <= r.toIndex && WideOne(o, source, s, r).Some?
    ensures Agrees(o, source, text, prior + [r], WideOne(o, source, s, r).value, p)
  {
    WideEnds(o, source, text, prior);
    NextDecides(o, source, prior, r, s, p, text[p]);
    WideSnoc(o, source, text, prior, r);
  }

  lemma WideSnoc(o: Oracles, source: Bytes, text: Bytes, prior: seq<Redaction>, r: Redaction)
    requires WellFormed(prior) && WellFormed(prior + [r]) && r.fromIndex <= r.toIndex
    ensures WideAll(o, source, text, prior + [r]) ==
            match WideAll(o, source, text, prior) case None => None case Some(s) => WideOne(o, source, s, r)
  {
    assert (prior + [r])[..|prior|] == prior;
  }

  lemma PriorInOrder(rs: seq<Redaction>, k: nat)
    requires WellFormed(rs) && SortedByEnd(rs) && k < |rs|
    ensures WellFormed(rs[..k]) && SortedByEnd(rs[..k]) && EndsBy(rs[..k], rs[k].toIndex)
    ensures rs[..k + 1] == rs[..k] + [rs[k]] && WellFormed(rs[..k + 1]) && SortedByEnd(rs[..k + 1])
  {
  }

  lemma NextRuns(o: Oracles, source: Bytes, text: Bytes, rs: seq<Redaction>, k: nat, s: Sweep)
    requires WellFormed(rs) && k < |rs| && WideAll(o, source, text, rs).Some? && WideAll(o, source, text, rs[..k]) == Some(s)
    ensures WideOne(o, source, s, rs[k]).Some?
  {
    var longer := rs[..k + 1];
    assert longer[..k] == rs[..k] && longer[k] == rs[k];
    if WideAll(o, source, text, longer) == None {
      WideStaysFailed(o, source, text, rs, k + 1);
    }
  }

  /** Slices in the order of their ends, hashed or not: the first that ends behind a position decides. */
  lemma WideSorted(o: Oracles, source: Bytes, text: Bytes, rs: seq<Redaction>, p: nat)
    requires WellFormed(rs) && SortedByEnd(rs) && WideAll(o, source, text, rs).Some? && p < |text|
    ensures WideAll(o, source, text, rs).value.text[p] == Shown(o, source, rs, p, text[p])
  {
    var s := Sweep(0, text, []);
    for k := 0 to |rs|
      invariant Agrees(o, source, text, rs[..k], s, p)
    {
      PriorInOrder(rs, k);
      NextRuns(o, source, text, rs, k, s);
      AgreesNext(o, source, text, rs[..k], rs[k], s, p);
      s := WideOne(o, source, s, rs[k]).value;
    }
    assert rs[..|rs|] == rs;
  }

  lemma NextDecides(o: Oracles, source: Bytes, prior: seq<Redaction>, r: Redaction, s: Sweep, p: nat, original: Byte)
    requires WellFormed(prior) && SortedByEnd(prior) && EndsBy(prior, r.toIndex) && r.fromIndex <= r.toIndex
    requires s.cursor == Reach(prior) <= |s.text| && WideOne(o, source, s, r).Some? && p < |s.text|
    requires s.text[p] == Shown(o, source, prior, p, original)
    ensures WellFormed(prior + [r])
    ensures WideOne(o, source, s, r).value.text[p] == Shown(o, source, prior + [r], p, original)
  {
    WrittenByte(o, source, s, r, p);
    ShownSnoc(o, source, prior, r, p, original);
  }

  // ----- the blocks -----

  /** What block `b` shows after the redaction. */
  function BlockText(blocks: seq<Bytes>, s: Sweep, b: nat): (text: Bytes)
    requires b < |blocks| && |s.text| == |Concat(Wide(blocks))|
    ensures |text| == |blocks[b]|
  {
    OffsetNext(Wide(blocks), b);
    WideBlock(blocks, s, b).redactedPlaintext
  }

  lemma PieceByte(blocks: seq<Bytes>, text: Bytes, b: nat, i: nat)
    requires b < |blocks| && |text| == |Concat(blocks)| && i < |blocks[b]|
    ensures Offset(blocks, b) + i < |text|
    ensures |Piece(blocks, text, b)| == |blocks[b]| && Piece(blocks, text, b)[i] == text[Offset(blocks, b) + i]
    ensures Concat(blocks)[Offset(blocks, b) + i] == blocks[b][i]
  {
    OffsetNext(blocks, b);
    ConcatPiece(blocks, b);
    assert Concat(blocks)[Offset(blocks, b)..Offset(blocks, b) + |blocks[b]|][i] == Concat(blocks)[Offset(blocks, b) + i];
  }

  lemma BlockByte(blocks: seq<Bytes>, s: Sweep, b: nat, i: nat, p: nat)
    requires b < |blocks| && |s.text| == |Concat(Wide(blocks))| && i < |blocks[b]|
    requires p == Offset(Wide(blocks), b) + i
    ensures p < |s.text| && BlockText(blocks, s, b)[i] == s.text[p] && Concat(Wide(blocks))[p] == blocks[b][i]
  {
    PieceByte(Wide(blocks), s.text, b, i);
  }

  /** Where the byte is redacted: as many places behind its own as there are empty blocks in front. */
  function RedactedAt(blocks: seq<Bytes>, b: nat, i: nat): nat
    requires b < |blocks|
  {
    Offset(blocks, b) + i + EmptyBefore(blocks, b)
  }

  /** The byte of the block is what the slices leave of it there. */
  predicate RedactedThere(o: Oracles, blocks: seq<Bytes>, rs: seq<Redaction>, s: Sweep, b: nat, i: nat)
    requires WellFormed(rs) && b < |blocks| && |s.text| == |Concat(Wide(blocks))| && i < |blocks[b]|
  {
    BlockText(blocks, s, b)[i] == Shown(o, Concat(blocks), rs, RedactedAt(blocks, b, i), blocks[b][i])
  }

  /** The sweep that the revealed blocks come from. */
  predicate SweptTo(o: Oracles, blocks: seq<Bytes>, rs: seq<Redaction>, s: Sweep) {
    WellFormed(rs) && SortedByEnd(rs) && WideAll(o, Concat(blocks), Concat(Wide(blocks)), rs) == Some(s)
  }

  lemma ByteLeft(o: Oracles, blocks: seq<Bytes>, rs: seq<Redaction>, s: Sweep, b: nat, i: nat)
    requires SweptTo(o, blocks, rs, s) && b < |blocks| && i < |blocks[b]|
    ensures RedactedThere(o, blocks, rs, s, b, i)
  {
    WideOffset(blocks, b);
    BlockByte(blocks, s, b, i, RedactedAt(blocks, b, i));
    WideSorted(o, Concat(blocks), Concat(Wide(blocks)), rs, RedactedAt(blocks, b, i));
  }

  /**
   For every list in the order of its ends, overlapping or not, hashed or not, for which
   blocks are revealed: each byte of a block is what the slices leave of it as many places
   behind its own as there are empty blocks in front of it.
   */
  lemma RedactedTooEarly(o: Oracles, blocks: seq<Bytes>, rs: seq<Redaction>) returns (s: Sweep)
    requires WellFormed(rs) && SortedByEnd(rs) && Revealed(o, blocks, rs).Blocks?
    ensures SweptTo(o, blocks, rs, s) && Revealed(o, blocks, rs) == Blocks(WideToReveal(blocks, s, |blocks|))
    ensures forall b: nat, i: nat :: b < |blocks| && i < |blocks[b]| ==> RedactedThere(o, blocks, rs, s, b, i)
  {
    s := WideAll(o, Concat(blocks), Concat(Wide(blocks)), rs).value;
    forall b: nat, i: nat | b < |blocks| && i < |blocks[b]|
      ensures RedactedThere(o, blocks, rs, s, b, i)
    {
      ByteLeft(o, blocks, rs, s, b, i);
    }
  }

  // ----- when a block is redacted as meant -----

  /** The slices leave a star there, if none of them is hashed. */
  predicate StarAt(rs: seq<Redaction>, p: nat) {
    var k := FirstBehind(rs, p);
    k < |rs| && rs[k].fromIndex <= p
  }

  /** The byte is starred if and only if the position it is redacted for is. */
  predicate Aligned(blocks: seq<Bytes>, rs: seq<Redaction>, b: nat, i: nat)
    requires b < |blocks|
  {
    StarAt(rs, RedactedAt(blocks, b, i)) <==> StarAt(rs, Offset(blocks, b) + i)
  }

  /** What block `b` should show: what the slices leave of the concatenated blocks. */
  function MeantText(o: Oracles, blocks: seq<Bytes>, rs: seq<Redaction>, b: nat): (text: Bytes)
    requires WellFormed(rs) && b < |blocks|
    ensures |text| == |blocks[b]|
  {
    seq(|blocks[b]|, i requires 0 <= i < |blocks[b]| =>
      Shown(o, Concat(blocks), rs, Offset(blocks, b) + i, blocks[b][i]))
  }

  lemma PlainShown(o: Oracles, source: Bytes, rs: seq<Redaction>, p: nat, original: Byte)
    requires WellFormed(rs) && AllPlain(rs)
    ensures Shown(o, source, rs, p, original) == if StarAt(rs, p) then STAR else original
  {
  }

  lemma SameBytes(a: Bytes, b: Bytes)
    requires |a| == |b|
    ensures a == b <==> forall i: nat :: i < |a| ==> a[i] == b[i]
  {
  }

  lemma AlignedByte(o: Oracles, blocks: seq<Bytes>, rs: seq<Redaction>, s: Sweep, b: nat, i: nat)
    requires SweptTo(o, blocks, rs, s) && AllPlain(rs) && b < |blocks| && STAR !in blocks[b] && i < |blocks[b]|
    ensures BlockText(blocks, s, b)[i] == MeantText(o, blocks, rs, b)[i] <==> Aligned(blocks, rs, b, i)
  {
    ByteLeft(o, blocks, rs, s, b, i);
    PlainShown(o, Concat(blocks), rs, RedactedAt(blocks, b, i), blocks[b][i]);
    PlainShown(o, Concat(blocks), rs, Offset(blocks, b) + i, blocks[b][i]);
    assert blocks[b][i] in blocks[b];
  }

  /**
   For plain slices in the order of their ends, and where no star stood before: a block is
   redacted as meant exactly when each of its bytes is starred if and only if the one that
   comes as many places behind it as there are empty blocks in front is.
   */
  lemma RedactedAsMeantExactlyWhen(o: Oracles, blocks: seq<Bytes>, rs: seq<Redaction>, s: Sweep, b: nat)
    requires SweptTo(o, blocks, rs, s) && AllPlain(rs) && b < |blocks| && STAR !in blocks[b]
    ensures BlockText(blocks, s, b) == MeantText(o, blocks, rs, b) <==>
            forall i: nat :: i < |blocks[b]| ==> Aligned(blocks, rs, b, i)
  {
    forall i: nat | i < |blocks[b]|
      ensures BlockText(blocks, s, b)[i] == MeantText(o, blocks, rs, b)[i] <==> Aligned(blocks, rs, b, i)
    {
      AlignedByte(o, blocks, rs, s, b, i);
    }
    SameBytes(BlockText(blocks, s, b), MeantText(o, blocks, rs, b));
  }

  /** What is meant is what the flat sweep leaves of the block. */
  lemma MeantIsFlat(o: Oracles, blocks: seq<Bytes>, rs: seq<Redaction>, b: nat)
    requires WellFormed(rs) && SortedByEnd(rs) && SweepAll(o, Concat(blocks), rs).Some? && b < |blocks|
    ensures MeantText(o, blocks, rs, b) == Piece(blocks, SweepAll(o, Concat(blocks), rs).value.text, b)
  {
    var total := Concat(blocks);
    var text := SweepAll(o, total, rs).value.text;
    WideIsFlat(o, total, rs);
    OffsetNext(blocks, b);
    forall i: nat | i < |blocks[b]|
      ensures MeantText(o, blocks, rs, b)[i] == Piece(blocks, text, b)[i]
    {
      PieceByte(blocks, text, b, i);
      WideSorted(o, total, total, rs, Offset(blocks, b) + i);
    }
    SameBytes(MeantText(o, blocks, rs, b), Piece(blocks, text, b));
  }

  /** The blocks "a", nothing and "bc", with "b" to be hidden: it is shown. */
  lemma EmptyBlockShows(o: Oracles) returns (s: Sweep)
    ensures var blocks, rs := [[97], [], [98, 99]], [Redaction(1, 2, false)];
            && Concat(blocks) == [97, 98, 99] && Covered(rs, 1) && SweptTo(o, blocks, rs, s)
            && Revealed(o, blocks, rs) == Blocks(WideToReveal(blocks, s, 3))
            && BlockText(blocks, s, 2) == [98, 99]
  {
    ThreeBlocks([[97], [], [98, 99]]);
    assert Covers([Redaction(1, 2, false)][0], 1);
    s := BothShown(o, [[97], [], [98, 99]], Redaction(1, 2, false));
  }

  lemma BothShown(o: Oracles, blocks: seq<Bytes>, r: Redaction) returns (s: Sweep)
    requires |blocks| == 3 && blocks[2] == [98, 99] && Offset(blocks, 2) == 1 && EmptyBefore(blocks, 2) == 1
    requires |Concat(Wide(blocks))| == 4 && r == Redaction(1, 2, false)
    ensures SweptTo(o, blocks, [r], s) && Revealed(o, blocks, [r]) == Blocks(WideToReveal(blocks, s, 3))
    ensures BlockText(blocks, s, 2) == [98, 99]
  {
    OneSwept(o, Concat(blocks), Concat(Wide(blocks)), r);
    s := RedactedTooEarly(o, blocks, [r]);
    NothingAt(o, Concat(blocks), r, 2, 98);
    NothingAt(o, Concat(blocks), r, 3, 99);
    assert RedactedThere(o, blocks, [r], s, 2, 0) && RedactedThere(o, blocks, [r], s, 2, 1);
  }

  lemma OneSwept(o: Oracles, source: Bytes, text: Bytes, r: Redaction)
    requires r.fromIndex <= r.toIndex <= |text| && !r.hash
    ensures WideAll(o, source, text, [r]).Some?
  {
    assert [r][..0] == [];
  }

  lemma NothingAt(o: Oracles, source: Bytes, r: Redaction, p: nat, original: Byte)
    requires r.fromIndex <= r.toIndex <= p
    ensures Shown(o, source, [r], p, original) == original
  {
    assert [r][..0] == [];
  }

  lemma ThreeBlocks(blocks: seq<Bytes>)
    requires blocks == [[97], [], [98, 99]]
    ensures Concat(blocks) == [97, 98, 99] && Offset(blocks, 2) == 1
    ensures EmptyBefore(blocks, 2) == 1 && |Concat(Wide(blocks))| == 4
  {
    assert blocks == [[97]] + ([[]] + [[98, 99]]);
    ConcatAppend([[97]], [[]] + [[98, 99]]);
    ConcatAppend([[]], [[98, 99]]);
    assert Concat([[97]]) == [97] + Concat([[97]][1..]) && Concat([[98, 99]]) == [98, 99] + Concat([[98, 99]][1..]);
    assert Concat([[]]) == [] + Concat([[]][1..]);
    assert blocks[..2] == [[97]] + [[]];
    ConcatAppend([[97]], [[]]);
    assert EmptyBefore(blocks, 1) == 0 && EmptyBefore(blocks, 2) == 1;
    WideIsLonger(blocks);
  }
}
