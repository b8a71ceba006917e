/**
 `getBlocksToReveal`: redaction of a response that arrived in several blocks. The
 cursor machine over blocks is proved to perform the flat sweep of `Redaction`.
 */
module BlockReveal {
  import opened ByteData
  import opened Redaction

  /** A hash as a block carries it: the location counts from the block's first byte. */
  datatype BlockToprf = BlockToprf(fromIndex: nat, length: nat, nullifier: Bytes, plaintext: Bytes)

  /** A block to reveal: its place in the list, its redacted text and its hashes. */
  datatype RevealedBlock = RevealedBlock(block: nat, redactedPlaintext: Bytes, toprfs: seq<BlockToprf>)

  datatype Reveal = All | Blocks(revealed: seq<RevealedBlock>) | Failed

  /** The position of the block's first byte in the concatenation. */
  function Offset(blocks: seq<Bytes>, b: nat): nat
    requires b <= |blocks|
  {
    |Concat(blocks[..b])|
  }

  lemma OffsetNext(blocks: seq<Bytes>, b: nat)
    requires b < |blocks|
    ensures Offset(blocks, b + 1) == Offset(blocks, b) + |blocks[b]|
    ensures Offset(blocks, b + 1) <= |Concat(blocks)|
  {
    assert blocks[..b + 1] == blocks[..b] + [blocks[b]];
    ConcatSnoc(blocks[..b], blocks[b]);
    assert blocks == blocks[..b + 1] + blocks[b + 1..];
    ConcatAppend(blocks[..b + 1], blocks[b + 1..]);
  }

  lemma OffsetEnd(blocks: seq<Bytes>)
    ensures Offset(blocks, 0) == 0 && Offset(blocks, |blocks|) == |Concat(blocks)|
  {
    assert blocks[..|blocks|] == blocks;
  }

  lemma {:induction false} OffsetMonotone(blocks: seq<Bytes>, b: nat, c: nat)
    requires b <= c <= |blocks|
    ensures Offset(blocks, b) <= Offset(blocks, c)
    decreases c - b
  {
    if b < c {
      OffsetNext(blocks, b);
      OffsetMonotone(blocks, b + 1, c);
    }
  }

  /** The hashes that begin in the `n` bytes from `at` on, located from there. */
  function InBlock(toprfs: seq<Toprf>, at: nat, n: nat): seq<BlockToprf> {
    if toprfs == [] then []
    else
      var t := toprfs[|toprfs| - 1];
      InBlock(toprfs[..|toprfs| - 1], at, n)
      + if at <= t.at < at + n then [BlockToprf(t.at - at, t.length, t.nullifier, t.plaintext)] else []
  }

  lemma InBlockSnoc(toprfs: seq<Toprf>, t: Toprf, at: nat, n: nat)
    ensures InBlock(toprfs + [t], at, n) == InBlock(toprfs, at, n)
            + if at <= t.at < at + n then [BlockToprf(t.at - at, t.length, t.nullifier, t.plaintext)] else []
  {
    assert (toprfs + [t])[..|toprfs|] == toprfs;
  }

  /** A piece of a concatenation. */
  lemma {:induction false} ConcatPiece(parts: seq<Bytes>, b: nat)
    requires b < |parts|
    ensures Offset(parts, b) + |parts[b]| <= |Concat(parts)|
    ensures Concat(parts)[Offset(parts, b)..Offset(parts, b) + |parts[b]|] == parts[b]
  {
    OffsetNext(parts, b);
    assert parts == parts[..b] + ([parts[b]] + parts[b + 1..]);
    ConcatAppend(parts[..b], [parts[b]] + parts[b + 1..]);
    ConcatAppend([parts[b]], parts[b + 1..]);
  }

  function WithByte(text: Bytes, i: nat, v: Byte): Bytes
    requires i < |text|
  {
    text[i := v]
  }

  lemma ConcatUpdate(parts: seq<Bytes>, b: nat, c: nat, v: Byte)
    requires b < |parts| && c < |parts[b]|
    ensures Offset(parts, b) + c < |Concat(parts)|
    ensures Concat(parts[b := WithByte(parts[b], c, v)]) == WithByte(Concat(parts), Offset(parts, b) + c, v)
  {
    OffsetNext(parts, b);
    SplitAround(parts, b, parts[b]);
    assert parts[b := parts[b]] == parts;
    SplitAround(parts, b, WithByte(parts[b], c, v));
    UpdateInside(Concat(parts[..b]), parts[b], Concat(parts[b + 1..]), c, v);
  }

  lemma SplitAround(parts: seq<Bytes>, b: nat, part: Bytes)
    requires b < |parts|
    ensures Concat(parts[b := part]) == Concat(parts[..b]) + (part + Concat(parts[b + 1..]))
  {
    assert parts[b := part] == parts[..b] + ([part] + parts[b + 1..]);
    ConcatAround(parts[..b], part, parts[b + 1..]);
  }

  lemma ConcatAround(before: seq<Bytes>, part: Bytes, after: seq<Bytes>)
    ensures Concat(before + ([part] + after)) == Concat(before) + (part + Concat(after))
  {
    ConcatAppend(before, [part] + after);
    assert ([part] + after)[1..] == after;
  }

  lemma UpdateInside(before: Bytes, part: Bytes, after: Bytes, c: nat, v: Byte)
    requires c < |part|
    ensures before + (WithByte(part, c, v) + after) == WithByte(before + (part + after), |before| + c, v)
  {
  }

  lemma {:induction false} SameLengths(xs: seq<Bytes>, ys: seq<Bytes>)
    requires |xs| == |ys| && forall b :: 0 <= b < |xs| ==> |xs[b]| == |ys[b]|
    ensures |Concat(xs)| == |Concat(ys)|
  {
    if xs != [] {
      SameLengths(xs[1..], ys[1..]);
    }
  }

  // ----- the text as the cursor counts it -----

  /** The cursor takes one step over an empty block. */
  const PHANTOM: Bytes := [0]

  function Wide(blocks: seq<Bytes>): (wide: seq<Bytes>)
    ensures |wide| == |blocks|
    ensures forall b :: 0 <= b < |blocks| ==> wide[b] == if blocks[b] == [] then PHANTOM else blocks[b]
  {
    seq(|blocks|, b requires 0 <= b < |blocks| => if blocks[b] == [] then PHANTOM else blocks[b])
  }

  /**
   One slice, over a text that may be longer than the one the slices were made for; what
   is hashed is cut out of that one.
   */
  function WideOne(o: Oracles, source: Bytes, s: Sweep, r: Redaction): (next: Option<Sweep>)
    requires s.cursor <= |s.text| && r.fromIndex <= r.toIndex
    ensures next.Some? ==> next.value.cursor <= |next.value.text| == |s.text|
  {
    var start, length := Max(s.cursor, r.fromIndex), r.toIndex - r.fromIndex;
    if start > |s.text| || r.toIndex > |s.text| || (r.hash && start == |s.text|) then None
    else
      var plaintext := Take(source, r.fromIndex, r.toIndex);
      var nullifier := o.oprf(plaintext);
      var with := if r.hash then BinaryHashToStr(o, nullifier, length) else Fill(STAR, length);
      var toprfs := if r.hash then s.toprfs + [Toprf(start, length, nullifier, plaintext)] else s.toprfs;
      Some(Sweep(Max(start, r.toIndex), Overwrite(s.text, start, r.toIndex, with), toprfs))
  }

  function WideAll(o: Oracles, source: Bytes, text: Bytes, rs: seq<Redaction>): (end: Option<Sweep>)
    requires WellFormed(rs)
    ensures end.Some? ==> end.value.cursor <= |end.value.text| == |text|
  {
    if rs == [] then Some(Sweep(0, text, []))
    else
      var n := |rs| - 1;
      match WideAll(o, source, text, rs[..n])
      case None => None
      case Some(s) => WideOne(o, source, s, rs[n])
  }

  lemma {:induction false} WideStaysFailed(o: Oracles, source: Bytes, text: Bytes, rs: seq<Redaction>, k: nat)
    requires WellFormed(rs) && k <= |rs| && WideAll(o, source, text, rs[..k]) == None
    ensures WideAll(o, source, text, rs) == None
    decreases |rs|
  {
    if k < |rs| {
      assert rs[..|rs| - 1][..k] == rs[..k];
      WideStaysFailed(o, source, text, rs[..|rs| - 1], k);
    } else {
      assert rs[..k] == rs;
    }
  }

  /** Over the text itself it is the flat sweep. */
  lemma {:induction false} WideIsFlat(o: Oracles, total: Bytes, rs: seq<Redaction>)
    requires WellFormed(rs)
    ensures WideAll(o, total, total, rs) == SweepAll(o, total, rs)
    decreases |rs|
  {
    if rs != [] {
      WideIsFlat(o, total, rs[..|rs| - 1]);
    }
  }

  lemma OverwriteMore(text: Bytes, start: nat, cursor: nat, with: Bytes)
    requires start <= cursor < |text| && cursor - start < |with|
    ensures WithByte(Overwrite(text, start, cursor, with), cursor, with[cursor - start])
            == Overwrite(text, start, cursor + 1, with)
  {
  }

  lemma OverwriteNothing(text: Bytes, start: nat, with: Bytes)
    ensures Overwrite(text, start, start, with) == text
  {
  }

  lemma OverwriteUpTo(text: Bytes, start: nat, position: nat, with: Bytes)
    requires position - start <= |with|
    ensures Overwrite(text, start, Max(start, position), with) == Overwrite(text, start, position, with)
  {
  }

  class BlockRedactor {
    const o: Oracles
    const blocks: seq<Bytes>
    /** the blocks as the cursor counts them */
    ghost const wide: seq<Bytes>
    /**
     the copies of the blocks' plaintexts that are redacted in place; that of an empty
     block has one cell, which nobody reads, for the write that has no effect
     */
    const redacted: seq<array<Byte>>
    var toprfs: seq<seq<BlockToprf>>
    var blockIdx: nat
    var cursorInBlock: nat
    var cursor: nat
    /** the hashes so far, located where the cursor stood */
    ghost var flat: seq<Toprf>

    ghost predicate Valid()
      reads this
    {
      Shaped() && AtCursor()
    }

    ghost predicate Shaped()
      reads `toprfs, `flat
    {
      && |redacted| == |toprfs| == |blocks| == |wide|
      && (forall b :: 0 <= b < |blocks| ==> redacted[b].Length == |wide[b]|)
      && (forall b :: 0 <= b < |blocks| ==> |wide[b]| == Max(1, |blocks[b]|))
      && (forall b, c :: 0 <= b < c < |blocks| ==> redacted[b] != redacted[c])
      && (forall b :: 0 <= b < |blocks| ==> toprfs[b] == InBlock(flat, Offset(wide, b), |wide[b]|))
    }

    ghost predicate AtCursor()
      reads `blockIdx, `cursorInBlock, `cursor
    {
      && blockIdx <= |blocks| == |wide|
      && cursorInBlock < (if blockIdx < |blocks| then |wide[blockIdx]| else 1)
      && cursor == Offset(wide, blockIdx) + cursorInBlock
    }

    ghost function Texts(): (texts: seq<Bytes>)
      reads redacted
      ensures |texts| == |redacted| && forall b :: 0 <= b < |texts| ==> texts[b] == redacted[b][..]
    {
      seq(|redacted|, b requires 0 <= b < |redacted| reads redacted => redacted[b][..])
    }

    /** The flat sweep that the fields stand for. */
    ghost function Flat(): Sweep
      reads this, redacted
    {
      Sweep(cursor, Concat(Texts()), flat)
    }

    /** `Flat()`, with the bounds that hold for it. */
    ghost function SweepHere(): (s: Sweep)
      requires Valid()
      reads this, redacted
      ensures s == Flat() && |s.text| == |Concat(wide)| && s.cursor <= |Concat(wide)|
    {
      Bounds();
      Flat()
    }

    lemma Bounds()
      requires Valid()
      ensures |Concat(Texts())| == |Concat(wide)|
      ensures blockIdx < |blocks| <==> cursor < |Concat(wide)|
      ensures cursor <= |Concat(wide)|
    {
      SameLengths(Texts(), wide);
      Place();
    }

    /** Where the cursor is among the bytes of all blocks. */
    lemma Place()
      requires AtCursor()
      ensures blockIdx < |blocks| <==> cursor < |Concat(wide)|
      ensures cursor <= |Concat(wide)|
    {
      OffsetEnd(wide);
      if blockIdx < |blocks| {
        OffsetNext(wide, blockIdx);
      }
    }

    /** The block under the cursor is the one in which a hash at the cursor begins. */
    lemma CarriedBy(t: Toprf)
      requires Valid() && blockIdx < |blocks| && t.at == cursor
      ensures forall b :: 0 <= b < |blocks| ==>
                InBlock(flat + [t], Offset(wide, b), |wide[b]|) ==
                if b == blockIdx then toprfs[b] + [BlockToprf(cursorInBlock, t.length, t.nullifier, t.plaintext)]
                else toprfs[b]
    {
      forall b | 0 <= b < |blocks|
        ensures InBlock(flat + [t], Offset(wide, b), |wide[b]|) ==
                if b == blockIdx then toprfs[b] + [BlockToprf(cursorInBlock, t.length, t.nullifier, t.plaintext)]
                else toprfs[b]
      {
        InBlockSnoc(flat, t, Offset(wide, b), |wide[b]|);
        if b < blockIdx {
          OffsetMonotone(wide, b + 1, blockIdx);
          OffsetNext(wide, b);
        } else if blockIdx < b {
          OffsetNext(wide, blockIdx);
          OffsetMonotone(wide, blockIdx + 1, b);
        }
      }
    }

    constructor (o: Oracles, blocks: seq<Bytes>, copies: seq<array<Byte>>)
      requires |copies| == |blocks|
      requires forall b :: 0 <= b < |blocks| ==> copies[b][..] == Wide(blocks)[b]
      requires forall b, c :: 0 <= b < c < |blocks| ==> copies[b] != copies[c]
      ensures Valid() && this.o == o && this.blocks == blocks && redacted == copies
      ensures wide == Wide(blocks) && Flat() == Sweep(0, Concat(wide), [])
    {
      this.o, this.blocks, redacted := o, blocks, copies;
      wide := Wide(blocks);
      toprfs := seq(|blocks|, _ => []);
      blockIdx, cursorInBlock, cursor, flat := 0, 0, 0, [];
      new;
      OffsetEnd(wide);
      assert Texts() == wide;
    }

    /** Throws at the end of the last block. */
    method Advance() returns (threw: bool)
      requires Valid()
      modifies `blockIdx, `cursorInBlock, `cursor
      ensures threw == (old(cursor) == |Concat(wide)|)
      ensures !threw ==> Valid() && cursor == old(cursor) + 1
    {
      Place();
      cursor := cursor + 1;
      cursorInBlock := cursorInBlock + 1;
      if blockIdx == |blocks| {
        return true;
      }
      OffsetNext(wide, blockIdx);
      if cursorInBlock >= |blocks[blockIdx]| {
        blockIdx := blockIdx + 1;
        cursorInBlock := 0;
      }
      return false;
    }

    /** Writes the byte at the cursor. */
    method Put(v: Byte)
      requires Valid() && cursor < |Concat(wide)|
      modifies redacted
      ensures Valid() && cursor < |Concat(old(Texts()))|
      ensures Concat(Texts()) == WithByte(Concat(old(Texts())), cursor, v)
    {
      Bounds();
      ghost var before := Texts();
      redacted[blockIdx][cursorInBlock] := v;
      assert Texts() == before[blockIdx := WithByte(before[blockIdx], cursorInBlock, v)];
      ConcatUpdate(before, blockIdx, cursorInBlock, v);
      SameLengths(before[..blockIdx], wide[..blockIdx]);
    }

    /** Writes the byte at the cursor and moves on; throws at the end of the last block. */
    method PutAndAdvance(v: Byte) returns (threw: bool)
      requires Valid()
      modifies redacted, `blockIdx, `cursorInBlock, `cursor
      ensures threw == (old(cursor) == |Concat(wide)|)
      ensures !threw ==> Valid() && cursor == old(cursor) + 1 <= |Concat(wide)| == |Concat(old(Texts()))|
      ensures !threw ==> Concat(Texts()) == WithByte(Concat(old(Texts())), old(cursor), v)
    {
      Bounds();
      if blockIdx == |blocks| {
        return true;
      }
      Put(v);
      ghost var written := Texts();
      threw := Advance();
      assert Texts() == written;
      Bounds();
    }

    /** Moves on to the position; throws when that is behind the last byte. */
    method AdvanceTo(position: nat) returns (threw: bool)
      requires Valid()
      modifies `blockIdx, `cursorInBlock, `cursor
      ensures threw == (Max(old(cursor), position) > |Concat(wide)|)
      ensures !threw ==> Valid() && cursor == Max(old(cursor), position)
    {
      Bounds();
      while cursor < position
        invariant Valid() && old(cursor) <= cursor <= Max(old(cursor), position)
      {
        Bounds();
        threw := Advance();
        if threw {
          return;
        }
        Bounds();
      }
      Bounds();
      return false;
    }

    /** The next byte of the text that is written over `before` from `start` on. */
    method WriteNext(text: Bytes, i: nat, ghost before: Bytes, ghost start: nat) returns (threw: bool)
      requires Valid() && cursor == start + i && i < |text| && |before| == |Concat(wide)|
      requires cursor <= |before| && Concat(Texts()) == Overwrite(before, start, cursor, text)
      modifies redacted, `blockIdx, `cursorInBlock, `cursor
      ensures threw == (old(cursor) == |before|)
      ensures !threw ==> Valid() && cursor == old(cursor) + 1 <= |before|
      ensures !threw ==> Concat(Texts()) == Overwrite(before, start, cursor, text)
    {
      threw := PutAndAdvance(text[i]);
      if !threw {
        OverwriteMore(before, start, start + i, text);
      }
    }

    /** Writes the text from the cursor up to the position; throws behind the last byte. */
    method WriteUpTo(text: Bytes, position: nat) returns (threw: bool)
      requires Valid() && position - cursor <= |text|
      modifies redacted, `blockIdx, `cursorInBlock, `cursor
      ensures threw == (Max(old(cursor), position) > |Concat(wide)|)
      ensures !threw ==>
                && Valid() && cursor == Max(old(cursor), position)
                && Concat(Texts()) == Overwrite(old(Concat(Texts())), old(cursor), position, text)
    {
      Bounds();
      ghost var before, start := Concat(Texts()), cursor;
      OverwriteNothing(before, start, text);
      var i := 0;
      while cursor < position
        invariant Valid() && start <= cursor <= Max(start, position) && cursor == start + i <= |before|
        invariant Concat(Texts()) == Overwrite(before, start, cursor, text)
      {
        threw := WriteNext(text, i, before, start);
        if threw {
          return;
        }
        i := i + 1;
      }
      OverwriteUpTo(before, start, position, text);
      return false;
    }

    /** `redactBlocks`: one slice of the sweep. */
    method RedactBlocks(slice: Redaction) returns (threw: bool)
      requires Valid() && slice.fromIndex <= slice.toIndex
      modifies this, redacted
      ensures threw == (old(WideOne(o, Concat(blocks), SweepHere(), slice)) == None)
      ensures !threw ==> Valid() && old(WideOne(o, Concat(blocks), SweepHere(), slice)) == Some(Flat())
    {
      Bounds();
      ghost var before := SweepHere();
      threw := AdvanceTo(slice.fromIndex);
      if threw {
        return;
      }
      Bounds();
      var total := Concat(blocks);
      SweptFrom(o, total, before, slice);
      if slice.hash {
        if blockIdx == |blocks| {
          return true;  // no block to carry the hash
        }
        threw := CarryHash(total, slice);
        return;
      }
      threw := CoverPlain(total, slice);
    }

    /** The part of `redactBlocks` for a slice that is not hashed. */
    method CoverPlain(total: Bytes, slice: Redaction) returns (threw: bool)
      requires Valid() && !slice.hash && slice.fromIndex <= slice.toIndex && slice.fromIndex <= cursor
      modifies this, redacted
      ensures threw == (old(WideOne(o, total, SweepHere(), slice)) == None)
      ensures !threw ==> Valid() && old(WideOne(o, total, SweepHere(), slice)) == Some(Flat())
    {
      Bounds();
      PlainSwept(o, total, SweepHere(), slice);
      threw := WriteUpTo(Fill(STAR, slice.toIndex - slice.fromIndex), slice.toIndex);
    }

    /** Sets the hash on the block under the cursor. */
    method AddToprf(length: nat, nullifier: Bytes, plaintext: Bytes)
      requires Valid() && blockIdx < |blocks|
      modifies `toprfs, `flat
      ensures Valid() && flat == old(flat) + [Toprf(cursor, length, nullifier, plaintext)]
    {
      ghost var t := Toprf(cursor, length, nullifier, plaintext);
      CarriedBy(t);
      toprfs := toprfs[blockIdx := toprfs[blockIdx] + [BlockToprf(cursorInBlock, length, nullifier, plaintext)]];
      flat := flat + [t];
    }

    /** The part of `redactBlocks` for a hashed slice, with the cursor where its text goes. */
    method CarryHash(total: Bytes, slice: Redaction) returns (threw: bool)
      requires Valid() && blockIdx < |blocks|
      requires slice.hash && slice.fromIndex <= slice.toIndex && slice.fromIndex <= cursor
      modifies this, redacted
      ensures threw == (old(WideOne(o, total, SweepHere(), slice)) == None)
      ensures !threw ==> Valid() && old(WideOne(o, total, SweepHere(), slice)) == Some(Flat())
    {
      // slicing stops at the end of the text
      var plaintext := Take(total, slice.fromIndex, slice.toIndex);
      var nullifier := o.oprf(plaintext);
      var length := slice.toIndex - slice.fromIndex;
      threw := CarryText(length, nullifier, plaintext, BinaryHashToStr(o, nullifier, length), slice.toIndex);
      HashSwept(o, total, old(SweepHere()), slice, plaintext);
    }

    /** The hash goes to the block under the cursor, its text over what follows. */
    method CarryText(length: nat, nullifier: Bytes, plaintext: Bytes, text: Bytes, position: nat) returns (threw: bool)
      requires Valid() && blockIdx < |blocks| && position - cursor <= |text|
      modifies this, redacted
      ensures old(cursor) < |old(SweepHere()).text|
      ensures threw == (position > |old(SweepHere()).text|)
      ensures !threw ==> Valid() && Flat() == Sweep(Max(old(cursor), position),
                           Overwrite(old(SweepHere()).text, old(cursor), position, text),
                           old(flat) + [Toprf(old(cursor), length, nullifier, plaintext)])
    {
      Bounds();
      AddToprf(length, nullifier, plaintext);
      threw := WriteUpTo(text, position);
    }
  }

  /** Moving the cursor up to the slice first makes no difference. */
  lemma SweptFrom(o: Oracles, source: Bytes, s: Sweep, r: Redaction)
    requires s.cursor <= |s.text| && r.fromIndex <= r.toIndex && r.fromIndex <= |s.text|
    ensures WideOne(o, source, s.(cursor := Max(s.cursor, r.fromIndex)), r) == WideOne(o, source, s, r)
  {
  }

  /** One plain slice, with the cursor at or behind its beginning. */
  lemma PlainSwept(o: Oracles, source: Bytes, s: Sweep, r: Redaction)
    requires s.cursor <= |s.text| && !r.hash && r.fromIndex <= r.toIndex && r.fromIndex <= s.cursor
    ensures WideOne(o, source, s, r) ==
            if r.toIndex > |s.text| then None
            else Some(Sweep(Max(s.cursor, r.toIndex),
                            Overwrite(s.text, s.cursor, r.toIndex, Fill(STAR, r.toIndex - r.fromIndex)), s.toprfs))
  {
  }

  /** One hashed slice, with the cursor where its text goes. */
  lemma HashSwept(o: Oracles, source: Bytes, s: Sweep, r: Redaction, plaintext: Bytes)
    requires s.cursor < |s.text| && r.hash && r.fromIndex <= r.toIndex && r.fromIndex <= s.cursor
    requires plaintext == Take(source, r.fromIndex, r.toIndex)
    ensures var length := r.toIndex - r.fromIndex;
            WideOne(o, source, s, r) ==
            if r.toIndex > |s.text| then None
            else Some(Sweep(Max(s.cursor, r.toIndex),
                            Overwrite(s.text, s.cursor, r.toIndex, BinaryHashToStr(o, o.oprf(plaintext), length)),
                            s.toprfs + [Toprf(s.cursor, length, o.oprf(plaintext), plaintext)]))
  {
  }

  // ----- the result -----

  /** The piece of a text that lies in block `b`. */
  function Piece(blocks: seq<Bytes>, text: Bytes, b: nat): Bytes
    requires b < |blocks| && |text| == |Concat(blocks)|
  {
    OffsetNext(blocks, b);
    text[Offset(blocks, b)..Offset(blocks, b) + |blocks[b]|]
  }

  function BlockOf(blocks: seq<Bytes>, s: Sweep, b: nat): RevealedBlock
    requires b < |blocks| && |s.text| == |Concat(blocks)|
  {
    RevealedBlock(b, Piece(blocks, s.text, b), InBlock(s.toprfs, Offset(blocks, b), |blocks[b]|))
  }

  /** The first `n` blocks, without those that are stars all over. */
  function ToReveal(blocks: seq<Bytes>, s: Sweep, n: nat): seq<RevealedBlock>
    requires n <= |blocks| && |s.text| == |Concat(blocks)|
  {
    if n == 0 then []
    else
      var block := BlockOf(blocks, s, n - 1);
      ToReveal(blocks, s, n - 1) + if FullyRedacted(block.redactedPlaintext) then [] else [block]
  }

  /** What the flat sweep over the concatenated blocks leaves of them. */
  function RevealOf(o: Oracles, blocks: seq<Bytes>, redactions: seq<Redaction>): Reveal
    requires WellFormed(redactions)
  {
    if redactions == [] then All
    else
      match SweepAll(o, Concat(blocks), redactions)
      case None => Failed
      case Some(s) => Blocks(ToReveal(blocks, s, |blocks|))
  }

  /** Block `b` with the text that the cursor left in it. */
  function WideBlock(blocks: seq<Bytes>, s: Sweep, b: nat): RevealedBlock
    requires b < |blocks| && |s.text| == |Concat(Wide(blocks))|
  {
    var wide := Wide(blocks);
    RevealedBlock(b, if blocks[b] == [] then [] else Piece(wide, s.text, b),
                  InBlock(s.toprfs, Offset(wide, b), |wide[b]|))
  }

  function WideToReveal(blocks: seq<Bytes>, s: Sweep, n: nat): seq<RevealedBlock>
    requires n <= |blocks| && |s.text| == |Concat(Wide(blocks))|
  {
    if n == 0 then []
    else
      var block := WideBlock(blocks, s, n - 1);
      WideToReveal(blocks, s, n - 1) + if FullyRedacted(block.redactedPlaintext) then [] else [block]
  }

  /** What `getBlocksToReveal` returns, empty blocks or not. */
  function Revealed(o: Oracles, blocks: seq<Bytes>, redactions: seq<Redaction>): Reveal
    requires WellFormed(redactions)
  {
    if redactions == [] then All
    else
      match WideAll(o, Concat(blocks), Concat(Wide(blocks)), redactions)
      case None => Failed
      case Some(s) => Blocks(WideToReveal(blocks, s, |blocks|))
  }

  predicate NoneEmpty(blocks: seq<Bytes>) {
    forall b :: 0 <= b < |blocks| ==> blocks[b] != []
  }

  lemma {:induction false} WideToRevealFlat(blocks: seq<Bytes>, s: Sweep, n: nat)
    requires NoneEmpty(blocks) && n <= |blocks| && |s.text| == |Concat(blocks)| && Wide(blocks) == blocks
    ensures WideToReveal(blocks, s, n) == ToReveal(blocks, s, n)
    decreases n
  {
    if n > 0 {
      WideToRevealFlat(blocks, s, n - 1);
    }
  }

  /** Without empty blocks, it is the flat sweep over the concatenated blocks. */
  lemma RevealedFlat(o: Oracles, blocks: seq<Bytes>, rs: seq<Redaction>)
    requires NoneEmpty(blocks) && WellFormed(rs)
    ensures Revealed(o, blocks, rs) == RevealOf(o, blocks, rs)
  {
    assert Wide(blocks) == blocks;
    WideIsFlat(o, Concat(blocks), rs);
    if SweepAll(o, Concat(blocks), rs).Some? {
      WideToRevealFlat(blocks, SweepAll(o, Concat(blocks), rs).value, |blocks|);
    }
  }

  lemma TextsArePieces(blocks: seq<Bytes>, texts: seq<Bytes>, b: nat)
    requires |texts| == |blocks| && forall c :: 0 <= c < |blocks| ==> |texts[c]| == |blocks[c]|
    requires b < |blocks|
    ensures |Concat(texts)| == |Concat(blocks)| && Piece(blocks, Concat(texts), b) == texts[b]
  {
    SameLengths(texts, blocks);
    SameLengths(texts[..b], blocks[..b]);
    ConcatPiece(texts, b);
  }

  /** `new Uint8Array(block.plaintext)` for every block. */
  method CopyBlocks(blocks: seq<Bytes>) returns (copies: seq<array<Byte>>)
    ensures |copies| == |blocks| && fresh(copies)
    ensures forall b :: 0 <= b < |blocks| ==> copies[b][..] == Wide(blocks)[b]
    ensures forall b, c :: 0 <= b < c < |blocks| ==> copies[b] != copies[c]
  {
    copies := [];
    var wide := Wide(blocks);
    for b := 0 to |blocks|
      invariant |copies| == b && fresh(copies)
      invariant forall c :: 0 <= c < b ==> copies[c][..] == wide[c]
      invariant forall c, d :: 0 <= c < d < b ==> copies[c] != copies[d]
    {
      var block := wide[b];
      var copy := new Byte[|block|](i requires 0 <= i < |block| => block[i]);
      copies := copies + [copy];
    }
  }

  /** The redactions, one after the other. */
  method RedactAll(machine: BlockRedactor, redactions: seq<Redaction>) returns (threw: bool)
    requires machine.Valid() && WellFormed(redactions)
    requires machine.Flat() == Sweep(0, Concat(machine.wide), [])
    modifies machine, machine.redacted
    ensures threw == (WideAll(machine.o, Concat(machine.blocks), Concat(machine.wide), redactions) == None)
    ensures !threw ==> machine.Valid()
    ensures !threw ==>
              WideAll(machine.o, Concat(machine.blocks), Concat(machine.wide), redactions) == Some(machine.Flat())
  {
    ghost var o, total, text := machine.o, Concat(machine.blocks), Concat(machine.wide);
    for k := 0 to |redactions|
      invariant machine.Valid() && WideAll(o, total, text, redactions[..k]) == Some(machine.Flat())
    {
      assert redactions[..k + 1][..k] == redactions[..k];
      ghost var here := machine.SweepHere();
      threw := machine.RedactBlocks(redactions[k]);
      if threw {
        WideStaysFailed(o, total, text, redactions, k + 1);
        return;
      }
    }
    assert redactions[..|redactions|] == redactions;
    return false;
  }

  /** Block `b` as the machine leaves it, unless it is stars all over. */
  method BlockLeft(machine: BlockRedactor, b: nat, ghost s: Sweep) returns (left: seq<RevealedBlock>)
    requires machine.Valid() && machine.wide == Wide(machine.blocks) && b < |machine.blocks|
    requires s == machine.SweepHere()
    ensures machine.Valid() && s == machine.SweepHere()
    ensures left == if FullyRedacted(WideBlock(machine.blocks, s, b).redactedPlaintext) then []
                    else [WideBlock(machine.blocks, s, b)]
  {
    TextsArePieces(machine.wide, machine.Texts(), b);
    var copy := machine.redacted[b];
    var text := copy[..|machine.blocks[b]|];
    assert machine.blocks[b] != [] ==> text == copy[..];
    var block := RevealedBlock(b, text, machine.toprfs[b]);
    assert block == WideBlock(machine.blocks, s, b);
    var fully := IsFullyRedacted(text);
    left := if fully then [] else [block];
  }

  ghost predicate IsRevealed(blocks: seq<Bytes>, s: Sweep, n: nat, revealed: seq<RevealedBlock>) {
    n <= |blocks| && |s.text| == |Concat(Wide(blocks))| && revealed == WideToReveal(blocks, s, n)
  }

  lemma RevealedNext(blocks: seq<Bytes>, s: Sweep, b: nat, revealed: seq<RevealedBlock>, left: seq<RevealedBlock>)
    requires IsRevealed(blocks, s, b, revealed) && b < |blocks|
    requires left == if FullyRedacted(WideBlock(blocks, s, b).redactedPlaintext) then [] else [WideBlock(blocks, s, b)]
    ensures IsRevealed(blocks, s, b + 1, revealed + left)
  {
  }

  /** The blocks that are not stars all over. */
  method Collect(machine: BlockRedactor) returns (revealed: seq<RevealedBlock>)
    requires machine.Valid() && machine.wide == Wide(machine.blocks)
    ensures revealed == WideToReveal(machine.blocks, machine.SweepHere(), |machine.blocks|)
  {
    ghost var s := machine.SweepHere();
    ghost var blocks := machine.blocks;
    machine.Bounds();
    revealed := [];
    for b := 0 to |machine.blocks|
      invariant machine.Valid() && s == machine.SweepHere()
      invariant IsRevealed(blocks, s, b, revealed)
    {
      var left := BlockLeft(machine, b, s);
      RevealedNext(blocks, s, b, revealed, left);
      revealed := revealed + left;
    }
  }

  method GetBlocksToReveal(o: Oracles, blocks: seq<Bytes>, redact: Bytes -> seq<Redaction>) returns (result: Reveal)
    requires WellFormed(redact(Concat(blocks)))
    ensures result == Revealed(o, blocks, redact(Concat(blocks)))
  {
    var redactions := redact(Concat(blocks));
    if redactions == [] {
      return All;
    }
    var copies := CopyBlocks(blocks);
    var machine := new BlockRedactor(o, blocks, copies);
    result := RevealFrom(machine, redactions);
  }

  /** The redactions and the filter, on a fresh machine. */
  method RevealFrom(machine: BlockRedactor, redactions: seq<Redaction>) returns (result: Reveal)
    requires machine.Valid() && WellFormed(redactions) && redactions != []
    requires machine.wide == Wide(machine.blocks) && machine.Flat() == Sweep(0, Concat(machine.wide), [])
    modifies machine, machine.redacted
    ensures result == Revealed(machine.o, machine.blocks, redactions)
  {
    var threw := RedactAll(machine, redactions);
    if threw {
      return Failed;
    }
    var revealed := Collect(machine);
    return Blocks(revealed);
  }

  // ----- what the result means -----

  lemma {:induction false} RevealedExactly(blocks: seq<Bytes>, s: Sweep, n: nat, b: nat)
    requires n <= |blocks| && |s.text| == |Concat(blocks)| && b < |blocks|
    ensures BlockOf(blocks, s, b) in ToReveal(blocks, s, n) <==> b < n && !FullyRedacted(Piece(blocks, s.text, b))
    ensures forall r :: r in ToReveal(blocks, s, n) ==> r.block < n && r == BlockOf(blocks, s, r.block)
    ensures forall i, j :: 0 <= i < j < |ToReveal(blocks, s, n)| ==>
              ToReveal(blocks, s, n)[i].block < ToReveal(blocks, s, n)[j].block
    decreases n
  {
    if n > 0 {
      RevealedExactly(blocks, s, n - 1, b);
    }
  }

  lemma {:induction false} PiecesConcat(blocks: seq<Bytes>, text: Bytes, n: nat)
    requires n <= |blocks| && |text| == |Concat(blocks)|
    ensures Offset(blocks, n) <= |text|
    ensures Concat(seq(n, b requires 0 <= b < n => Piece(blocks, text, b))) == text[..Offset(blocks, n)]
    decreases n
  {
    if n == 0 {
      OffsetEnd(blocks);
    } else {
      OffsetNext(blocks, n - 1);
      PiecesConcat(blocks, text, n - 1);
      var prior := seq(n - 1, b requires 0 <= b < n - 1 => Piece(blocks, text, b));
      ConcatSnoc(prior, Piece(blocks, text, n - 1));
      assert seq(n, b requires 0 <= b < n => Piece(blocks, text, b)) == prior + [Piece(blocks, text, n - 1)];
    }
  }

  /** The block that holds a position, and the position counted from its first byte. */
  lemma {:induction false} FindBlock(blocks: seq<Bytes>, n: nat, p: nat) returns (b: nat)
    requires n <= |blocks| && p < Offset(blocks, n)
    ensures b < n && Offset(blocks, b) <= p < Offset(blocks, b) + |blocks[b]|
  {
    if n == 0 {
      OffsetEnd(blocks);
      assert false;
    } else {
      OffsetNext(blocks, n - 1);
      if p >= Offset(blocks, n - 1) {
        b := n - 1;
      } else {
        b := FindBlock(blocks, n - 1, p);
      }
    }
  }

  lemma {:induction false} InBlockKeeps(toprfs: seq<Toprf>, k: nat, at: nat, n: nat)
    requires k < |toprfs| && at <= toprfs[k].at < at + n
    ensures var t := toprfs[k];
            BlockToprf(t.at - at, t.length, t.nullifier, t.plaintext) in InBlock(toprfs, at, n)
  {
    var m := |toprfs| - 1;
    if k < m {
      InBlockKeeps(toprfs[..m], k, at, n);
    }
  }

  /** Where the hash of a slice stands among the hashes. */
  lemma {:induction false} HashedKeeps(o: Oracles, total: Bytes, rs: seq<Redaction>, k: nat) returns (j: nat)
    requires Ordered(rs, |total|) && k < |rs| && rs[k].hash
    ensures j < |Hashed(o, total, rs)| && [Hashed(o, total, rs)[j]] == HashOf(o, total, rs[k])
  {
    var n := |rs| - 1;
    if k < n {
      j := HashedKeeps(o, total, rs[..n], k);
      assert rs[..n][k] == rs[k];
    } else {
      j := |Hashed(o, total, rs[..n])|;
    }
  }

  /**
   Redaction over blocks is redaction of the whole: for slices in order, the texts of
   all blocks concatenate to the text in which every slice is replaced and every
   other byte is kept; the blocks returned are exactly those that are not all stars.
   */
  lemma BlocksRefineFlat(o: Oracles, blocks: seq<Bytes>, rs: seq<Redaction>)
    requires rs != [] && Ordered(rs, |Concat(blocks)|)
    ensures RevealOf(o, blocks, rs).Blocks? && (NoneEmpty(blocks) ==> Revealed(o, blocks, rs) == RevealOf(o, blocks, rs))
    ensures exists s: Sweep ::
              && |s.text| == |Concat(blocks)|
              && Replaced(o, Concat(blocks), rs, s.text)
              && s.toprfs == Hashed(o, Concat(blocks), rs)
              && Concat(seq(|blocks|, b requires 0 <= b < |blocks| => Piece(blocks, s.text, b))) == s.text
              && RevealOf(o, blocks, rs).revealed == ToReveal(blocks, s, |blocks|)
  {
    if NoneEmpty(blocks) {
      RevealedFlat(o, blocks, rs);
    }
    OrderedSweep(o, Concat(blocks), rs);
    var s := SweepAll(o, Concat(blocks), rs).value;
    PiecesConcat(blocks, s.text, |blocks|);
    OffsetEnd(blocks);
    assert s.text[..|s.text|] == s.text;
    assert RevealOf(o, blocks, rs).revealed == ToReveal(blocks, s, |blocks|);
  }

  /**
   Each hash is carried by the block with the first byte of its slice, located at
   that byte, over the length of the slice.
   */
  lemma HashLocated(o: Oracles, blocks: seq<Bytes>, rs: seq<Redaction>, k: nat) returns (b: nat, s: Sweep, plaintext: Bytes)
    requires Ordered(rs, |Concat(blocks)|) && k < |rs| && rs[k].hash
    ensures b < |blocks| && Offset(blocks, b) <= rs[k].fromIndex < Offset(blocks, b) + |blocks[b]|
    ensures SweepAll(o, Concat(blocks), rs) == Some(s) && |s.text| == |Concat(blocks)|
    ensures plaintext == Concat(blocks)[rs[k].fromIndex..rs[k].toIndex]
    ensures BlockToprf(rs[k].fromIndex - Offset(blocks, b), |plaintext|, o.oprf(plaintext), plaintext)
              in BlockOf(blocks, s, b).toprfs
  {
    OffsetEnd(blocks);
    b := FindBlock(blocks, |blocks|, rs[k].fromIndex);
    OrderedSweep(o, Concat(blocks), rs);
    s := SweepAll(o, Concat(blocks), rs).value;
    plaintext := HashCarried(o, blocks, rs, s, k, b);
  }

  lemma HashCarried(o: Oracles, blocks: seq<Bytes>, rs: seq<Redaction>, s: Sweep, k: nat, b: nat) returns (plaintext: Bytes)
    requires Ordered(rs, |Concat(blocks)|) && k < |rs| && rs[k].hash && b < |blocks|
    requires Offset(blocks, b) <= rs[k].fromIndex < Offset(blocks, b) + |blocks[b]|
    requires |s.text| == |Concat(blocks)| && s.toprfs == Hashed(o, Concat(blocks), rs)
    ensures plaintext == Concat(blocks)[rs[k].fromIndex..rs[k].toIndex]
    ensures BlockToprf(rs[k].fromIndex - Offset(blocks, b), |plaintext|, o.oprf(plaintext), plaintext)
              in BlockOf(blocks, s, b).toprfs
  {
    plaintext := Concat(blocks)[rs[k].fromIndex..rs[k].toIndex];
    var j := HashedKeeps(o, Concat(blocks), rs, k);
    CarriedAt(blocks, s, j, b, Toprf(rs[k].fromIndex, |plaintext|, o.oprf(plaintext), plaintext));
  }

  lemma CarriedAt(blocks: seq<Bytes>, s: Sweep, j: nat, b: nat, t: Toprf)
    requires b < |blocks| && |s.text| == |Concat(blocks)| && j < |s.toprfs| && [s.toprfs[j]] == [t]
    requires Offset(blocks, b) <= t.at < Offset(blocks, b) + |blocks[b]|
    ensures BlockToprf(t.at - Offset(blocks, b), t.length, t.nullifier, t.plaintext) in BlockOf(blocks, s, b).toprfs
  {
    assert s.toprfs[j] == [s.toprfs[j]][0] == [t][0];
    InBlockKeeps(s.toprfs, j, Offset(blocks, b), |blocks[b]|);
  }
}
