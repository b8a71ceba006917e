/**
 Round trip with the message framing of RFC 9112 (sections 6.3 and 7.1): a
 response written out as status line, header lines and a framed body, and cut into
 pieces anywhere, is parsed back to the body it was written from.
 */
module HttpFraming {
  import opened ByteData
  import opened HttpResponse
  import opened HttpSplit
  import opened HttpIndices
  import opened HttpHeaders
  import opened HttpHead

  /** A chunk: the line that spells its size, and its data. */
  datatype Chunk = Chunk(sizeLine: Bytes, data: Bytes)

  function ChunkWire(chunks: seq<Chunk>): Bytes {
    if chunks == [] then []
    else WireLine(chunks[0].sizeLine) + chunks[0].data + CRLF + ChunkWire(chunks[1..])
  }

  function ChunkData(chunks: seq<Chunk>): Bytes {
    if chunks == [] then [] else chunks[0].data + ChunkData(chunks[1..])
  }

  predicate ChunksSpelled(js: Readers, chunks: seq<Chunk>) {
    forall i :: 0 <= i < |chunks| ==>
      && chunks[i].sizeLine != [] && LineText(chunks[i].sizeLine)
      && js.hex(chunks[i].sizeLine) == |chunks[i].data| > 0
  }

  // ----- reading chunks -----

  /** The slices of the chunks when the first byte of `ChunkWire` is at `at`. */
  function ChunkSlices(chunks: seq<Chunk>, at: nat): seq<Slice> {
    if chunks == [] then []
    else
      var from := at + |chunks[0].sizeLine| + 2;
      var to := from + |chunks[0].data|;
      [Slice(from, to)] + ChunkSlices(chunks[1..], to + 2)
  }

  /** The state behind one chunk. */
  function AfterChunk(st: State, c: Chunk, rest: Bytes): State
    requires st.chunks.Some?
  {
    var from := st.currentByteIdx + |c.sizeLine| + 2;
    st.(bodyStartIndex := if st.bodyStartIndex in {None, Some(0)} then Some(from) else st.bodyStartIndex,
        chunks := Some(st.chunks.value + [Slice(from, from + |c.data|)]),
        body := st.body + c.data,
        remaining := rest,
        currentByteIdx := from + |c.data| + 2)
  }

  lemma ReadDataWire(st: State, c: Chunk, tail: Bytes)
    requires |c.data| > 0 && st.remainingBodyBytes == 0 && st.remaining == c.data + tail
    ensures var read := ReadBody(BeginChunk(st, |c.data|));
            && read.remainingBodyBytes == 0
            && read == BeginChunk(st, |c.data|).(
                         remainingBodyBytes := 0,
                         bodyStartIndex := if st.bodyStartIndex in {None, Some(0)} then Some(st.currentByteIdx)
                                           else st.bodyStartIndex,
                         body := st.body + c.data,
                         remaining := tail,
                         currentByteIdx := st.currentByteIdx + |c.data|)
  {
    assert (c.data + tail)[..|c.data|] == c.data && (c.data + tail)[|c.data|..] == tail;
  }

  lemma ReadEmptyLine(st: State, rest: Bytes)
    requires st.remaining == CRLF + rest
    ensures HasLine(st) && Line(st) == []
    ensures DropLine(st) == st.(remaining := rest, currentByteIdx := st.currentByteIdx + 2)
  {
    assert [] + CRLF == CRLF;
    TakeWireLine(st, [], rest);
  }

  /** The loop for a size line, the whole chunk behind it, and the line end that closes it. */
  lemma ChunkThenLine(js: Readers, st: State, next: State, after: State, size: nat)
    requires HasLine(st) && Line(st) != [] && js.hex(Line(st)) == size > 0 && !st.complete
    requires DropLine(st) == next
    requires var read := ReadBody(BeginChunk(next, size));
             read.remainingBodyBytes == 0 && HasLine(read) && Line(read) == [] && DropLine(read) == after
    ensures ReadChunks(js, st) == ReadChunks(js, after)
  {
    var read := ReadBody(BeginChunk(next, size));
    assert ReadChunks(js, st) == ReadChunks(js, read);
  }

  function AfterDataAndLine(next: State, c: Chunk, rest: Bytes): State {
    BeginChunk(next, |c.data|).(
      remainingBodyBytes := 0,
      bodyStartIndex := if next.bodyStartIndex in {None, Some(0)} then Some(next.currentByteIdx) else next.bodyStartIndex,
      body := next.body + c.data,
      remaining := rest,
      currentByteIdx := next.currentByteIdx + |c.data| + 2)
  }

  /** The data of a chunk and the line end behind it, once the size line is read. */
  lemma ReadDataAndLine(next: State, c: Chunk, rest: Bytes)
    requires |c.data| > 0 && next.remainingBodyBytes == 0 && next.remaining == c.data + (CRLF + rest)
    ensures var read := ReadBody(BeginChunk(next, |c.data|));
            && read.remainingBodyBytes == 0 && HasLine(read) && Line(read) == []
            && DropLine(read) == AfterDataAndLine(next, c, rest)
  {
    ReadDataWire(next, c, CRLF + rest);
    ReadEmptyLine(ReadBody(BeginChunk(next, |c.data|)), rest);
  }

  lemma ReadOneWireChunk(js: Readers, st: State, c: Chunk, rest: Bytes)
    requires c.sizeLine != [] && LineText(c.sizeLine) && js.hex(c.sizeLine) == |c.data| > 0
    requires st.chunks.Some? && !st.complete && st.remainingBodyBytes == 0
    requires st.remaining == WireLine(c.sizeLine) + (c.data + (CRLF + rest))
    ensures ReadChunks(js, st) == ReadChunks(js, AfterChunk(st, c, rest))
  {
    var next := AfterSizeLine(st, c, rest);
    ReadDataAndLine(next, c, rest);
    AfterBoth(st, c, rest);
    ChunkThenLine(js, st, next, AfterChunk(st, c, rest), |c.data|);
  }

  function AfterSizeLine(st: State, c: Chunk, rest: Bytes): State {
    st.(remaining := c.data + (CRLF + rest), currentByteIdx := st.currentByteIdx + |c.sizeLine| + 2)
  }

  lemma AfterBoth(st: State, c: Chunk, rest: Bytes)
    requires LineText(c.sizeLine) && st.chunks.Some? && st.remainingBodyBytes == 0
    requires st.remaining == WireLine(c.sizeLine) + (c.data + (CRLF + rest))
    ensures HasLine(st) && Line(st) == c.sizeLine && DropLine(st) == AfterSizeLine(st, c, rest)
    ensures AfterChunk(st, c, rest) == AfterDataAndLine(AfterSizeLine(st, c, rest), c, rest)
  {
    TakeWireLine(st, c.sizeLine, c.data + (CRLF + rest));
  }

  // ----- behind the last chunk -----

  /** The trailer lines, and the empty line behind them; the parser reads them as size lines. */
  predicate TrailersPass(js: Readers, trailers: seq<Bytes>) {
    forall t <- trailers :: js.hex(t) == 0
  }

  predicate LinesSpelled(lines: seq<Bytes>) {
    forall i :: 0 <= i < |lines| ==> lines[i] != [] && LineText(lines[i])
  }

  lemma {:induction false} ReadTrailers(js: Readers, st: State, trailers: seq<Bytes>)
    requires LinesSpelled(trailers) && st.complete && st.remaining == HeaderLines(trailers)
    ensures TrailersPass(js, trailers) ==>
              ReadChunks(js, st) ==
              Returned(st.(remaining := [], currentByteIdx := st.currentByteIdx + |HeaderLines(trailers)|))
    ensures !TrailersPass(js, trailers) ==> ReadChunks(js, st).Threw?
    decreases |trailers|
  {
    if trailers == [] {
      assert st.remaining == CRLF + [];
      ReadEmptyLine(st, []);
    } else {
      var line, rest := trailers[0], trailers[1..];
      assert trailers == [line] + rest;
      TakeWireLine(st, line, HeaderLines(rest));
      OneTrailer(js, st, line);
      if js.hex(line) == 0 {
        ReadTrailers(js, DropLine(st), rest);
      }
    }
  }

  lemma OneTrailer(js: Readers, st: State, line: Bytes)
    requires st.complete && HasLine(st) && Line(st) == line != []
    ensures if js.hex(line) == 0 then ReadChunks(js, st) == ReadChunks(js, DropLine(st)) else ReadChunks(js, st).Threw?
  {
    assert DropLine(st).(complete := true) == DropLine(st);
  }

  lemma ReadLastWireChunk(js: Readers, st: State, last: Bytes, trailers: seq<Bytes>)
    requires last != [] && LineText(last) && js.hex(last) == 0 && LinesSpelled(trailers)
    requires st.remaining == WireLine(last) + HeaderLines(trailers)
    ensures TrailersPass(js, trailers) ==>
              ReadChunks(js, st) ==
              Returned(st.(complete := true, remaining := [],
                           currentByteIdx := st.currentByteIdx + |last| + 2 + |HeaderLines(trailers)|))
    ensures !TrailersPass(js, trailers) ==> ReadChunks(js, st).Threw?
  {
    TakeWireLine(st, last, HeaderLines(trailers));
    LastLine(js, st, last);
    ReadTrailers(js, DropLine(st).(complete := true), trailers);
  }

  lemma LastLine(js: Readers, st: State, last: Bytes)
    requires HasLine(st) && Line(st) == last != [] && js.hex(last) == 0
    ensures ReadChunks(js, st) == ReadChunks(js, DropLine(st).(complete := true))
  {
  }

  /** What the chunk loop makes of a chunked body. */
  predicate ChunksRead(st: State, r: State, chunks: seq<Chunk>) {
    && r.complete && r.remaining == [] && r.remainingBodyBytes == 0
    && st.chunks.Some?
    && r.body == st.body + ChunkData(chunks)
    && r.chunks == Some(st.chunks.value + ChunkSlices(chunks, st.currentByteIdx))
    && r.headersComplete == st.headersComplete
  }

  /** The loop reads the body when all trailer lines pass, and throws when one does not. */
  predicate LoopReads(js: Readers, st: State, chunks: seq<Chunk>, trailers: seq<Bytes>) {
    var o := ReadChunks(js, st);
    if TrailersPass(js, trailers) then o.Returned? && ChunksRead(st, o.st, chunks) else o.Threw?
  }

  lemma ChunksReadFurther(st: State, r: State, chunks: seq<Chunk>, rest: Bytes)
    requires chunks != [] && st.chunks.Some?
    requires ChunksRead(AfterChunk(st, chunks[0], rest), r, chunks[1..])
    ensures ChunksRead(st, r, chunks)
  {
    var next := AfterChunk(st, chunks[0], rest);
    var slice := next.chunks.value[|st.chunks.value|];
    var later := ChunkSlices(chunks[1..], next.currentByteIdx);
    assert next.body + ChunkData(chunks[1..]) == st.body + ChunkData(chunks);
    assert next.chunks.value + later == st.chunks.value + ([slice] + later);
  }

  lemma FirstChunk(chunks: seq<Chunk>, tail: Bytes)
    requires chunks != []
    ensures ChunkWire(chunks) + tail ==
            WireLine(chunks[0].sizeLine) + (chunks[0].data + (CRLF + (ChunkWire(chunks[1..]) + tail)))
  {
  }

  lemma {:induction false} ReadChunkWire(js: Readers, st: State, chunks: seq<Chunk>, last: Bytes, trailers: seq<Bytes>)
    requires ChunksSpelled(js, chunks)
    requires last != [] && LineText(last) && js.hex(last) == 0 && LinesSpelled(trailers)
    requires st.chunks.Some? && st.remainingBodyBytes == 0 && !st.complete
    requires st.remaining == ChunkWire(chunks) + (WireLine(last) + HeaderLines(trailers))
    ensures LoopReads(js, st, chunks, trailers)
    decreases |chunks|
  {
    var tail := WireLine(last) + HeaderLines(trailers);
    if chunks == [] {
      assert st.remaining == tail;
      ReadLastWireChunk(js, st, last, trailers);
      assert st.body + [] == st.body && st.chunks.value + [] == st.chunks.value;
    } else {
      var rest := ChunkWire(chunks[1..]) + tail;
      FirstChunk(chunks, tail);
      ReadOneWireChunk(js, st, chunks[0], rest);
      ReadChunkWire(js, AfterChunk(st, chunks[0], rest), chunks[1..], last, trailers);
      LoopReadsFurther(js, st, chunks, trailers, rest);
    }
  }

  lemma LoopReadsFurther(js: Readers, st: State, chunks: seq<Chunk>, trailers: seq<Bytes>, rest: Bytes)
    requires chunks != [] && st.chunks.Some?
    requires ReadChunks(js, st) == ReadChunks(js, AfterChunk(st, chunks[0], rest))
    requires LoopReads(js, AfterChunk(st, chunks[0], rest), chunks[1..], trailers)
    ensures LoopReads(js, st, chunks, trailers)
  {
    if TrailersPass(js, trailers) {
      ChunksReadFurther(st, ReadChunks(js, st).st, chunks, rest);
    }
  }

  /** After `content-length: 0` the response counts as complete, and the first chunk is refused. */
  lemma CompleteRefusesChunk(js: Readers, st: State, chunks: seq<Chunk>, tail: Bytes)
    requires ChunksSpelled(js, chunks) && chunks != [] && st.complete
    requires st.remaining == ChunkWire(chunks) + tail
    ensures ReadChunks(js, st).Threw?
  {
    FirstChunk(chunks, tail);
    TakeWireLine(st, chunks[0].sizeLine, chunks[0].data + (CRLF + (ChunkWire(chunks[1..]) + tail)));
  }

  lemma {:induction false} ChunkSlicesName(before: Bytes, chunks: seq<Chunk>, after: Bytes, i: nat)
    requires i < |chunks|
    ensures |ChunkSlices(chunks, |before|)| == |chunks|
    ensures Cut(before + (ChunkWire(chunks) + after), ChunkSlices(chunks, |before|)[i]) == chunks[i].data
    decreases |chunks|
  {
    var c, rest := chunks[0], ChunkWire(chunks[1..]) + after;
    var wire := before + (ChunkWire(chunks) + after);
    var next := before + WireLine(c.sizeLine) + c.data + CRLF;
    assert wire == next + rest;
    if |chunks| > 1 {
      ChunkSlicesName(next, chunks[1..], after, if i == 0 then 0 else i - 1);
    }
    if i == 0 {
      var from := |before| + |c.sizeLine| + 2;
      assert wire[from..from + |c.data|] == c.data;
    }
  }

  // ----- the round trips -----

  function ChunkedWire(chunks: seq<Chunk>, last: Bytes, trailers: seq<Bytes>): Bytes {
    ChunkWire(chunks) + (WireLine(last) + HeaderLines(trailers))
  }

  /** A response with the transfer coding "chunked": chunks, the last chunk and trailer lines. */
  ghost predicate ChunkedSpelled(js: Readers, status: Bytes, lines: seq<Bytes>, chunks: seq<Chunk>, last: Bytes,
                                 trailers: seq<Bytes>)
  {
    && HeadSpelled(js, status, lines) && ChunksSpelled(js, chunks) && LinesSpelled(trailers)
    && last != [] && LineText(last) && js.hex(last) == 0 && SaysChunked(lines)
  }

  /** What can be read: trailers that pass for a last chunk, and no chunks behind "content-length: 0". */
  ghost predicate Readable(js: Readers, lines: seq<Bytes>, chunks: seq<Chunk>, trailers: seq<Bytes>) {
    TrailersPass(js, trailers) && (SaysEmpty(lines) ==> chunks == [])
  }

  lemma ReadChunkedBody(js: Readers, head: State, lines: seq<Bytes>, chunks: seq<Chunk>, last: Bytes, trailers: seq<Bytes>)
    requires ChunksSpelled(js, chunks) && LinesSpelled(trailers)
    requires last != [] && LineText(last) && js.hex(last) == 0
    requires head.chunks == Some([]) && head.isChunked && head.remainingBodyBytes == 0 && !head.complete
    requires head.headersComplete && head.body == []
    requires Header(head, CONTENT_LENGTH) == Some(ZERO_TEXT) <==> SaysEmpty(lines)
    requires head.remaining == ChunkedWire(chunks, last, trailers)
    ensures var o := ReadRest(js, head);
            if Readable(js, lines, chunks, trailers) then
              && o.Returned? && o.st.complete && StreamMayEnd(o.st)
              && o.st.body == ChunkData(chunks) && o.st.chunks == Some(ChunkSlices(chunks, head.currentByteIdx))
            else o.Threw?
  {
    assert [] + ChunkData(chunks) == ChunkData(chunks);
    assert [] + ChunkSlices(chunks, head.currentByteIdx) == ChunkSlices(chunks, head.currentByteIdx);
    var due := MarkEmpty(head);
    if !SaysEmpty(lines) {
      ReadChunkWire(js, head, chunks, last, trailers);
    } else if chunks == [] {
      assert due.remaining == WireLine(last) + HeaderLines(trailers);
      ReadLastWireChunk(js, due, last, trailers);
    } else {
      CompleteRefusesChunk(js, due, chunks, WireLine(last) + HeaderLines(trailers));
    }
  }

  /**
   A chunked response, cut into pieces anywhere: it is read exactly when every trailer
   line reads as the size 0, and no chunk follows a "content-length: 0"; otherwise the
   parser throws. What is read is the chunks' data as the body, and the recorded slice of
   every chunk names exactly that chunk's data.
   */
  lemma ChunkedRoundTrip(js: Readers, status: Bytes, lines: seq<Bytes>, chunks: seq<Chunk>, last: Bytes,
                         trailers: seq<Bytes>, pieces: seq<Bytes>)
    requires ChunkedSpelled(js, status, lines, chunks, last, trailers)
    requires Concat(pieces) == HeadWire(status, lines) + ChunkedWire(chunks, last, trailers)
    ensures var o := Feed(js, INITIAL, pieces);
            if Readable(js, lines, chunks, trailers) then
              && o.Returned? && o.st.complete && StreamMayEnd(o.st)
              && HeadSays(js, status, lines, o.st)
              && o.st.body == ChunkData(chunks)
              && o.st.chunks == Some(ChunkSlices(chunks, |HeadWire(status, lines)|))
              && (forall i :: 0 <= i < |chunks| ==>
                    |o.st.chunks.value| == |chunks| && Cut(Concat(pieces), o.st.chunks.value[i]) == chunks[i].data)
            else o.Threw?
  {
    var body := ChunkedWire(chunks, last, trailers);
    ReadHeadWire(js, status, lines, body);
    HeadWireSays(js, status, lines, body);
    var head := FeedIsRest(js, status, lines, body, pieces);
    ChunkedSaid(head, lines, |status| + 2);
    LengthSaid(js, head, lines, |status| + 2, []);
    ReadChunkedBody(js, head, lines, chunks, last, trailers);
    if Readable(js, lines, chunks, trailers) {
      RestKeepsHead(js, head);
      AllSlicesName(HeadWire(status, lines), chunks, WireLine(last) + HeaderLines(trailers), Concat(pieces));
    }
  }

  /** However the response is cut, what is behind its head is read as in one piece. */
  lemma FeedIsRest(js: Readers, status: Bytes, lines: seq<Bytes>, body: Bytes, pieces: seq<Bytes>) returns (head: State)
    requires HeadSpelled(js, status, lines) && Concat(pieces) == HeadWire(status, lines) + body
    ensures head == ReadHead(js, Push(INITIAL, HeadWire(status, lines) + body)) && head.remainingBodyBytes >= -1
    ensures SameOutcome(ReadRest(js, head), Feed(js, INITIAL, pieces))
  {
    SplitInvariance(js, pieces);
    ReadHeadWire(js, status, lines, body);
    head := ReadHead(js, Push(INITIAL, HeadWire(status, lines) + body));
  }

  lemma RestKeepsHead(js: Readers, head: State)
    requires head.isChunked && head.remainingBodyBytes == 0 && ReadRest(js, head).Returned?
    ensures Later(head, ReadRest(js, head).st) && ReadRest(js, head).st.statusMessage == head.statusMessage
  {
    ReadChunksLater(js, MarkEmpty(head));
    ReadChunksMessage(js, MarkEmpty(head));
  }

  lemma AllSlicesName(before: Bytes, chunks: seq<Chunk>, after: Bytes, input: Bytes)
    requires input == before + (ChunkWire(chunks) + after)
    ensures forall i :: 0 <= i < |chunks| ==>
              |ChunkSlices(chunks, |before|)| == |chunks| && Cut(input, ChunkSlices(chunks, |before|)[i]) == chunks[i].data
  {
    forall i | 0 <= i < |chunks|
      ensures |ChunkSlices(chunks, |before|)| == |chunks| && Cut(input, ChunkSlices(chunks, |before|)[i]) == chunks[i].data
    {
      ChunkSlicesName(before, chunks, after, i);
    }
  }

  /** The body is one of the declared length, or there is no declared length. */
  ghost predicate LengthAgrees(js: Readers, lines: seq<Bytes>, size: nat) {
    forall v :: SaysLength(lines, v) ==> js.number(v) == size
  }

  /** As much of the body as its declared length allows. */
  ghost predicate BodyUpTo(js: Readers, lines: seq<Bytes>, body: Bytes, read: Bytes) {
    && (forall v :: SaysLength(lines, v) ==> read == body[..Min(js.number(v), |body|)])
    && ((forall v :: !SaysLength(lines, v)) ==> read == body)
  }

  /**
   A response that is not chunked, cut into pieces anywhere: it can end exactly when no
   length is declared, or the one of the bytes behind the head; read are those bytes, up to
   the declared length. It is complete before it ends when the length is reached, or is "0".
   */
  lemma PlainRoundTrip(js: Readers, status: Bytes, lines: seq<Bytes>, body: Bytes, pieces: seq<Bytes>)
    requires HeadSpelled(js, status, lines) && !SaysChunked(lines)
    requires Concat(pieces) == HeadWire(status, lines) + body
    ensures var o := Feed(js, INITIAL, pieces);
            && o.Returned? && HeadSays(js, status, lines, o.st)
            && (StreamMayEnd(o.st) <==> LengthAgrees(js, lines, |body|))
            && BodyUpTo(js, lines, body, o.st.body) && o.st.chunks == None
            && (o.st.complete <==> SaysEmpty(lines) || exists v :: SaysLength(lines, v) && 0 < js.number(v) <= |body|)
            && (o.st.bodyStartIndex.Some? ==> o.st.bodyStartIndex.value == |HeadWire(status, lines)|)
  {
    ReadHeadWire(js, status, lines, body);
    HeadWireSays(js, status, lines, body);
    var head := FeedIsRest(js, status, lines, body, pieces);
    ChunkedSaid(head, lines, |status| + 2);
    LengthSaid(js, head, lines, |status| + 2, []);
    if v :| SaysLength(lines, v) {
      LengthSaid(js, head, lines, |status| + 2, v);
      OnlyLength(lines, v);
    }
    PlainBodyRead(js, head, body);
  }

  lemma OnlyLength(lines: seq<Bytes>, v: Bytes)
    requires SaysLength(lines, v)
    ensures forall w :: SaysLength(lines, w) ==> w == v
  {
    forall w | SaysLength(lines, w)
      ensures w == v
    {
      OneSaying(lines, Ascii("content-length"), Some(v), Some(w));
    }
  }

  lemma PlainBodyRead(js: Readers, head: State, body: Bytes)
    requires head.remaining == body && head.body == [] && !head.complete && head.bodyStartIndex == None && head.headersComplete
    requires !head.isChunked && head.remainingBodyBytes == DeclaredLength(js, head)
    ensures var o, due := ReadRest(js, head), DeclaredLength(js, head);
            && o.Returned? && (StreamMayEnd(o.st) <==> due == -1 || due == |body|)
            && o.st.body == (if due == -1 then body else body[..Min(due, |body|)])
            && (o.st.complete <==> 0 < due <= |body| || Header(head, CONTENT_LENGTH) == Some(ZERO_TEXT))
            && (o.st.bodyStartIndex.Some? ==> o.st.bodyStartIndex.value == head.currentByteIdx)
            && Later(head, o.st) && o.st.statusMessage == head.statusMessage && o.st.chunks == head.chunks
  {
    assert body[..|body|] == body && body[|body|..] == [] && [] + body == body;
  }
}
