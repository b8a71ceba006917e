/**
 Responses of which redaction leaves more than their parts: one part nested in another
 behind a chunk header, and a hashed part split between chunks.
 */
module Exposures {
  import opened ByteData
  import opened HttpResponse
  import opened HttpIndices
  import opened HttpSplit
  import opened HttpHead
  import opened HttpFraming
  import opened HttpHeaders
  import opened Redaction
  import opened ChunkMap
  import opened ResponseRedactions
  import opened Survivors
  import opened ResponseText
  import opened HttpProvider
  import opened HttpPlan

  // ----- in general: a part that ends first, behind a chunk header -----

  /** Of the parts that end behind the position, this one ends first. */
  predicate EndsFirst(shown: seq<Redaction>, r: Redaction, p: nat) {
    r in shown && p < r.toIndex && forall q <- shown :: q.toIndex > p && q != r ==> r.toIndex < q.toIndex
  }

  lemma GapBeforeFirst(sorted: seq<Redaction>, r: Redaction, g: Redaction, p: nat)
    requires SortedByEnd(sorted) && WellFormed(sorted) && EndsFirst(sorted, r, p)
    requires g in Gaps(sorted, |sorted|) && Covers(g, p)
    ensures g.toIndex == r.fromIndex
  {
    var k := GapAt(sorted, |sorted|, g);
    var j :| 0 <= j < |sorted| && sorted[j] == r;
    assert sorted[k] in sorted && sorted[k].toIndex > p;
    assert j >= k;
  }

  lemma StretchBeforeFirst(shown: seq<Redaction>, headers: seq<Redaction>, length: nat, r: Redaction, g: Redaction, p: nat)
    requires PartsOf(shown, headers, length) && |shown| > 1 && EndsFirst(shown, r, p)
    requires g in Complement(SortByEnd(shown), length) && Covers(g, p)
    ensures g.toIndex == r.fromIndex
  {
    var sorted := SortByEnd(shown);
    SortedParts(shown, headers, length);
    if g in Gaps(sorted, |sorted|) {
      GapBeforeFirst(sorted, r, g, p);
    } else {
      LastEndIs(sorted);
      assert false;
    }
  }

  /**
   Every byte that no part holds and behind which a chunk header comes before the part
   that ends first stays in the clear.
   */
  lemma FrontOfHeaderStays(o: Oracles, total: Bytes, shown: seq<Redaction>, headers: seq<Redaction>,
                           r: Redaction, h: Redaction, p: nat)
    requires PartsOf(shown, headers, |total|) && |shown| > 1 && !EndsInHash(shown, |total|)
    requires p < |total| && !Covered(shown, p) && EndsFirst(shown, r, p)
    requires h in headers && p < h.fromIndex && h.toIndex <= r.fromIndex
    ensures TextLeft(o, total, shown, headers)[p] == total[p]
  {
    var g := StretchAround(shown, headers, |total|, p);
    StretchBeforeFirst(shown, headers, |total|, r, g, p);
    UncoveredExactly(o, total, shown, headers, g, p);
  }

  // ----- the smallest lists -----

  /** The part 3..4 lies inside 1..5, and a chunk header at 1..2 in front of it. */
  lemma NestedList()
    ensures RedactionsFor([Redaction(3, 4, false), Redaction(1, 5, false)], [Redaction(1, 2, false)], 6)
            == [Redaction(1, 2, false), Redaction(0, 3, false), Redaction(5, 6, false)]
  {
    var a, b := Redaction(3, 4, false), Redaction(1, 5, false);
    var h, g, e := Redaction(1, 2, false), Redaction(0, 3, false), Redaction(5, 6, false);
    assert [a, b][..1] == [a] && [h, g, e][..2] == [h, g] && [h, g][..1] == [h];
    assert SortByEnd([a]) == [a] && SortByEnd([a, b]) == [a, b];
    assert Gaps([a, b], 1) == [g] && Gaps([a, b], 2) == [g];
    assert HashReveals([a]) == [];
    assert HashReveals([a, b]) == HashReveals([a]) + [];
    assert [h] + Complement([a, b], 6) + [] == [h, g, e];
    assert SortByEnd([h]) == [h] && SortByEnd([h, g]) == [h, g] && SortByEnd([h, g, e]) == [h, g, e];
  }

  /** Byte 0 belongs to no part and survives: the header ends first and moves the cursor past it. */
  lemma NestedPartKeepsByte(o: Oracles, total: Bytes)
    requires |total| == 6
    ensures var shown, headers := [Redaction(3, 4, false), Redaction(1, 5, false)], [Redaction(1, 2, false)];
            && RedactionsFor(shown, headers, 6)
               == [Redaction(1, 2, false), Redaction(0, 3, false), Redaction(5, 6, false)]
            && PartsOf(shown, headers, 6) && !EndsInHash(shown, 6) && !Covered(shown, 0)
            && TextLeft(o, total, shown, headers)[0] == total[0]
  {
    NestedList();
    NestedPair(o, total, Redaction(3, 4, false), Redaction(1, 5, false), Redaction(1, 2, false), 0);
  }

  lemma NestedPair(o: Oracles, total: Bytes, inner: Redaction, outer: Redaction, h: Redaction, p: nat)
    requires p < outer.fromIndex && HeaderIn(outer, h) && h.toIndex <= inner.fromIndex
    requires inner.fromIndex < inner.toIndex < outer.toIndex <= |total| && !inner.hash && !outer.hash
    ensures var shown, headers := [inner, outer], [h];
            && PartsOf(shown, headers, |total|) && !EndsInHash(shown, |total|) && !Covered(shown, p)
            && TextLeft(o, total, shown, headers)[p] == total[p]
  {
    var shown := [inner, outer];
    assert shown[1] == outer && outer in shown;
    FrontOfHeaderStays(o, total, shown, [h], inner, h, p);
  }

  /** A chunk header at 3..4 inside the hashed part 1..6: bytes 1 and 2 survive. */
  lemma SplitHashKeepsBytes(o: Oracles, total: Bytes)
    requires |total| == 8
    ensures var shown, headers := [Redaction(0, 1, false), Redaction(1, 6, true)], [Redaction(3, 4, false)];
            && ApartParts(shown, headers, 8) && !EndsInHash(shown, 8)
            && TextLeft(o, total, shown, headers)[1..3] == total[1..3]
  {
    SplitPair(o, total, Redaction(0, 1, false), Redaction(1, 6, true), Redaction(3, 4, false));
  }

  lemma SplitPair(o: Oracles, total: Bytes, a: Redaction, r: Redaction, h: Redaction)
    requires a.fromIndex < a.toIndex <= r.fromIndex && !a.hash && HeaderIn(r, h) && r.toIndex < |total|
    ensures var shown, headers := [a, r], [h];
            && ApartParts(shown, headers, |total|) && !EndsInHash(shown, |total|)
            && TextLeft(o, total, shown, headers)[r.fromIndex..h.fromIndex] == total[r.fromIndex..h.fromIndex]
  {
    var shown, headers := [a, r], [h];
    assert shown[1] == r && r in shown && headers[0] == h;
    LeftText(o, total, shown, headers);
    FrontKept(o, total, shown, headers, TextLeft(o, total, shown, headers), r, h);
  }

  // ----- from the bytes of a response on -----

  /** Two parts asked for, the second nested in the first and behind a chunk header in it. */
  ghost predicate Nested(js: Readers, response: Bytes, res: State, requests: seq<Request>, outer: Part, inner: Part, h: Redaction) {
    && Planned(js, response, res, requests, [outer, inner])
    && !outer.hash && !outer.group && !inner.hash && !inner.group
    && HttpPlan.InBody(outer, |res.body|) && HttpPlan.InBody(inner, |res.body|)
    && h in HeadersOf(js, response, res, outer)
    && h.toIndex <= PartReveal(js, response, res, inner).fromIndex
    && PartReveal(js, response, res, inner).toIndex < PartReveal(js, response, res, outer).toIndex
  }

  lemma NestedReveals(js: Readers, response: Bytes, res: State, requests: seq<Request>, outer: Part, inner: Part,
                      h: Redaction, q: Redaction)
    requires Nested(js, response, res, requests, outer, inner, h)
    ensures res.statusLineEndIndex.Some? && res.headerEndIdx >= 0
    ensures q in Shown(js, response, res, [outer, inner]) ==>
              || q == PartReveal(js, response, res, outer) || q == PartReveal(js, response, res, inner)
              || (q.toIndex <= res.headerEndIdx + 4 && !q.hash)
  {
    PlannedHead(js, response, res, requests, [outer, inner]);
    if q in Shown(js, response, res, [outer, inner]) {
      var k := ShownIn(js, response, res, requests, [outer, inner], q);
    }
  }

  lemma InnerShown(js: Readers, response: Bytes, res: State, requests: seq<Request>, outer: Part, inner: Part, h: Redaction)
    requires Nested(js, response, res, requests, outer, inner, h)
    ensures res.statusLineEndIndex.Some? && res.headerEndIdx >= 0
    ensures PartReveal(js, response, res, inner) in Shown(js, response, res, [outer, inner])
  {
    PlannedHead(js, response, res, requests, [outer, inner]);
    assert RevealsTo(js, response, res, [outer, inner], 2)[1] in Shown(js, response, res, [outer, inner]);
  }

  lemma NestedHeader(js: Readers, response: Bytes, res: State, requests: seq<Request>, outer: Part, inner: Part,
                     h: Redaction)
    requires Nested(js, response, res, requests, outer, inner, h)
    ensures h in Headers(js, response, res, [outer, inner]) && HeaderIn(PartReveal(js, response, res, outer), h)
  {
    HeadersInPart(js, response, res, outer);
    var lists := HeaderLists(js, response, res, [outer, inner]);
    assert h in Join(lists, 1) && Join(lists, 2) == Join(lists, 1) + lists[1];
  }

  lemma NestedShown(js: Readers, response: Bytes, res: State, requests: seq<Request>, outer: Part, inner: Part,
                    h: Redaction, p: nat)
    requires Nested(js, response, res, requests, outer, inner, h)
    requires res.headerEndIdx + 4 <= p < PartReveal(js, response, res, outer).fromIndex
    ensures res.statusLineEndIndex.Some? && res.headerEndIdx >= 0
    ensures var shown := Shown(js, response, res, [outer, inner]);
            && EndsFirst(shown, PartReveal(js, response, res, inner), p)
            && !Covered(shown, p) && !EndsInHash(shown, |response|)
  {
    NestedHeader(js, response, res, requests, outer, inner, h);
    var i := PartReveal(js, response, res, inner);
    InnerShown(js, response, res, requests, outer, inner, h);
    forall q <- Shown(js, response, res, [outer, inner])
      ensures !Covers(q, p) && !q.hash && (q.toIndex > p && q != i ==> i.toIndex < q.toIndex)
    {
      NestedReveals(js, response, res, requests, outer, inner, h, q);
    }
  }

  /** Without capture groups nothing is refused. */
  lemma AnswerOfPlain(js: Readers, response: Bytes, res: State, requests: seq<Request>, parts: seq<Part>)
    requires Planned(js, response, res, requests, parts) && forall k :: 0 <= k < |parts| ==> !parts[k].group
    ensures res.statusLineEndIndex.Some? && res.headerEndIdx >= 0
    ensures var shown, headers := Shown(js, response, res, parts), Headers(js, response, res, parts);
            && AnswerTo(js, response, requests) == Redactions(RedactionsFor(shown, headers, |response|))
            && PartsOf(shown, headers, |response|) && |shown| > 1
  {
    PlanExact(js, response, res, requests, parts);
  }

  /** Redacting with these slices succeeds, and leaves the byte at the position. */
  predicate Exposes(o: Oracles, total: Bytes, rs: seq<Redaction>, p: nat) {
    && WellFormed(rs) && SweepAll(o, total, rs).Some?
    && p < |total| && SweepAll(o, total, rs).value.text[p] == total[p]
  }

  lemma FrontExposed(o: Oracles, total: Bytes, shown: seq<Redaction>, headers: seq<Redaction>,
                     r: Redaction, outer: Redaction, h: Redaction, p: nat)
    requires PartsOf(shown, headers, |total|) && |shown| > 1 && !EndsInHash(shown, |total|)
    requires !Covered(shown, p) && EndsFirst(shown, r, p)
    requires h in headers && p < outer.fromIndex && HeaderIn(outer, h) && h.toIndex <= r.fromIndex
    ensures Exposes(o, total, RedactionsFor(shown, headers, |total|), p)
  {
    RedactsExactlyWhen(o, total, shown, headers);
    assert r.fromIndex <= |total|;
    FrontOfHeaderStays(o, total, shown, headers, r, h, p);
  }

  /**
   For every response: when one of two parts lies in the other behind a chunk header, the
   slices that the provider returns leave everything from the head up to the outer part
   as it is.
   */
  lemma NestedPartsExpose(js: Readers, o: Oracles, response: Bytes, res: State, requests: seq<Request>,
                          outer: Part, inner: Part, h: Redaction, p: nat)
    requires Nested(js, response, res, requests, outer, inner, h)
    requires res.headerEndIdx + 4 <= p < PartReveal(js, response, res, outer).fromIndex
    ensures var answer := AnswerTo(js, response, requests);
            answer.Redactions? && Exposes(o, response, answer.slices, p)
  {
    var parts := [outer, inner];
    AnswerOfPlain(js, response, res, requests, parts);
    NestedShown(js, response, res, requests, outer, inner, h, p);
    NestedHeader(js, response, res, requests, outer, inner, h);
    FrontExposed(o, response, Shown(js, response, res, parts), Headers(js, response, res, parts),
                 PartReveal(js, response, res, inner), PartReveal(js, response, res, outer), h, p);
  }

  // ----- a chunked response -----

  /** The two requests find a range, and a range nested in it. */
  ghost predicate Finds(requests: seq<Request>, body: Bytes, outer: Part, inner: Part) {
    requests != [] && AllParts(requests, |requests|, body) == Some([outer, inner])
  }

  /** The outer range begins inside the first chunk, and holds the inner one inside the second. */
  predicate NestedInTwo(outer: Part, inner: Part, first: nat, second: nat) {
    && outer == Part(outer.start, outer.length, false, false) && inner == Part(inner.start, inner.length, false, false)
    && 0 < outer.start < first < inner.start && 0 < inner.length
    && inner.start + inner.length < outer.start + outer.length <= first + second
  }

  lemma TwoChunkRanges(chunks: seq<Slice>, start: nat, length: nat, bodyStart: nat)
    requires Proper(chunks) && |chunks| == 2 && start + length <= Size(chunks[0]) + Size(chunks[1])
    ensures BodyBefore(chunks, 1) == Size(chunks[0])
    ensures start < Size(chunks[0]) < start + length ==>
              WireRange(start, length, bodyStart, Some(chunks)) ==
              Some(Slice(chunks[0].fromIndex + start, chunks[1].fromIndex + start + length - Size(chunks[0])))
    ensures Size(chunks[0]) < start ==>
              WireRange(start, length, bodyStart, Some(chunks)) ==
              Some(Slice(chunks[1].fromIndex + start - Size(chunks[0]),
                         chunks[1].fromIndex + start + length - Size(chunks[0])))
  {
    assert BodyBefore(chunks, 1) == BodyBefore(chunks, 0) + Size(chunks[0]);
    assert forall pos: nat :: ChunkAt(pos, chunks, 0) ==
             if pos <= Size(chunks[0]) then 0 else ChunkAt(pos, chunks, 1);
  }

  lemma TwoChunkHeader(chunks: seq<Slice>, w: Slice)
    requires |chunks| == 2 && w.fromIndex < chunks[1].fromIndex < w.toIndex
    ensures ChunkHeaders(w.fromIndex, w.toIndex, Some(chunks)) == [Slice(chunks[0].toIndex, chunks[1].fromIndex)]
  {
    assert HeadersBetween(w.fromIndex, w.toIndex, chunks, 1) == [];
  }

  /** What the parser makes of a chunked response in one piece. */
  lemma ParsesChunked(js: Readers, status: Bytes, lines: seq<Bytes>, chunks: seq<Chunk>, last: Bytes, response: Bytes)
    returns (res: State)
    requires ChunkedSpelled(js, status, lines, chunks, last, []) && !SaysEmpty(lines)
    requires response == HeadWire(status, lines) + ChunkedWire(chunks, last, [])
    ensures ParseHttpResponse(js, response) == Returned(res) && res.statusCode == js.statusLine(status).value.0
    ensures res.body == ChunkData(chunks) && res.chunks == Some(ChunkSlices(chunks, |HeadWire(status, lines)|))
    ensures forall k :: 0 <= k < |chunks| ==>
              |res.chunks.value| == |chunks| && Cut(response, res.chunks.value[k]) == chunks[k].data
    ensures ParsedMeaning(js, response, res)
  {
    assert Concat([response]) == response;
    ChunkedRoundTrip(js, status, lines, chunks, last, [], [response]);
    var o := Feed(js, INITIAL, [response]);
    res := o.st;
    assert o == OnChunk(js, INITIAL, response);
    ParsedResponse(js, response, res);
  }

  /** Two recorded chunks, and the data in them. */
  predicate TwoChunks(slices: seq<Slice>, chunks: seq<Chunk>) {
    && |slices| == |chunks| == 2 && Proper(slices)
    && Size(slices[0]) == |chunks[0].data| && Size(slices[1]) == |chunks[1].data|
    && slices[0].toIndex < slices[1].fromIndex
  }

  lemma SlicesOfTwo(chunks: seq<Chunk>, at: nat)
    requires |chunks| == 2
    ensures TwoChunks(ChunkSlices(chunks, at), chunks)
    ensures ChunkData(chunks) == chunks[0].data + chunks[1].data
  {
    var c, d := chunks[0], chunks[1];
    assert chunks[1..] == [d] && [d][1..] == [];
    var from := at + |c.sizeLine| + 2 + |c.data| + 2 + |d.sizeLine| + 2;
    assert ChunkSlices([d], at + |c.sizeLine| + 2 + |c.data| + 2) == [Slice(from, from + |d.data|)];
    assert ChunkData([d]) == d.data;
  }

  lemma ByteOfCut(response: Bytes, slice: Slice, data: Bytes, i: nat)
    requires slice.fromIndex <= slice.toIndex <= |response| && Cut(response, slice) == data && i < |data|
    ensures slice.fromIndex + i < |response| && response[slice.fromIndex + i] == data[i]
  {
    assert response[slice.fromIndex..slice.toIndex][i] == response[slice.fromIndex + i];
  }

  lemma NestedExposed(js: Readers, o: Oracles, response: Bytes, res: State, requests: seq<Request>, outer: Part, inner: Part,
                      slices: seq<Slice>, chunks: seq<Chunk>, i: nat)
    requires ParseHttpResponse(js, response) == Returned(res) && Successful(res.statusCode)
    requires ParsedMeaning(js, response, res) && res.chunks == Some(slices) && TwoChunks(slices, chunks)
    requires res.body == chunks[0].data + chunks[1].data && Finds(requests, res.body, outer, inner)
    requires NestedInTwo(outer, inner, |chunks[0].data|, |chunks[1].data|) && i < outer.start
    ensures var answer := AnswerTo(js, response, requests);
            answer.Redactions? && Exposes(o, response, answer.slices, slices[0].fromIndex + i)
  {
    var h := NestedOnWire(js, response, res, requests, outer, inner, slices, chunks);
    assert res.headerEndIdx + 4 < slices[0].fromIndex;
    NestedPartsExpose(js, o, response, res, requests, outer, inner, h, slices[0].fromIndex + i);
  }

  lemma OuterOnWire(js: Readers, response: Bytes, res: State, outer: Part, slices: seq<Slice>)
    requires Body(js, response, res) && HttpPlan.InBody(outer, |res.body|)
    requires res.chunks == Some(slices) && Proper(slices) && |slices| == 2
    requires outer.start < Size(slices[0]) < outer.start + outer.length <= Size(slices[0]) + Size(slices[1])
    requires slices[0].toIndex < slices[1].fromIndex
    ensures PartReveal(js, response, res, outer) ==
            Redaction(slices[0].fromIndex + outer.start, slices[1].fromIndex + outer.start + outer.length - Size(slices[0]), outer.hash)
    ensures HeadersOf(js, response, res, outer) == [Redaction(slices[0].toIndex, slices[1].fromIndex, false)]
  {
    TwoChunkRanges(slices, outer.start, outer.length, res.bodyStartIndex.value);
    TwoChunkHeader(slices, Wire(js, response, res, outer));
  }

  lemma InnerOnWire(js: Readers, response: Bytes, res: State, inner: Part, slices: seq<Slice>)
    requires Body(js, response, res) && HttpPlan.InBody(inner, |res.body|)
    requires res.chunks == Some(slices) && Proper(slices) && |slices| == 2
    requires Size(slices[0]) < inner.start && inner.start + inner.length <= Size(slices[0]) + Size(slices[1])
    ensures PartReveal(js, response, res, inner) ==
            Redaction(slices[1].fromIndex + inner.start - Size(slices[0]),
                      slices[1].fromIndex + inner.start + inner.length - Size(slices[0]), inner.hash)
  {
    TwoChunkRanges(slices, inner.start, inner.length, res.bodyStartIndex.value);
  }

  lemma BothYielded(outer: Part, inner: Part)
    requires outer.length > 0 && inner.length > 0
    ensures Yielded([outer, inner]) == [outer, inner]
  {
    assert [outer, inner][..1] == [outer];
    assert Yielded([outer]) == [outer];
  }

  lemma NestedOnWire(js: Readers, response: Bytes, res: State, requests: seq<Request>, outer: Part, inner: Part,
                     slices: seq<Slice>, chunks: seq<Chunk>)
    returns (h: Redaction)
    requires ParseHttpResponse(js, response) == Returned(res) && Successful(res.statusCode)
    requires ParsedMeaning(js, response, res) && res.chunks == Some(slices) && TwoChunks(slices, chunks)
    requires res.body == chunks[0].data + chunks[1].data && Finds(requests, res.body, outer, inner)
    requires NestedInTwo(outer, inner, |chunks[0].data|, |chunks[1].data|)
    ensures Nested(js, response, res, requests, outer, inner, h)
    ensures PartReveal(js, response, res, outer).fromIndex == slices[0].fromIndex + outer.start
  {
    assert Body(js, response, res) && HttpPlan.InBody(outer, |res.body|) && HttpPlan.InBody(inner, |res.body|);
    BothYielded(outer, inner);
    OuterOnWire(js, response, res, outer, slices);
    InnerOnWire(js, response, res, inner, slices);
    h := Redaction(slices[0].toIndex, slices[1].fromIndex, false);
  }

  /**
   A response in two chunks and two plain ranges of its body, the second nested in the
   first: with the boundary of the chunks in front of the inner range, every body byte in
   front of the outer one reaches the attestor, although neither range holds it.
   */
  lemma ChunkedBodyExposed(js: Readers, o: Oracles, status: Bytes, lines: seq<Bytes>, chunks: seq<Chunk>, last: Bytes,
                           response: Bytes, requests: seq<Request>, outer: Part, inner: Part, i: nat)
    returns (p: nat)
    requires ChunkedSpelled(js, status, lines, chunks, last, []) && |chunks| == 2
    requires !SaysEmpty(lines) && Successful(js.statusLine(status).value.0)
    requires response == HeadWire(status, lines) + ChunkedWire(chunks, last, [])
    requires Finds(requests, ChunkData(chunks), outer, inner)
    requires NestedInTwo(outer, inner, |chunks[0].data|, |chunks[1].data|) && i < outer.start
    ensures p < |response| && response[p] == ChunkData(chunks)[i]
    ensures var answer := AnswerTo(js, response, requests);
            answer.Redactions? && Exposes(o, response, answer.slices, p)
  {
    var res := ParsesChunked(js, status, lines, chunks, last, response);
    var slices := res.chunks.value;
    SlicesOfTwo(chunks, |HeadWire(status, lines)|);
    NestedExposed(js, o, response, res, requests, outer, inner, slices, chunks, i);
    p := slices[0].fromIndex + i;
    ByteOfCut(response, slices[0], chunks[0].data, i);
  }
}
