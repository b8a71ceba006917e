/**
 What the provider's answer leaves of the head of a response, and when there is an answer.
 */
module HeadText {
  import opened ByteData
  import opened HttpResponse
  import opened HttpIndices
  import opened Redaction
  import opened ChunkMap
  import opened ResponseRedactions
  import opened Survivors
  import opened ResponseText
  import opened HttpProvider
  import opened HttpPlan

  // ----- a reveal that keeps apart from all others -----

  /** All other reveals, and all chunk headers, keep apart from this one. */
  predicate Alone(shown: seq<Redaction>, headers: seq<Redaction>, r: Redaction) {
    (forall s <- shown :: s == r || Apart(s, r)) && forall h <- headers :: Apart(h, r)
  }

  lemma StretchAlone(shown: seq<Redaction>, headers: seq<Redaction>, length: nat, g: Redaction, r: Redaction)
    requires PartsOf(shown, headers, length) && |shown| > 1 && NotEmpty(shown) && r in shown && Alone(shown, headers, r)
    requires g in Complement(SortByEnd(shown), length)
    ensures Apart(g, r)
  {
    var sorted := SortByEnd(shown);
    SortedParts(shown, headers, length);
    var j :| 0 <= j < |sorted| && sorted[j] == r;
    if g in Gaps(sorted, |sorted|) {
      forall i | 0 <= i < |sorted|
        ensures sorted[i] == r || Apart(sorted[i], r)
      {
        assert sorted[i] in shown;
      }
      GapApart(sorted, g, j);
    } else {
      LastEndIs(sorted);
    }
  }

  /** A plain reveal that keeps apart from all others stays. */
  lemma AloneKept(o: Oracles, total: Bytes, shown: seq<Redaction>, headers: seq<Redaction>, text: Bytes, r: Redaction, p: nat)
    requires TextOf(o, total, shown, headers, text) && NotEmpty(shown)
    requires r in shown && !r.hash && Alone(shown, headers, r) && Covers(r, p) && p < |total|
    ensures text[p] == total[p]
  {
    var b := Best(AllSlices(shown, headers, |total|), p);
    if b.Some? {
      SliceFacts(shown, headers, |total|, b.value);
      if !b.value.hash && b.value !in headers {
        StretchAlone(shown, headers, |total|, b.value, r);
      }
    }
    BestDecides(o, total, shown, headers, text, p);
  }

  /** In front of a reveal, and of all chunk headers, what no reveal holds becomes a star. */
  lemma FrontStarred(o: Oracles, total: Bytes, shown: seq<Redaction>, headers: seq<Redaction>, text: Bytes, r: Redaction, p: nat)
    requires TextOf(o, total, shown, headers, text) && p < |total| && !Covered(shown, p)
    requires r in shown && p < r.toIndex && forall h <- headers :: r.toIndex <= h.fromIndex < h.toIndex
    ensures text[p] == STAR
  {
    var g := StretchAround(shown, headers, |total|, p);
    StretchEndsFirst(shown, headers, |total|, g, p, r);
    StretchDecides(o, total, shown, headers, text, g, p);
  }

  // ----- the head of a planned response -----

  /** The byte stands in front of the end of the status line, in the separator, or in the date header's line. */
  predicate InHeadShown(res: State, p: nat) {
    || (res.statusLineEndIndex.Some? && p < res.statusLineEndIndex.value)
    || res.headerEndIdx <= p < res.headerEndIdx + 4
    || (Ascii("date") in res.headerIndices
        && res.headerIndices[Ascii("date")].fromIndex <= p < res.headerIndices[Ascii("date")].toIndex)
  }

  lemma HeadCovered(res: State, p: nat)
    requires res.statusLineEndIndex.Some? && res.headerEndIdx >= 0
    ensures InHeadShown(res, p) <==> exists r <- HeadReveals(res) :: Covers(r, p)
  {
    var rs := HeadReveals(res);
    assert rs[0] in rs && rs[1] in rs && (DATE in res.headerIndices ==> rs[2] in rs);
  }

  /** The parts lie behind the head. */
  lemma HeadAlone(js: Readers, response: Bytes, res: State, requests: seq<Request>, parts: seq<Part>, r: Redaction)
    requires Planned(js, response, res, requests, parts)
    requires res.statusLineEndIndex.Some? && res.headerEndIdx >= 0 && r in HeadReveals(res)
    ensures r in Shown(js, response, res, parts) && !r.hash
    ensures Alone(Shown(js, response, res, parts), Headers(js, response, res, parts), r)
  {
    PlannedHead(js, response, res, requests, parts);
    HeadFits(response, res);
    forall s <- Shown(js, response, res, parts)
      ensures s == r || Apart(s, r)
    {
      var k := ShownFrom(js, response, res, parts, s);
      if s in HeadReveals(res) {
        TwoOf(HeadReveals(res), s, r);
      } else {
        HeadersInPart(js, response, res, parts[k]);
      }
    }
    HeadersBehind(js, response, res, parts);
  }

  lemma HeadersBehind(js: Readers, response: Bytes, res: State, parts: seq<Part>)
    requires Body(js, response, res) && AllInBody(parts, |res.body|)
    ensures forall h <- Headers(js, response, res, parts) :: res.headerEndIdx + 4 <= h.fromIndex < h.toIndex
  {
    forall h <- Headers(js, response, res, parts)
      ensures res.headerEndIdx + 4 <= h.fromIndex < h.toIndex
    {
      var k := HeaderOrigin(js, response, res, parts, |parts|, h);
      HeadersInPart(js, response, res, parts[k]);
    }
  }

  lemma ShownHead(js: Readers, response: Bytes, res: State, requests: seq<Request>, parts: seq<Part>, p: nat)
    requires Planned(js, response, res, requests, parts) && p < res.headerEndIdx + 4
    requires res.statusLineEndIndex.Some? && res.headerEndIdx >= 0
    ensures Covered(Shown(js, response, res, parts), p) <==> InHeadShown(res, p)
  {
    var shown := Shown(js, response, res, parts);
    HeadCovered(res, p);
    if Covered(shown, p) {
      var i :| 0 <= i < |shown| && Covers(shown[i], p);
      var k := ShownFrom(js, response, res, parts, shown[i]);
      if shown[i] !in HeadReveals(res) {
        HeadersInPart(js, response, res, parts[k]);
      }
    }
    if InHeadShown(res, p) {
      var r :| r in HeadReveals(res) && Covers(r, p);
      CoveredMember(shown, r, p);
    }
  }

  /**
   Of every response that is answered, and whatever parts of the body are asked for: of the
   bytes in front of the body, those of the status line, of the blank line with the line end
   in front of it, and of the last date header's line are kept; all others become stars.
   */
  lemma HeadShownExactly(js: Readers, o: Oracles, response: Bytes, res: State, requests: seq<Request>, parts: seq<Part>,
                         slices: seq<Redaction>, p: nat)
    requires Planned(js, response, res, requests, parts) && AnswerTo(js, response, requests) == Redactions(slices)
    requires p < res.headerEndIdx + 4
    ensures WellFormed(slices) && p < |response|
    ensures SweepAll(o, response, slices).Some? ==>
              SweepAll(o, response, slices).value.text[p] == if InHeadShown(res, p) then response[p] else STAR
  {
    PlannedHead(js, response, res, requests, parts);
    PlanExact(js, response, res, requests, parts);
    var shown, headers := Shown(js, response, res, parts), Headers(js, response, res, parts);
    RedactsExactlyWhen(o, response, shown, headers);
    if !EndsInHash(shown, |response|) {
      LeftText(o, response, shown, headers);
      HeadByte(js, o, response, res, requests, parts, TextLeft(o, response, shown, headers), p);
    }
  }

  lemma HeadByte(js: Readers, o: Oracles, response: Bytes, res: State, requests: seq<Request>, parts: seq<Part>,
                 text: Bytes, p: nat)
    requires Planned(js, response, res, requests, parts) && p < res.headerEndIdx + 4
    requires res.statusLineEndIndex.Some? && res.headerEndIdx >= 0 && p < |response|
    requires TextOf(o, response, Shown(js, response, res, parts), Headers(js, response, res, parts), text)
    requires NotEmpty(Shown(js, response, res, parts))
    ensures text[p] == if InHeadShown(res, p) then response[p] else STAR
  {
    var shown, headers := Shown(js, response, res, parts), Headers(js, response, res, parts);
    ShownHead(js, response, res, requests, parts, p);
    if InHeadShown(res, p) {
      HeadCovered(res, p);
      var r :| r in HeadReveals(res) && Covers(r, p);
      HeadAlone(js, response, res, requests, parts, r);
      AloneKept(o, response, shown, headers, text, r, p);
    } else {
      HeadersBehind(js, response, res, parts);
      var r := Redaction(res.headerEndIdx, res.headerEndIdx + 4, false);
      assert HeadReveals(res)[1] == r && shown[1] == r;
      FrontStarred(o, response, shown, headers, text, r, p);
    }
  }

  // ----- when a capture group is refused -----

  lemma {:induction false} HeadersAny(from: nat, until: nat, chunks: seq<Slice>, n: nat)
    requires n <= |chunks|
    ensures HeadersBetween(from, until, chunks, n) != [] <==> exists k :: 1 <= k < n && from < chunks[k].fromIndex < until
    decreases n
  {
    if n > 1 {
      HeadersAny(from, until, chunks, n - 1);
    }
  }

  /** A range of the body is cut at the beginning of a chunk, which may be its own beginning. */
  predicate CutByChunk(start: nat, length: nat, chunks: seq<Slice>)
    requires Proper(chunks)
  {
    exists i :: 1 <= i < |chunks| && start <= BodyBefore(chunks, i) < start + length
  }

  lemma LocatedAround(start: int, chunks: seq<Slice>, pos: nat, c: nat, w: nat, k: nat)
    requires ChunksOrdered(start, chunks) && LocatedIn(chunks, pos, c, w) && 1 <= k < |chunks|
    ensures w < chunks[k].fromIndex <==> pos <= BodyBefore(chunks, k)
    ensures chunks[k].fromIndex < w <==> BodyBefore(chunks, k) < pos
  {
    if c < k {
      ChunksRise(start, chunks, c, k);
      BodyBeforeRises(chunks, c + 1, k);
    } else {
      BodyBeforeRises(chunks, k, c);
      if k < c {
        ChunksRise(start, chunks, k, c);
      }
    }
  }

  lemma HeadersWhenCut(start: int, chunks: seq<Slice>, from: nat, length: nat, c: nat, d: nat, w: Slice)
    requires ChunksOrdered(start, chunks) && Proper(chunks)
    requires LocatedIn(chunks, from, c, w.fromIndex) && LocatedIn(chunks, from + length, d, w.toIndex)
    ensures HeadersBetween(w.fromIndex, w.toIndex, chunks, |chunks|) != [] <==> CutByChunk(from, length, chunks)
  {
    HeadersAny(w.fromIndex, w.toIndex, chunks, |chunks|);
    forall k | 1 <= k < |chunks|
      ensures w.fromIndex < chunks[k].fromIndex < w.toIndex <==> from <= BodyBefore(chunks, k) < from + length
    {
      LocatedAround(start, chunks, from, c, w.fromIndex, k);
      LocatedAround(start, chunks, from + length, d, w.toIndex, k);
    }
  }

  /** The wire range of a range of the body holds a chunk header if and only if it is cut by a chunk. */
  lemma HeadersExactlyWhen(start: int, chunks: seq<Slice>, from: nat, length: nat, bodyStart: nat)
    requires ChunksOrdered(start, chunks) && Proper(chunks)
    requires chunks != [] && length > 0 && from + length <= BodyBefore(chunks, |chunks|)
    ensures WireRange(from, length, bodyStart, Some(chunks)).Some?
    ensures var w := WireRange(from, length, bodyStart, Some(chunks)).value;
            ChunkHeaders(w.fromIndex, w.toIndex, Some(chunks)) != [] <==> CutByChunk(from, length, chunks)
  {
    var c, w, d := LocateRange(chunks, from, length, bodyStart);
    HeadersWhenCut(start, chunks, from, length, c, d, w);
  }

  /** A capture group for which the provider throws. */
  predicate Refused(part: Part, chunks: Option<seq<Slice>>) {
    part.group && chunks.Some? && Proper(chunks.value) && CutByChunk(part.start, part.length, chunks.value)
  }

  lemma GroupSplitExactly(js: Readers, response: Bytes, res: State, part: Part)
    requires Body(js, response, res) && HttpPlan.InBody(part, |res.body|)
    ensures GroupSplit(js, response, res, part) <==> Refused(part, res.chunks)
  {
    var w := Wire(js, response, res, part);
    if res.chunks.Some? {
      var chunks := res.chunks.value;
      PickSize(response, chunks);
      HeadersExactlyWhen(res.headerEndIdx + 4, chunks, part.start, part.length, res.bodyStartIndex.value);
    }
  }

  // ----- when there is an answer -----

  /** A status of the class 2xx; the code is a number of any size, read in 32 bits after the division. */
  predicate Is2xx(statusCode: nat) {
    200 <= statusCode % 0x64_0000_0000 < 300
  }

  lemma SuccessfulExactly(statusCode: nat)
    ensures Successful(statusCode) <==> Is2xx(statusCode)
  {
    var q, r := statusCode / 0x64_0000_0000, statusCode % 0x64_0000_0000;
    assert statusCode == q * 0x64_0000_0000 + r && statusCode / 100 == q * 0x1_0000_0000 + r / 100;
  }

  lemma {:induction false} AllPartsAre(requests: seq<Request>, n: nat, body: Bytes)
    requires n <= |requests|
    ensures AllParts(requests, n, body) == None <==> exists k :: 0 <= k < n && requests[k](body) == None
    ensures AllParts(requests, n, body).Some? ==> forall part ::
              part in AllParts(requests, n, body).value <==> exists k :: 0 <= k < n && part in requests[k](body).value
    decreases n
  {
    if n > 0 {
      AllPartsAre(requests, n - 1, body);
    }
  }

  /** The parts that the requests find lie in the body; those of capture groups are not empty. */
  predicate FoundInBody(requests: seq<Request>, body: Bytes) {
    forall k :: 0 <= k < |requests| && requests[k](body).Some? ==>
      forall part <- requests[k](body).value :: (part.length == 0 && !part.group) || HttpPlan.InBody(part, |body|)
  }

  lemma {:induction false} YieldedAre(parts: seq<Part>)
    ensures forall part :: part in Yielded(parts) <==> part in parts && (part.group || part.length > 0)
    decreases |parts|
  {
    if parts != [] {
      var n := |parts| - 1;
      YieldedAre(parts[..n]);
      assert parts == parts[..n] + [parts[n]];
    }
  }

  /** One of the requests throws. */
  predicate SomeThrows(requests: seq<Request>, body: Bytes) {
    exists k :: 0 <= k < |requests| && requests[k](body) == None
  }

  /** One of the requests finds a capture group that a chunk cuts. */
  predicate SomeRefused(requests: seq<Request>, body: Bytes, chunks: Option<seq<Slice>>) {
    exists k :: 0 <= k < |requests| && requests[k](body).Some? && exists part <- requests[k](body).value :: Refused(part, chunks)
  }

  /** What is found is planned, or one capture group is refused. */
  lemma FoundPlanned(js: Readers, response: Bytes, res: State, requests: seq<Request>) returns (parts: seq<Part>)
    requires ParseHttpResponse(js, response) == Returned(res) && requests != [] && Is2xx(res.statusCode)
    requires res.bodyStartIndex.Some? && !SomeThrows(requests, res.body) && FoundInBody(requests, res.body)
    ensures Planned(js, response, res, requests, parts)
    ensures SomeGroupSplit(js, response, res, parts, |parts|) <==> SomeRefused(requests, res.body, res.chunks)
  {
    ParsedShape(js, response, res);
    SuccessfulExactly(res.statusCode);
    AllPartsAre(requests, |requests|, res.body);
    var all := AllParts(requests, |requests|, res.body).value;
    parts := Yielded(all);
    YieldedAre(all);
    forall k | 0 <= k < |parts|
      ensures HttpPlan.InBody(parts[k], |res.body|)
    {
      assert parts[k] in parts;
    }
    RefusedIsSplit(js, response, res, requests, all, parts);
  }

  lemma RefusedIsSplit(js: Readers, response: Bytes, res: State, requests: seq<Request>, all: seq<Part>, parts: seq<Part>)
    requires Body(js, response, res) && AllInBody(parts, |res.body|)
    requires forall part :: part in parts <==> part in all && (part.group || part.length > 0)
    requires !SomeThrows(requests, res.body)
    requires forall part :: part in all <==> exists k :: 0 <= k < |requests| && part in requests[k](res.body).value
    ensures SomeGroupSplit(js, response, res, parts, |parts|) <==> SomeRefused(requests, res.body, res.chunks)
  {
    if i :| 0 <= i < |parts| && GroupSplit(js, response, res, parts[i]) {
      GroupSplitExactly(js, response, res, parts[i]);
      assert parts[i] in parts;
      var k :| 0 <= k < |requests| && parts[i] in requests[k](res.body).value;
    }
    if SomeRefused(requests, res.body, res.chunks) {
      var k :| 0 <= k < |requests| && requests[k](res.body).Some?
               && exists part <- requests[k](res.body).value :: Refused(part, res.chunks);
      var part :| part in requests[k](res.body).value && Refused(part, res.chunks);
      assert part in parts;
      var i :| 0 <= i < |parts| && parts[i] == part;
      GroupSplitExactly(js, response, res, part);
    }
  }

  /**
   The bytes of a response are answered unless they cannot be parsed to their end, or
   something is asked for and the status is not of the class 2xx, there is no body, a request
   throws, or a capture group is cut by a chunk; when nothing is asked for, nothing is redacted.
   */
  lemma AnsweredExactlyWhen(js: Readers, response: Bytes, requests: seq<Request>)
    requires var o := ParseHttpResponse(js, response); o.Returned? ==> FoundInBody(requests, o.st.body)
    ensures var o := ParseHttpResponse(js, response);
            AnswerTo(js, response, requests) == Rejected <==>
              o.Threw? || (requests != []
                           && (!Is2xx(o.st.statusCode) || o.st.bodyStartIndex == None || SomeThrows(requests, o.st.body)
                               || SomeRefused(requests, o.st.body, o.st.chunks)))
    ensures requests == [] && ParseHttpResponse(js, response).Returned? ==> AnswerTo(js, response, requests) == Redactions([])
  {
    var o := ParseHttpResponse(js, response);
    if o.Returned? {
      var res := o.st;
      ParsedShape(js, response, res);
      SuccessfulExactly(res.statusCode);
      AllPartsAre(requests, |requests|, res.body);
      if requests != [] && Is2xx(res.statusCode) && res.bodyStartIndex.Some? && !SomeThrows(requests, res.body) {
        var parts := FoundPlanned(js, response, res, requests);
        PlanExact(js, response, res, requests, parts);
      }
    }
  }

  // ----- empty capture groups -----

  /** Nothing that a part adds is lost among the others. */
  lemma {:induction false} PartKept(parts: seq<Part>, bodyStart: nat, chunks: Option<seq<Slice>>, part: Part)
    requires chunks.Some? ==> Proper(chunks.value)
    requires part in parts && PlanParts(parts, bodyStart, chunks).Some?
    ensures PlanPart(part, bodyStart, chunks).Some?
    ensures forall r :: r in PlanPart(part, bodyStart, chunks).value.shown ==> r in PlanParts(parts, bodyStart, chunks).value.shown
    decreases |parts|
  {
    var n := |parts| - 1;
    assert parts == parts[..n] + [parts[n]];
    if part != parts[n] {
      PartKept(parts[..n], bodyStart, chunks, part);
    }
  }

  lemma {:induction false} HashReveal(sorted: seq<Redaction>, r: Redaction)
    requires r in sorted && r.hash
    ensures r in HashReveals(sorted)
    decreases |sorted|
  {
    var n := |sorted| - 1;
    assert sorted == sorted[..n] + [sorted[n]];
    if r != sorted[n] {
      HashReveal(sorted[..n], r);
    }
  }

  lemma SortHolds(rs: seq<Redaction>, r: Redaction)
    requires r in rs
    ensures r in SortByEnd(rs)
  {
    SortSorts(rs);
    assert r in multiset(rs);
  }

  lemma HashedKept(shown: seq<Redaction>, headers: seq<Redaction>, length: nat, r: Redaction)
    requires r in shown && r.hash
    ensures r in RedactionsFor(shown, headers, length)
  {
    var sorted := SortByEnd(shown);
    SortHolds(shown, r);
    HashReveal(sorted, r);
    SortHolds(headers + Complement(sorted, length) + HashReveals(sorted), r);
  }

  /** The place of a body position on the wire. */
  predicate PlacedAt(pos: nat, bodyStart: nat, chunks: Option<seq<Slice>>, w: nat) {
    if chunks == None || chunks == Some([]) then w == bodyStart + pos
    else Proper(chunks.value) && exists c :: 0 <= c < |chunks.value| && LocatedIn(chunks.value, pos, c, w)
  }

  lemma EmptyPlaced(pos: nat, bodyStart: nat, chunks: Option<seq<Slice>>, hash: bool) returns (w: nat)
    requires chunks.Some? ==> Proper(chunks.value)
    requires chunks.Some? ==> pos <= BodyBefore(chunks.value, |chunks.value|)
    ensures PlacedAt(pos, bodyStart, chunks, w)
    ensures PlanPart(Part(pos, 0, hash, true), bodyStart, chunks) == Some(Plan([Redaction(w, w, hash)], []))
  {
    w := bodyStart + pos;
    if chunks.Some? && chunks.value != [] {
      var c;
      c, w := Locate(chunks.value, pos);
    }
    NoneBetween(w, chunks);
  }

  lemma NoneBetween(w: nat, chunks: Option<seq<Slice>>)
    ensures ChunkHeaders(w, w, chunks) == []
  {
    if chunks.Some? {
      NoHeaders(w, chunks.value, |chunks.value|);
    }
  }

  lemma {:induction false} NoHeaders(w: nat, chunks: seq<Slice>, n: nat)
    requires n <= |chunks|
    ensures HeadersBetween(w, w, chunks, n) == []
    decreases n
  {
    if n > 1 {
      NoHeaders(w, chunks, n - 1);
    }
  }

  /**
   An empty capture group that is to be hashed is not passed over, as other empty parts are:
   an answer has a hashed slice of no bytes at its place on the wire.
   */
  lemma EmptyGroupHashed(js: Readers, response: Bytes, requests: seq<Request>, k: nat, pos: nat) returns (w: nat)
    requires ParseHttpResponse(js, response).Returned? && AnswerTo(js, response, requests).Redactions?
    requires var res := ParseHttpResponse(js, response).st;
             && k < |requests| && pos <= |res.body| && requests[k](res.body).Some?
             && Part(pos, 0, true, true) in requests[k](res.body).value
    ensures var res := ParseHttpResponse(js, response).st;
            res.bodyStartIndex.Some? && PlacedAt(pos, res.bodyStartIndex.value, res.chunks, w)
    ensures Redaction(w, w, true) in AnswerTo(js, response, requests).slices
  {
    var res := ParseHttpResponse(js, response).st;
    ParsedShape(js, response, res);
    AllPartsAre(requests, |requests|, res.body);
    var all, plan := AnsweredList(res, requests, |response|);
    var s := res.bodyStartIndex.value;
    WithinChunks(js, response, res, pos);
    w := EmptyPlaced(pos, s, res.chunks, true);
    PartKept(all, s, res.chunks, Part(pos, 0, true, true));
    HashedKept(HeadReveals(res) + plan.shown, plan.headers, |response|, Redaction(w, w, true));
  }

  lemma WithinChunks(js: Readers, response: Bytes, res: State, pos: nat)
    requires ParsedMeaning(js, response, res) && pos <= |res.body|
    ensures res.chunks.Some? ==> Proper(res.chunks.value) && pos <= BodyBefore(res.chunks.value, |res.chunks.value|)
  {
    if res.chunks.Some? {
      PickSize(response, res.chunks.value);
    }
  }

  /** The parts and the plan behind an answer. */
  lemma AnsweredList(res: State, requests: seq<Request>, length: nat) returns (all: seq<Part>, plan: Plan)
    requires res.statusLineEndIndex.Some? && res.headerEndIdx >= 0 && (res.chunks.Some? ==> Proper(res.chunks.value))
    requires requests != [] && AnswerFor(res, requests, length).Redactions?
    ensures res.bodyStartIndex.Some? && AllParts(requests, |requests|, res.body) == Some(all)
    ensures PlanParts(all, res.bodyStartIndex.value, res.chunks) == Some(plan)
    ensures AnswerFor(res, requests, length) == Redactions(RedactionsFor(HeadReveals(res) + plan.shown, plan.headers, length))
  {
    all := AllParts(requests, |requests|, res.body).value;
    plan := PlanParts(all, res.bodyStartIndex.value, res.chunks).value;
  }
}
