/**
 What the provider's plan for a parsed response is: the reveals and chunk headers of its
 parts, whether or not they overlap, and what follows for parts that keep apart.
 */
module HttpPlan {
  import opened ByteData
  import opened HttpResponse
  import opened HttpIndices
  import opened HttpHeaders
  import opened Redaction
  import opened ChunkMap
  import opened ResponseRedactions
  import opened Survivors
  import opened ResponseText
  import opened HashedParts
  import opened HttpProvider

  /** A parsed response with a body. */
  ghost predicate Body(js: Readers, response: Bytes, res: State) {
    ParsedMeaning(js, response, res) && res.bodyStartIndex.Some?
  }

  /** A range of the body that is not empty. */
  predicate InBody(part: Part, size: nat) {
    part.length > 0 && part.start + part.length <= size
  }

  predicate AllInBody(parts: seq<Part>, size: nat) {
    forall k :: 0 <= k < |parts| ==> InBody(parts[k], size)
  }

  /** The wire range of a part of a parsed body. */
  function Wire(js: Readers, response: Bytes, res: State, part: Part): (w: Slice)
    requires Body(js, response, res) && InBody(part, |res.body|)
    ensures res.chunks.Some? ==> Proper(res.chunks.value)
    ensures WireRange(part.start, part.length, res.bodyStartIndex.value, res.chunks) == Some(w)
    ensures RangeFits(res.headerEndIdx, |response|, w, res.chunks)
  {
    PartFits(js, response, res, part.start, part.length);
    WireRange(part.start, part.length, res.bodyStartIndex.value, res.chunks).value
  }

  /** The reveal that a part becomes. */
  function PartReveal(js: Readers, response: Bytes, res: State, part: Part): Redaction
    requires Body(js, response, res) && InBody(part, |res.body|)
  {
    var w := Wire(js, response, res, part);
    Redaction(w.fromIndex, w.toIndex, part.hash)
  }

  /** The chunk headers inside a part. */
  function HeadersOf(js: Readers, response: Bytes, res: State, part: Part): seq<Redaction>
    requires Body(js, response, res) && InBody(part, |res.body|)
  {
    var w := Wire(js, response, res, part);
    HttpProvider.Plain(ChunkHeaders(w.fromIndex, w.toIndex, res.chunks))
  }

  /** A capture group that is split between chunks; the provider refuses it. */
  predicate GroupSplit(js: Readers, response: Bytes, res: State, part: Part)
    requires Body(js, response, res) && InBody(part, |res.body|)
  {
    part.group && HeadersOf(js, response, res, part) != []
  }

  predicate SomeGroupSplit(js: Readers, response: Bytes, res: State, parts: seq<Part>, n: nat)
    requires Body(js, response, res) && AllInBody(parts, |res.body|) && n <= |parts|
  {
    exists k :: 0 <= k < n && GroupSplit(js, response, res, parts[k])
  }

  /** The reveals of the first `n` parts. */
  function RevealsTo(js: Readers, response: Bytes, res: State, parts: seq<Part>, n: nat): (rs: seq<Redaction>)
    requires Body(js, response, res) && AllInBody(parts, |res.body|) && n <= |parts|
    ensures |rs| == n && forall k :: 0 <= k < n ==> rs[k] == PartReveal(js, response, res, parts[k])
  {
    seq(n, k requires 0 <= k < n => PartReveal(js, response, res, parts[k]))
  }

  function HeaderLists(js: Readers, response: Bytes, res: State, parts: seq<Part>): (lists: seq<seq<Redaction>>)
    requires Body(js, response, res) && AllInBody(parts, |res.body|)
    ensures |lists| == |parts| && forall k :: 0 <= k < |parts| ==> lists[k] == HeadersOf(js, response, res, parts[k])
  {
    seq(|parts|, k requires 0 <= k < |parts| => HeadersOf(js, response, res, parts[k]))
  }

  function Join(lists: seq<seq<Redaction>>, n: nat): seq<Redaction>
    requires n <= |lists|
  {
    if n == 0 then [] else Join(lists, n - 1) + lists[n - 1]
  }

  lemma {:induction false} JoinOrigin(lists: seq<seq<Redaction>>, n: nat, h: Redaction) returns (k: nat)
    requires n <= |lists| && h in Join(lists, n)
    ensures k < n && h in lists[k]
  {
    if h in lists[n - 1] {
      k := n - 1;
    } else {
      k := JoinOrigin(lists, n - 1, h);
    }
  }

  predicate ListsApart(a: seq<Redaction>, b: seq<Redaction>) {
    forall h <- a, m <- b :: Apart(h, m)
  }

  lemma {:induction false} JoinApart(lists: seq<seq<Redaction>>, n: nat)
    requires n <= |lists| && forall k :: 0 <= k < |lists| ==> PairwiseApart(lists[k])
    requires forall i, k :: 0 <= i < k < |lists| ==> ListsApart(lists[i], lists[k])
    ensures PairwiseApart(Join(lists, n))
  {
    if n > 0 {
      JoinApart(lists, n - 1);
      forall h <- Join(lists, n - 1), m <- lists[n - 1]
        ensures Apart(h, m)
      {
        var k := JoinOrigin(lists, n - 1, h);
        assert ListsApart(lists[k], lists[n - 1]);
      }
      ConcatApart(Join(lists, n - 1), lists[n - 1]);
    }
  }

  lemma ConcatApart(rs: seq<Redaction>, qs: seq<Redaction>)
    requires PairwiseApart(rs) && PairwiseApart(qs)
    requires forall r <- rs, q <- qs :: Apart(r, q)
    ensures PairwiseApart(rs + qs)
  {
    forall i, j | 0 <= i < j < |rs + qs|
      ensures Apart((rs + qs)[i], (rs + qs)[j])
    {
      if i < |rs| <= j {
        assert rs[i] in rs && qs[j - |rs|] in qs;
      }
    }
  }

  /** The chunk headers of the first `n` parts. */
  function HeadersTo(js: Readers, response: Bytes, res: State, parts: seq<Part>, n: nat): seq<Redaction>
    requires Body(js, response, res) && AllInBody(parts, |res.body|) && n <= |parts|
  {
    Join(HeaderLists(js, response, res, parts), n)
  }

  // ----- the plan -----

  lemma PartPlanned(js: Readers, response: Bytes, res: State, part: Part)
    requires Body(js, response, res) && InBody(part, |res.body|)
    ensures res.chunks.Some? ==> Proper(res.chunks.value)
    ensures PlanPart(part, res.bodyStartIndex.value, res.chunks) ==
            if GroupSplit(js, response, res, part) then None
            else Some(Plan([PartReveal(js, response, res, part)], HeadersOf(js, response, res, part)))
  {
    var w := Wire(js, response, res, part);
  }

  /** What becomes of the first `n` parts. */
  function PlanTo(js: Readers, response: Bytes, res: State, parts: seq<Part>, n: nat): Option<Plan>
    requires Body(js, response, res) && AllInBody(parts, |res.body|) && n <= |parts|
  {
    if SomeGroupSplit(js, response, res, parts, n) then None
    else Some(Plan(RevealsTo(js, response, res, parts, n), HeadersTo(js, response, res, parts, n)))
  }

  /** The plan with one part more, as `PlanParts` builds it. */
  function Add(prior: Option<Plan>, last: Option<Plan>): Option<Plan> {
    if prior.Some? && last.Some? then
      Some(Plan(prior.value.shown + last.value.shown, prior.value.headers + last.value.headers))
    else None
  }

  /** The parts planned one by one: a reveal and headers, or a refusal. */
  ghost predicate EachPlanned(parts: seq<Part>, bodyStart: nat, chunks: Option<seq<Slice>>,
                              rs: seq<Redaction>, lists: seq<seq<Redaction>>, split: seq<bool>)
  {
    && (chunks.Some? ==> Proper(chunks.value)) && |rs| == |lists| == |split| == |parts|
    && forall k :: 0 <= k < |parts| ==>
         PlanPart(parts[k], bodyStart, chunks) == if split[k] then None else Some(Plan([rs[k]], lists[k]))
  }

  lemma {:induction false} PlansAdd(parts: seq<Part>, bodyStart: nat, chunks: Option<seq<Slice>>,
                                    rs: seq<Redaction>, lists: seq<seq<Redaction>>, split: seq<bool>, n: nat)
    requires EachPlanned(parts, bodyStart, chunks, rs, lists, split) && n <= |parts|
    ensures PlanParts(parts[..n], bodyStart, chunks) ==
            if true in split[..n] then None else Some(Plan(rs[..n], Join(lists, n)))
  {
    if n > 0 {
      PlansAdd(parts, bodyStart, chunks, rs, lists, split, n - 1);
      PlanPartsNext(parts, n - 1, bodyStart, chunks);
      TakeNext(rs, n - 1);
      TakeNext(split, n - 1);
    }
  }

  lemma TakeNext<T>(s: seq<T>, n: nat)
    requires n < |s|
    ensures s[..n + 1] == s[..n] + [s[n]]
  {
  }

  lemma PlanPartsNext(parts: seq<Part>, n: nat, bodyStart: nat, chunks: Option<seq<Slice>>)
    requires n < |parts| && (chunks.Some? ==> Proper(chunks.value))
    ensures PlanParts(parts[..n + 1], bodyStart, chunks) ==
            Add(PlanParts(parts[..n], bodyStart, chunks), PlanPart(parts[n], bodyStart, chunks))
  {
    assert parts[..n + 1][..n] == parts[..n];
  }

  lemma PlanOfParts(js: Readers, response: Bytes, res: State, parts: seq<Part>)
    requires Body(js, response, res) && AllInBody(parts, |res.body|)
    ensures res.chunks.Some? ==> Proper(res.chunks.value)
    ensures PlanParts(parts, res.bodyStartIndex.value, res.chunks) == PlanTo(js, response, res, parts, |parts|)
  {
    var n := |parts|;
    var rs, lists := RevealsTo(js, response, res, parts, n), HeaderLists(js, response, res, parts);
    var split := seq(n, k requires 0 <= k < n => GroupSplit(js, response, res, parts[k]));
    ParsedProper(js, response, res);
    forall k | 0 <= k < n
      ensures PlanPart(parts[k], res.bodyStartIndex.value, res.chunks) ==
              if split[k] then None else Some(Plan([rs[k]], lists[k]))
    {
      PartPlanned(js, response, res, parts[k]);
    }
    PlansAdd(parts, res.bodyStartIndex.value, res.chunks, rs, lists, split, n);
    assert parts[..n] == parts && rs[..n] == rs && split[..n] == split;
    assert true in split <==> SomeGroupSplit(js, response, res, parts, n);
  }

  lemma ParsedProper(js: Readers, response: Bytes, res: State)
    requires Body(js, response, res)
    ensures res.chunks.Some? ==> Proper(res.chunks.value)
  {
  }

  lemma HeadersInPart(js: Readers, response: Bytes, res: State, part: Part)
    requires Body(js, response, res) && InBody(part, |res.body|)
    ensures PairwiseApart(HeadersOf(js, response, res, part))
    ensures forall h <- HeadersOf(js, response, res, part) :: HeaderIn(PartReveal(js, response, res, part), h)
    ensures var r := PartReveal(js, response, res, part);
            res.headerEndIdx + 4 <= r.fromIndex < r.toIndex <= |response|
  {
    var w := Wire(js, response, res, part);
    RangeHeaders(res.headerEndIdx, |response|, w, res.chunks, part.hash);
  }

  lemma RangeHeaders(headerEnd: int, length: nat, w: Slice, chunks: Option<seq<Slice>>, hash: bool)
    requires RangeFits(headerEnd, length, w, chunks)
    ensures var hs := HttpProvider.Plain(ChunkHeaders(w.fromIndex, w.toIndex, chunks));
            && PairwiseApart(hs)
            && forall h <- hs :: HeaderIn(Redaction(w.fromIndex, w.toIndex, hash), h)
  {
  }

  lemma HeaderOrigin(js: Readers, response: Bytes, res: State, parts: seq<Part>, n: nat, h: Redaction)
    returns (k: nat)
    requires Body(js, response, res) && AllInBody(parts, |res.body|) && n <= |parts|
    requires h in HeadersTo(js, response, res, parts, n)
    ensures k < n && h in HeadersOf(js, response, res, parts[k]) && HeaderIn(PartReveal(js, response, res, parts[k]), h)
  {
    k := JoinOrigin(HeaderLists(js, response, res, parts), n, h);
    HeadersInPart(js, response, res, parts[k]);
  }

  // ----- the parts of the head -----

  lemma HeadFits(response: Bytes, res: State)
    requires HeadMeaning(response, res) && res.headersComplete && res.headerEndIdx + 4 <= |response|
    ensures res.statusLineEndIndex.Some? && res.headerEndIdx >= 0
    ensures NotEmpty(HeadReveals(res)) && PairwiseApart(HeadReveals(res))
    ensures forall r <- HeadReveals(res) :: !r.hash && r.toIndex <= res.headerEndIdx + 4
  {
    if DATE in res.headerIndices {
      assert HeaderIndexMeaning(response, res, DATE);
      var date := res.headerIndices[DATE];
      DateNotEmpty(response, date, res.headers[DATE]);
    }
  }

  /** The line of a header named "date" is not empty. */
  lemma DateNotEmpty(response: Bytes, at: Slice, value: Option<Bytes>)
    requires at.fromIndex <= at.toIndex <= |response| && Spells(response[at.fromIndex..at.toIndex], DATE, value)
    ensures at.fromIndex < at.toIndex
  {
    SpelledRead(response[at.fromIndex..at.toIndex], DATE, value);
    assert SplitHeader([]).0 != DATE;
  }

  lemma BodyBehindHead(js: Readers, response: Bytes, res: State)
    requires Body(js, response, res)
    ensures res.bodyStartIndex.value >= 4 && res.headerEndIdx + 4 <= |response|
  {
  }

  // ----- the whole plan -----

  function Shown(js: Readers, response: Bytes, res: State, parts: seq<Part>): seq<Redaction>
    requires Body(js, response, res) && AllInBody(parts, |res.body|)
    requires res.statusLineEndIndex.Some? && res.headerEndIdx >= 0
  {
    HeadReveals(res) + RevealsTo(js, response, res, parts, |parts|)
  }

  function Headers(js: Readers, response: Bytes, res: State, parts: seq<Part>): seq<Redaction>
    requires Body(js, response, res) && AllInBody(parts, |res.body|)
  {
    HeadersTo(js, response, res, parts, |parts|)
  }

  lemma ShownFrom(js: Readers, response: Bytes, res: State, parts: seq<Part>, r: Redaction) returns (k: nat)
    requires Body(js, response, res) && AllInBody(parts, |res.body|)
    requires res.statusLineEndIndex.Some? && res.headerEndIdx >= 0 && r in Shown(js, response, res, parts)
    ensures r in HeadReveals(res) || (k < |parts| && r == PartReveal(js, response, res, parts[k]))
  {
    k := 0;
    if r !in HeadReveals(res) {
      k :| 0 <= k < |parts| && RevealsTo(js, response, res, parts, |parts|)[k] == r;
    }
  }

  /** The parts without the empty ones, for which nothing is yielded; a capture group always is. */
  function Yielded(parts: seq<Part>): seq<Part> {
    if parts == [] then []
    else
      var n := |parts| - 1;
      Yielded(parts[..n]) + if !parts[n].group && parts[n].length == 0 then [] else [parts[n]]
  }

  lemma {:induction false} YieldedPlans(parts: seq<Part>, bodyStart: nat, chunks: Option<seq<Slice>>)
    requires chunks.Some? ==> Proper(chunks.value)
    ensures PlanParts(parts, bodyStart, chunks) == PlanParts(Yielded(parts), bodyStart, chunks)
    decreases |parts|
  {
    if parts != [] {
      var n := |parts| - 1;
      YieldedPlans(parts[..n], bodyStart, chunks);
      var prior := Yielded(parts[..n]);
      if !parts[n].group && parts[n].length == 0 {
        EmptyAddsNothing(PlanParts(parts[..n], bodyStart, chunks));
        assert Yielded(parts) == prior + [] == prior;
      } else {
        assert (prior + [parts[n]])[..|prior|] == prior;
      }
    }
  }

  lemma EmptyAddsNothing(plan: Option<Plan>)
    ensures Add(plan, Some(Plan([], []))) == plan
  {
    if plan.Some? {
      assert plan.value.shown + [] == plan.value.shown && plan.value.headers + [] == plan.value.headers;
    }
  }

  /** A response with a body that the requests find their parts in; these are the ones yielded. */
  ghost predicate Planned(js: Readers, response: Bytes, res: State, requests: seq<Request>, parts: seq<Part>) {
    && ParseHttpResponse(js, response) == Returned(res) && Successful(res.statusCode)
    && requests != [] && AllParts(requests, |requests|, res.body).Some?
    && parts == Yielded(AllParts(requests, |requests|, res.body).value)
    && Body(js, response, res) && AllInBody(parts, |res.body|)
  }

  lemma PlannedHead(js: Readers, response: Bytes, res: State, requests: seq<Request>, parts: seq<Part>)
    requires Planned(js, response, res, requests, parts)
    ensures HeadMeaning(response, res) && res.headersComplete && res.headerEndIdx + 4 <= |response|
    ensures res.statusLineEndIndex.Some? && res.headerEndIdx >= 0
    ensures res.chunks.Some? ==> Proper(res.chunks.value)
  {
    ParsedShape(js, response, res);
    BodyBehindHead(js, response, res);
  }

  /** A reveal belongs to the head, or to one of the parts. */
  lemma ShownIn(js: Readers, response: Bytes, res: State, requests: seq<Request>, parts: seq<Part>, r: Redaction)
    returns (k: nat)
    requires Planned(js, response, res, requests, parts)
    requires res.statusLineEndIndex.Some? && res.headerEndIdx >= 0 && r in Shown(js, response, res, parts)
    ensures (r.toIndex <= res.headerEndIdx + 4 && !r.hash) || (k < |parts| && r == PartReveal(js, response, res, parts[k]))
  {
    PlannedHead(js, response, res, requests, parts);
    HeadFits(response, res);
    k := ShownFrom(js, response, res, parts, r);
  }

  lemma PlanFits(js: Readers, response: Bytes, res: State, requests: seq<Request>, parts: seq<Part>)
    requires Planned(js, response, res, requests, parts)
    ensures res.statusLineEndIndex.Some? && res.headerEndIdx >= 0
    ensures var shown := Shown(js, response, res, parts);
            PartsOf(shown, Headers(js, response, res, parts), |response|) && NotEmpty(shown) && |shown| > 1
  {
    PlannedHead(js, response, res, requests, parts);
    HeadFits(response, res);
    var shown, headers := Shown(js, response, res, parts), Headers(js, response, res, parts);
    forall r <- shown
      ensures r.fromIndex < r.toIndex <= |response|
    {
      var k := ShownFrom(js, response, res, parts, r);
      if r !in HeadReveals(res) {
        HeadersInPart(js, response, res, parts[k]);
      }
    }
    forall h <- headers
      ensures InSome(shown, h)
    {
      var k := HeaderOrigin(js, response, res, parts, |parts|, h);
      assert RevealsTo(js, response, res, parts, |parts|)[k] in shown;
    }
  }

  /**
   The answer for a response parsed to its end, with a 2xx status and a body, and for
   requests that find ranges of the body, overlapping or not, empty or not: the provider
   refuses exactly when a capture group is split between chunks; otherwise it reveals the
   fixed parts of the head and the wire range of every part that is not empty, with its
   chunk headers.
   */
  lemma PlanExact(js: Readers, response: Bytes, res: State, requests: seq<Request>, parts: seq<Part>)
    requires Planned(js, response, res, requests, parts)
    ensures res.statusLineEndIndex.Some? && res.headerEndIdx >= 0
    ensures AnswerTo(js, response, requests) ==
            if SomeGroupSplit(js, response, res, parts, |parts|) then Rejected
            else Redactions(RedactionsFor(Shown(js, response, res, parts), Headers(js, response, res, parts), |response|))
    ensures var shown := Shown(js, response, res, parts);
            PartsOf(shown, Headers(js, response, res, parts), |response|) && NotEmpty(shown) && |shown| > 1
  {
    PlannedHead(js, response, res, requests, parts);
    BodyBehindHead(js, response, res);
    YieldedPlans(AllParts(requests, |requests|, res.body).value, res.bodyStartIndex.value, res.chunks);
    PlanOfParts(js, response, res, parts);
    PlanFits(js, response, res, requests, parts);
  }

  // ----- parts that keep apart -----

  predicate PartBefore(p: Part, q: Part) {
    p.start + p.length <= q.start
  }

  predicate PartsApart(p: Part, q: Part) {
    PartBefore(p, q) || PartBefore(q, p)
  }

  lemma RevealsApart(js: Readers, response: Bytes, res: State, p: Part, q: Part)
    requires Body(js, response, res) && InBody(p, |res.body|) && InBody(q, |res.body|) && PartsApart(p, q)
    ensures Apart(PartReveal(js, response, res, p), PartReveal(js, response, res, q))
  {
    if PartBefore(p, q) {
      PartsInOrder(js, response, res, p.start, p.length, q.start, q.length);
    } else {
      PartsInOrder(js, response, res, q.start, q.length, p.start, p.length);
    }
  }

  predicate NoOverlap(parts: seq<Part>) {
    forall i, k :: 0 <= i < k < |parts| ==> PartsApart(parts[i], parts[k])
  }

  /** Hashed parts overlap nothing; plain ones may overlap each other. */
  predicate HashesAlone(parts: seq<Part>) {
    forall i, k :: 0 <= i < k < |parts| && (parts[i].hash || parts[k].hash) ==> PartsApart(parts[i], parts[k])
  }

  lemma HeadersOfTwo(js: Readers, response: Bytes, res: State, p: Part, q: Part)
    requires Body(js, response, res) && InBody(p, |res.body|) && InBody(q, |res.body|) && PartsApart(p, q)
    ensures ListsApart(HeadersOf(js, response, res, p), HeadersOf(js, response, res, q))
  {
    HeadersInPart(js, response, res, p);
    HeadersInPart(js, response, res, q);
    RevealsApart(js, response, res, p, q);
  }

  lemma HeadersApart(js: Readers, response: Bytes, res: State, parts: seq<Part>)
    requires Body(js, response, res) && AllInBody(parts, |res.body|) && NoOverlap(parts)
    ensures PairwiseApart(Headers(js, response, res, parts))
  {
    var lists := HeaderLists(js, response, res, parts);
    forall k | 0 <= k < |parts|
      ensures PairwiseApart(lists[k])
    {
      HeadersInPart(js, response, res, parts[k]);
    }
    forall i, k | 0 <= i < k < |parts|
      ensures ListsApart(lists[i], lists[k])
    {
      HeadersOfTwo(js, response, res, parts[i], parts[k]);
    }
    JoinApart(lists, |lists|);
  }

  /** Parts that do not overlap in the body keep apart on the wire. */
  lemma PlanApart(js: Readers, response: Bytes, res: State, requests: seq<Request>, parts: seq<Part>)
    requires Planned(js, response, res, requests, parts) && NoOverlap(parts)
    ensures res.statusLineEndIndex.Some? && res.headerEndIdx >= 0
    ensures ApartParts(Shown(js, response, res, parts), Headers(js, response, res, parts), |response|)
  {
    PlannedHead(js, response, res, requests, parts);
    PlanFits(js, response, res, requests, parts);
    HeadFits(response, res);
    HeadersApart(js, response, res, parts);
    var head, rs := HeadReveals(res), RevealsTo(js, response, res, parts, |parts|);
    forall i, k | 0 <= i < k < |rs|
      ensures Apart(rs[i], rs[k])
    {
      RevealsApart(js, response, res, parts[i], parts[k]);
    }
    forall r <- head, q <- rs
      ensures Apart(r, q)
    {
      var k :| 0 <= k < |rs| && rs[k] == q;
      HeadersInPart(js, response, res, parts[k]);
    }
    ConcatApart(head, rs);
  }

  // ----- hashed parts that stand alone -----

  /** No hashed part is split between chunks. */
  predicate HashesWhole(js: Readers, response: Bytes, res: State, parts: seq<Part>)
    requires Body(js, response, res) && AllInBody(parts, |res.body|)
  {
    forall k :: 0 <= k < |parts| && parts[k].hash ==> HeadersOf(js, response, res, parts[k]) == []
  }

  lemma TwoParts(js: Readers, response: Bytes, res: State, parts: seq<Part>, i: nat, k: nat)
    requires Body(js, response, res) && AllInBody(parts, |res.body|) && HashesAlone(parts)
    requires i < |parts| && k < |parts| && i != k && (parts[i].hash || parts[k].hash)
    ensures Apart(PartReveal(js, response, res, parts[i]), PartReveal(js, response, res, parts[k]))
  {
    RevealsApart(js, response, res, parts[i], parts[k]);
  }

  lemma HeadThenParts(head: seq<Redaction>, rs: seq<Redaction>, bound: int)
    requires forall r <- head :: !r.hash && r.toIndex <= bound
    requires HashesApart(rs) && forall k :: 0 <= k < |rs| ==> bound <= rs[k].fromIndex
    ensures HashesApart(head + rs)
  {
    var shown := head + rs;
    forall i, k | 0 <= i < k < |shown|
      ensures KeepsApart(shown[i], shown[k])
    {
      if i < |head| {
        assert head[i] in head && (k < |head| ==> head[k] in head);
      }
    }
  }

  lemma PlanHashesApart(js: Readers, response: Bytes, res: State, requests: seq<Request>, parts: seq<Part>)
    requires Planned(js, response, res, requests, parts) && HashesAlone(parts)
    ensures res.statusLineEndIndex.Some? && res.headerEndIdx >= 0
    ensures HashesApart(Shown(js, response, res, parts))
  {
    PlannedHead(js, response, res, requests, parts);
    HeadFits(response, res);
    var rs := RevealsTo(js, response, res, parts, |parts|);
    forall i, k | 0 <= i < k < |rs|
      ensures KeepsApart(rs[i], rs[k])
    {
      if rs[i].hash || rs[k].hash {
        TwoParts(js, response, res, parts, i, k);
      }
    }
    forall k | 0 <= k < |rs|
      ensures res.headerEndIdx + 4 <= rs[k].fromIndex
    {
      HeadersInPart(js, response, res, parts[k]);
    }
    HeadThenParts(HeadReveals(res), rs, res.headerEndIdx + 4);
  }

  /** Hashed parts that stand alone in the body and are whole on the wire. */
  lemma PlanClean(js: Readers, response: Bytes, res: State, requests: seq<Request>, parts: seq<Part>)
    requires Planned(js, response, res, requests, parts)
    requires HashesAlone(parts) && HashesWhole(js, response, res, parts)
    ensures res.statusLineEndIndex.Some? && res.headerEndIdx >= 0
    ensures CleanHashes(Shown(js, response, res, parts), Headers(js, response, res, parts), |response|)
  {
    PlannedHead(js, response, res, requests, parts);
    PlanFits(js, response, res, requests, parts);
    PlanHashesApart(js, response, res, requests, parts);
    var shown, headers := Shown(js, response, res, parts), Headers(js, response, res, parts);
    HeadFits(response, res);
    forall r <- shown, h <- headers | r.hash
      ensures !HeaderIn(r, h)
    {
      var k := ShownFrom(js, response, res, parts, r);
      var j := HeaderOrigin(js, response, res, parts, |parts|, h);
      if j != k {
        TwoParts(js, response, res, parts, j, k);
      }
    }
  }
}
