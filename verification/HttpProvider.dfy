/**
 The provider's plan for a response: which parts it reveals, where they are on the
 wire, and the slices that hide or hash everything else.
 */
module HttpProvider {
  import opened ByteData
  import opened HttpResponse
  import opened HttpIndices
  import opened HttpParser
  import opened Redaction
  import opened ChunkMap
  import opened ResponseRedactions

  /**
   A range of the body that a redaction request yields. A `group` is the hashed
   capture group of a regular expression.
   */
  datatype Part = Part(start: nat, length: nat, hash: bool, group: bool)

  /** The parts a request finds in a body; none when it throws. */
  type Request = Bytes -> Option<seq<Part>>

  datatype Plan = Plan(shown: seq<Redaction>, headers: seq<Redaction>)

  const DATE: Bytes := Ascii("date")

  function Plain(slices: seq<Slice>): (rs: seq<Redaction>)
    ensures |rs| == |slices|
    ensures forall k :: 0 <= k < |rs| ==> rs[k] == Redaction(slices[k].fromIndex, slices[k].toIndex, false)
  {
    seq(|slices|, k requires 0 <= k < |slices| => Redaction(slices[k].fromIndex, slices[k].toIndex, false))
  }

  /** What one part adds to the plan; none when it throws. */
  function PlanPart(part: Part, bodyStart: nat, chunks: Option<seq<Slice>>): Option<Plan>
    requires chunks.Some? ==> Proper(chunks.value)
  {
    if !part.group && part.length == 0 then Some(Plan([], []))
    else
      match WireRange(part.start, part.length, bodyStart, chunks)
      case None => None
      case Some(w) =>
        var headers := Plain(ChunkHeaders(w.fromIndex, w.toIndex, chunks));
        if part.group && headers != [] then None
        else Some(Plan([Redaction(w.fromIndex, w.toIndex, part.hash)], headers))
  }

  function PlanParts(parts: seq<Part>, bodyStart: nat, chunks: Option<seq<Slice>>): Option<Plan>
    requires chunks.Some? ==> Proper(chunks.value)
  {
    if parts == [] then Some(Plan([], []))
    else
      var prior := PlanParts(parts[..|parts| - 1], bodyStart, chunks);
      var last := PlanPart(parts[|parts| - 1], bodyStart, chunks);
      if prior.Some? && last.Some? then
        Some(Plan(prior.value.shown + last.value.shown, prior.value.headers + last.value.headers))
      else None
  }

  /** All parts of the first `n` requests; none when one of them throws. */
  function AllParts(requests: seq<Request>, n: nat, body: Bytes): Option<seq<Part>>
    requires n <= |requests|
  {
    if n == 0 then Some([])
    else
      var prior, last := AllParts(requests, n - 1, body), requests[n - 1](body);
      if prior.Some? && last.Some? then Some(prior.value + last.value) else None
  }

  /** The parts of the head that are always revealed. */
  function HeadReveals(res: State): seq<Redaction>
    requires res.statusLineEndIndex.Some? && res.headerEndIdx >= 0
  {
    [Redaction(0, res.statusLineEndIndex.value, false), Redaction(res.headerEndIdx, res.headerEndIdx + 4, false)]
    + if DATE in res.headerIndices then
        [Redaction(res.headerIndices[DATE].fromIndex, res.headerIndices[DATE].toIndex, false)]
      else []
  }

  /** Truncated division by 100 to a 32-bit integer, as `(code / 100) >> 0`. */
  predicate Successful(statusCode: nat) {
    (statusCode / 100) % 0x1_0000_0000 == 2
  }

  datatype Answer = Redactions(slices: seq<Redaction>) | Rejected

  /** The whole answer for a parsed response. */
  function AnswerFor(res: State, requests: seq<Request>, length: nat): Answer
    requires res.statusLineEndIndex.Some? && res.headerEndIdx >= 0
    requires res.chunks.Some? ==> Proper(res.chunks.value)
  {
    if requests == [] then Redactions([])
    else if !Successful(res.statusCode) then Rejected
    else
      var bodyStart := if res.bodyStartIndex.Some? then res.bodyStartIndex.value else 0;
      if bodyStart < 4 then Rejected
      else
        match AllParts(requests, |requests|, res.body)
        case None => Rejected
        case Some(parts) =>
          match PlanParts(parts, bodyStart, res.chunks)
          case None => Rejected
          case Some(plan) => Redactions(RedactionsFor(HeadReveals(res) + plan.shown, plan.headers, length))
  }

  lemma ParsedShape(js: Readers, response: Bytes, res: State)
    requires ParseHttpResponse(js, response) == Returned(res)
    ensures ParsedMeaning(js, response, res) && HeadMeaning(response, res) && res.headersComplete
    ensures res.statusLineEndIndex.Some? && res.headerEndIdx >= 0
    ensures res.chunks.Some? ==> Proper(res.chunks.value)
  {
    ParsedResponse(js, response, res);
    ParsedHead(js, response, res);
  }

  /** The answer to the bytes of a response. */
  function AnswerTo(js: Readers, response: Bytes, requests: seq<Request>): Answer {
    match ParseHttpResponse(js, response)
    case Threw(_) => Rejected
    case Returned(res) =>
      ParsedShape(js, response, res);
      AnswerFor(res, requests, |response|)
  }

  /** `parseHttpResponse`. */
  method ParseResponse(js: Readers, response: Bytes) returns (o: Outcome)
    ensures o == ParseHttpResponse(js, response)
  {
    var parser := new Parser(js);
    var threw := parser.OnChunk(response);
    if threw {
      return Threw(parser.Value());
    }
    threw := parser.StreamEnded();
    return if threw then Threw(parser.Value()) else Returned(parser.Value());
  }

  /** One turn of the generator: the reveal of a part, with the chunk headers in it. */
  method CollectPart(part: Part, bodyStart: nat, chunks: Option<seq<Slice>>) returns (plan: Option<Plan>)
    requires chunks.Some? ==> Proper(chunks.value)
    ensures plan == PlanPart(part, bodyStart, chunks)
  {
    if !part.group && part.length == 0 {
      return Some(Plan([], []));
    }
    var from := ConvertResponsePos(part.start, bodyStart, chunks);
    var until := ConvertResponsePos(part.start + part.length, bodyStart, chunks);
    if from.None? || until.None? {
      return None;
    }
    var slices := GetRedactionsForChunkHeaders(from.value, until.value, chunks);
    if part.group && slices != [] {
      return None;
    }
    return Some(Plan([Redaction(from.value, until.value, part.hash)], Plain(slices)));
  }

  /** The generator's turns for all parts. */
  method CollectParts(parts: seq<Part>, bodyStart: nat, chunks: Option<seq<Slice>>) returns (plan: Option<Plan>)
    requires chunks.Some? ==> Proper(chunks.value)
    ensures plan == PlanParts(parts, bodyStart, chunks)
  {
    var shown, headers := [], [];
    for k := 0 to |parts|
      invariant PlanParts(parts[..k], bodyStart, chunks) == Some(Plan(shown, headers))
    {
      assert parts[..k + 1][..k] == parts[..k];
      var one := CollectPart(parts[k], bodyStart, chunks);
      if one == None {
        PlanStaysFailed(parts, k + 1, bodyStart, chunks);
        return None;
      }
      shown, headers := shown + one.value.shown, headers + one.value.headers;
    }
    assert parts[..|parts|] == parts;
    return Some(Plan(shown, headers));
  }

  lemma {:induction false} PlanStaysFailed(parts: seq<Part>, k: nat, bodyStart: nat, chunks: Option<seq<Slice>>)
    requires chunks.Some? ==> Proper(chunks.value)
    requires k <= |parts| && PlanParts(parts[..k], bodyStart, chunks) == None
    ensures PlanParts(parts, bodyStart, chunks) == None
  {
    if k < |parts| {
      assert parts[..|parts| - 1][..k] == parts[..k];
      PlanStaysFailed(parts[..|parts| - 1], k, bodyStart, chunks);
    } else {
      assert parts[..k] == parts;
    }
  }

  /** What the requests find in the body, until one throws. */
  method FindParts(requests: seq<Request>, body: Bytes) returns (parts: Option<seq<Part>>)
    ensures parts == AllParts(requests, |requests|, body)
  {
    var all := [];
    for n := 0 to |requests|
      invariant AllParts(requests, n, body) == Some(all)
    {
      var found := requests[n](body);
      if found.None? {
        PartsStayFailed(requests, n + 1, |requests|, body);
        return None;
      }
      all := all + found.value;
    }
    return Some(all);
  }

  /** `getResponseRedactions`; the blank line is only checked when clients reveal it. */
  method GetResponseRedactions(js: Readers, response: Bytes, requests: seq<Request>, revealCrlf: bool)
    returns (answer: Answer)
    ensures answer == AnswerTo(js, response, requests)
  {
    var parsed := ParseResponse(js, response);
    if parsed.Threw? {
      return Rejected;
    }
    var res := parsed.st;
    ParsedShape(js, response, res);
    if requests == [] {
      return Redactions([]);
    }
    if !Successful(res.statusCode) {
      return Rejected;
    }
    var bodyStart := if res.bodyStartIndex.Some? then res.bodyStartIndex.value else 0;
    if bodyStart < 4 {
      return Rejected;
    }
    if revealCrlf {
      if response[res.headerEndIdx..res.headerEndIdx + 4] != CRLF + CRLF {
        assert false;  // the parser recorded where the separator stands
      }
    }
    var parts := FindParts(requests, res.body);
    if parts.None? {
      return Rejected;
    }
    var plan := CollectParts(parts.value, bodyStart, res.chunks);
    if plan.None? {
      return Rejected;
    }
    var redactions :=
      ComplementReveals(HeadReveals(res) + plan.value.shown, plan.value.headers, |response|);
    return Redactions(redactions);
  }

  lemma {:induction false} PartsStayFailed(requests: seq<Request>, k: nat, n: nat, body: Bytes)
    requires k <= n <= |requests| && AllParts(requests, k, body) == None
    ensures AllParts(requests, n, body) == None
  {
    if k < n {
      PartsStayFailed(requests, k, n - 1, body);
    }
  }
}
