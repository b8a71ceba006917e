/**
 The head of a response: however its lines are written, status and headers are what they
 say, and every response that is parsed to its end has such a head.
 */
module HttpHead {
  import opened ByteData
  import opened HttpResponse
  import opened HttpIndices
  import opened HttpHeaders

  /** A line that can stand in front of a CRLF. */
  predicate LineText(line: Bytes) {
    forall j :: 0 <= j < |line| ==> !CrlfAt(line, j)
  }

  function WireLine(line: Bytes): Bytes {
    line + CRLF
  }

  function HeaderLines(lines: seq<Bytes>): Bytes {
    if lines == [] then CRLF else WireLine(lines[0]) + HeaderLines(lines[1..])
  }

  predicate HeadSpelled(js: Readers, status: Bytes, lines: seq<Bytes>) {
    && LineText(status)
    && js.statusLine(status).Some? && js.statusLine(status).value.0 != 0
    && forall i :: 0 <= i < |lines| ==> lines[i] != [] && LineText(lines[i])
  }

  function HeadWire(status: Bytes, lines: seq<Bytes>): Bytes {
    WireLine(status) + HeaderLines(lines)
  }

  // ----- reading lines -----

  lemma TakeWireLine(st: State, line: Bytes, rest: Bytes)
    requires LineText(line) && st.remaining == WireLine(line) + rest
    ensures HasLine(st) && Line(st) == line
    ensures DropLine(st) == st.(remaining := rest, currentByteIdx := st.currentByteIdx + |line| + 2)
  {
    WireLineEnds(st.remaining, line, rest);
    assert st.remaining[..|line|] == line && st.remaining[|line| + 2..] == rest;
  }

  lemma WireLineEnds(s: Bytes, line: Bytes, rest: Bytes)
    requires LineText(line) && s == WireLine(line) + rest
    ensures LineEnd(s) == |line| && CrlfAt(s, |line|)
  {
    assert CrlfAt(s, |line|);
    assert forall j :: 0 <= j < |line| ==> s[j] == line[j] && !CrlfAt(line, j);
    assert !CrlfAt(s, LineEnd(s)) || LineEnd(s) >= |line|;
  }

  /** What the lines of a head leave for the body. */
  predicate HeadRead(st: State, r: State, end: nat, rest: Bytes) {
    && r.headersComplete
    && r.remaining == rest
    && r.currentByteIdx == end
    && r.headerEndIdx == r.currentByteIdx - 4
    && r.statusCode == st.statusCode && r.statusMessage == st.statusMessage && r.statusLineEndIndex == st.statusLineEndIndex
    && r.body == st.body && r.complete == st.complete && r.bodyStartIndex == st.bodyStartIndex
  }

  predicate FramingRead(js: Readers, st: State, r: State) {
    if DeclaredChunked(r) then
      r.isChunked && r.chunks == Some([]) && r.remainingBodyBytes == st.remainingBodyBytes
    else
      r.isChunked == st.isChunked && r.chunks == st.chunks && r.remainingBodyBytes == DeclaredLength(js, r)
  }

  /** The loop over the head has come from `st` to `next`, having read the first `k` lines. */
  ghost predicate LinesDone(js: Readers, st: State, next: State, lines: seq<Bytes>, k: nat, at: nat) {
    && k <= |lines| && ReadHead(js, st) == ReadHead(js, next)
    && next == st.(remaining := next.remaining, currentByteIdx := LineAt(lines, at, k),
                   headers := HeadersTo(lines, k), headerIndices := IndicesTo(lines, at, k))
  }

  lemma LinesDoneNext(js: Readers, st: State, next: State, lines: seq<Bytes>, k: nat, at: nat, after: Bytes)
    returns (further: State)
    requires !st.headersComplete && st.statusCode != 0 && LinesDone(js, st, next, lines, k, at)
    requires k < |lines| && lines[k] != [] && LineText(lines[k]) && next.remaining == WireLine(lines[k]) + after
    ensures LinesDone(js, st, further, lines, k + 1, at) && further.remaining == after
  {
    further := OneLineRead(js, next, lines[k], after);
    NextMaps(lines, k, at);
  }

  lemma NextMaps(lines: seq<Bytes>, k: nat, at: nat)
    requires k < |lines|
    ensures LineAt(lines, at, k + 1) == LineAt(lines, at, k) + |lines[k]| + 2
    ensures HeadersTo(lines, k + 1) == HeadersTo(lines, k)[SplitHeader(lines[k]).0 := SplitHeader(lines[k]).1]
    ensures IndicesTo(lines, at, k + 1)
         == IndicesTo(lines, at, k)[SplitHeader(lines[k]).0 :=
              Slice(LineAt(lines, at, k), LineAt(lines, at, k) + |lines[k]|)]
  {
  }

  lemma OneLineRead(js: Readers, st: State, line: Bytes, after: Bytes) returns (next: State)
    requires !st.headersComplete && st.statusCode != 0 && line != [] && LineText(line)
    requires st.remaining == WireLine(line) + after
    ensures ReadHead(js, st) == ReadHead(js, next)
    ensures next == st.(remaining := after, currentByteIdx := st.currentByteIdx + |line| + 2,
                        headers := st.headers[SplitHeader(line).0 := SplitHeader(line).1],
                        headerIndices := st.headerIndices[SplitHeader(line).0 :=
                          Slice(st.currentByteIdx, st.currentByteIdx + |line|)])
  {
    TakeWireLine(st, line, after);
    next := HeadStep(js, st);
    assert next == HeaderStep(DropLine(st), line);
  }

  lemma ReadHeaderLines(js: Readers, st: State, lines: seq<Bytes>, at: nat, rest: Bytes)
    requires !st.headersComplete && st.statusCode != 0
    requires st.headers == map[] && st.headerIndices == map[] && st.currentByteIdx == at
    requires forall i :: 0 <= i < |lines| ==> lines[i] != [] && LineText(lines[i])
    requires st.remaining == HeaderLines(lines) + rest
    ensures var r := ReadHead(js, st);
            && HeadRead(st, r, LineAt(lines, at, |lines|) + 2, rest)
            && r.headers == HeadersTo(lines, |lines|) && r.headerIndices == IndicesTo(lines, at, |lines|)
            && FramingRead(js, st, r)
  {
    var next, left := st, lines;
    for k := 0 to |lines|
      invariant left == lines[k..] && next.remaining == HeaderLines(left) + rest
      invariant LinesDone(js, st, next, lines, k, at)
    {
      HeaderLinesFirst(left, rest);
      next := LinesDoneNext(js, st, next, lines, k, at, HeaderLines(left[1..]) + rest);
      left := left[1..];
    }
    assert HeaderLines(left) == HeaderLines([]);
    ReadBlankLine(js, next, rest);
  }

  lemma HeaderLinesFirst(lines: seq<Bytes>, rest: Bytes)
    requires lines != []
    ensures HeaderLines(lines) + rest == WireLine(lines[0]) + (HeaderLines(lines[1..]) + rest)
  {
  }

  /** As long as they are with their line ends. */
  lemma {:induction false} HeaderLinesSize(lines: seq<Bytes>, at: nat, k: nat)
    requires k <= |lines|
    ensures LineAt(lines, at, k) + |HeaderLines(lines[k..])| == at + |HeaderLines(lines)|
    decreases k
  {
    if k > 0 {
      HeaderLinesSize(lines, at, k - 1);
      assert lines[k - 1..][1..] == lines[k..];
    } else {
      assert lines[0..] == lines;
    }
  }

  lemma ReadBlankLine(js: Readers, st: State, rest: Bytes)
    requires !st.headersComplete && st.statusCode != 0 && st.remaining == HeaderLines([]) + rest
    ensures var r := ReadHead(js, st);
            && HeadRead(st, r, st.currentByteIdx + 2, rest) && FramingRead(js, st, r)
            && r.headers == st.headers && r.headerIndices == st.headerIndices
  {
    assert st.remaining == WireLine([]) + rest;
    TakeWireLine(st, [], rest);
    var r := HeadStep(js, st);
    assert ReadHead(js, st) == r;
  }

  /** Status and headers are what status line and header lines say, the first of which begins at `at`. */
  ghost predicate HeadSaysFrom(js: Readers, status: Bytes, lines: seq<Bytes>, at: nat, r: State) {
    && js.statusLine(status).Some?
    && r.statusCode == js.statusLine(status).value.0 && r.statusMessage == Some(js.statusLine(status).value.1)
    && r.statusLineEndIndex == Some(at + |status|) && r.headerEndIdx == LineAt(lines, at + |status| + 2, |lines|) - 2
    && Recorded(r.headers, r.headerIndices, lines, at + |status| + 2)
  }

  ghost predicate HeadSays(js: Readers, status: Bytes, lines: seq<Bytes>, r: State) {
    HeadSaysFrom(js, status, lines, 0, r)
  }

  /** Nothing but the status line has been read. */
  predicate StatusRead(js: Readers, status: Bytes, next: State) {
    && js.statusLine(status).Some? && next.statusCode == js.statusLine(status).value.0
    && next.statusMessage == Some(js.statusLine(status).value.1) && next.statusLineEndIndex == Some(|status|)
    && next.currentByteIdx == |status| + 2 && next.headers == map[] && next.headerIndices == map[]
    && !next.headersComplete && !next.complete && next.body == [] && next.bodyStartIndex == None
    && !next.isChunked && next.chunks == None && next.remainingBodyBytes == 0
  }

  lemma ReadStatusWire(js: Readers, status: Bytes, lines: seq<Bytes>, rest: Bytes) returns (next: State)
    requires HeadSpelled(js, status, lines)
    ensures StatusRead(js, status, next) && next.remaining == HeaderLines(lines) + rest
    ensures ReadHead(js, Push(INITIAL, HeadWire(status, lines) + rest)) == ReadHead(js, next)
  {
    var st := Push(INITIAL, HeadWire(status, lines) + rest);
    var after := HeaderLines(lines) + rest;
    assert st.remaining == WireLine(status) + after;
    TakeWireLine(st, status, after);
    next := HeadStep(js, st);
  }

  lemma HeadSize(status: Bytes, lines: seq<Bytes>, at: nat)
    ensures at + |HeadWire(status, lines)| == LineAt(lines, at + |status| + 2, |lines|) + 2
  {
    HeaderLinesSize(lines, at + |status| + 2, |lines|);
    assert lines[|lines|..] == [];
  }

  lemma HeadWireSays(js: Readers, status: Bytes, lines: seq<Bytes>, rest: Bytes)
    requires HeadSpelled(js, status, lines)
    ensures HeadSays(js, status, lines, ReadHead(js, Push(INITIAL, HeadWire(status, lines) + rest)))
  {
    var next := ReadStatusWire(js, status, lines, rest);
    HeadBehindSays(js, status, lines, next, rest);
  }

  lemma HeadBehindSays(js: Readers, status: Bytes, lines: seq<Bytes>, next: State, rest: Bytes)
    requires HeadSpelled(js, status, lines) && StatusRead(js, status, next) && next.remaining == HeaderLines(lines) + rest
    ensures HeadSays(js, status, lines, ReadHead(js, next))
  {
    LinesLeft(js, lines, next, rest);
    LinesSay(js, status, lines, 0, |status| + 2, next, ReadHead(js, next));
  }

  lemma LinesLeft(js: Readers, lines: seq<Bytes>, next: State, rest: Bytes)
    requires !next.headersComplete && next.statusCode != 0 && next.headers == map[] && next.headerIndices == map[]
    requires forall i :: 0 <= i < |lines| ==> lines[i] != [] && LineText(lines[i])
    requires next.remaining == HeaderLines(lines) + rest
    ensures LinesLeave(lines, next.currentByteIdx, next, ReadHead(js, next))
  {
    ReadHeaderLines(js, next, lines, next.currentByteIdx, rest);
  }

  lemma ReadHeadWire(js: Readers, status: Bytes, lines: seq<Bytes>, rest: Bytes)
    requires HeadSpelled(js, status, lines)
    ensures var r := ReadHead(js, Push(INITIAL, HeadWire(status, lines) + rest));
            && r.headersComplete && !r.complete && r.body == [] && r.bodyStartIndex == None
            && r.remaining == rest && r.currentByteIdx == |HeadWire(status, lines)|
            && r.isChunked == DeclaredChunked(r)
            && r.chunks == (if r.isChunked then Some([]) else None)
            && r.remainingBodyBytes == (if r.isChunked then 0 else DeclaredLength(js, r))
  {
    var next := ReadStatusWire(js, status, lines, rest);
    ReadHeaderLines(js, next, lines, |status| + 2, rest);
    HeadSize(status, lines, 0);
  }

  // ----- every head is written -----

  lemma LineIsText(st: State)
    requires HasLine(st)
    ensures LineText(Line(st)) && st.remaining == WireLine(Line(st)) + DropLine(st).remaining
  {
    var s, n := st.remaining, LineEnd(st.remaining);
    forall j | 0 <= j < n
      ensures !CrlfAt(s[..n], j)
    {
      assert CrlfAt(s[..n], j) ==> CrlfAt(s, j);
    }
    assert s[n..n + 2] == CRLF && s == s[..n] + s[n..n + 2] + s[n + 2..];
  }

  lemma {:induction false} HeaderLinesWritten(js: Readers, st: State) returns (lines: seq<Bytes>, rest: Bytes)
    requires !st.headersComplete && st.statusCode != 0 && ReadHead(js, st).headersComplete
    ensures st.remaining == HeaderLines(lines) + rest
    ensures forall i :: 0 <= i < |lines| ==> lines[i] != [] && LineText(lines[i])
    decreases |st.remaining|
  {
    var line := Line(st);
    LineIsText(st);
    if line == [] {
      lines, rest := [], DropLine(st).remaining;
    } else {
      var others: seq<Bytes>;
      others, rest := HeaderLinesWritten(js, HeadStep(js, st));
      lines := [line] + others;
      assert lines[1..] == others;
      HeaderLinesFirst(lines, rest);
    }
  }

  /** Lines in front of the status line, which the parser takes for status lines that do not match. */
  predicate NoStatus(js: Readers, line: Bytes) {
    LineText(line) && (js.statusLine(line) == None || js.statusLine(line).value.0 == 0)
  }

  function Lines(lines: seq<Bytes>): Bytes {
    if lines == [] then [] else WireLine(lines[0]) + Lines(lines[1..])
  }

  /** Lines that are no status line, a head, and what is behind it. */
  predicate IsResponse(js: Readers, input: Bytes, skipped: seq<Bytes>, status: Bytes, lines: seq<Bytes>, rest: Bytes) {
    && input == Lines(skipped) + (HeadWire(status, lines) + rest) && HeadSpelled(js, status, lines)
    && forall i :: 0 <= i < |skipped| ==> NoStatus(js, skipped[i])
  }

  /** Nothing of the head has been read. */
  predicate Unread(st: State) {
    !st.headersComplete && st.statusCode == 0 && st.headers == map[] && st.headerIndices == map[]
  }

  /** One turn of the loop on a line before the headers. */
  predicate StatusTurn(js: Readers, st: State, line: Bytes, next: State) {
    && next.currentByteIdx == st.currentByteIdx + |line| + 2
    && !next.headersComplete && next.headers == map[] && next.headerIndices == map[]
    && next.statusLineEndIndex == Some(st.currentByteIdx + |line|)
    && if js.statusLine(line).Some? then
         next.statusCode == js.statusLine(line).value.0 && next.statusMessage == Some(js.statusLine(line).value.1)
       else next.statusCode == 0
  }

  lemma StatusLineRead(js: Readers, st: State) returns (line: Bytes, next: State)
    requires Unread(st) && ReadHead(js, st).headersComplete
    ensures StatusTurn(js, st, line, next) && ReadHead(js, st) == ReadHead(js, next)
    ensures LineText(line) && st.remaining == WireLine(line) + next.remaining
  {
    line, next := Line(st), HeadStep(js, st);
    LineIsText(st);
    LineTaken(st);
    StatusStepTurns(js, st, DropLine(st), line);
  }

  lemma LineTaken(st: State)
    requires HasLine(st)
    ensures DropLine(st) == st.(remaining := DropLine(st).remaining, currentByteIdx := st.currentByteIdx + |Line(st)| + 2)
  {
  }

  lemma StatusStepTurns(js: Readers, st: State, taken: State, line: Bytes)
    requires Unread(st)
    requires taken == st.(remaining := taken.remaining, currentByteIdx := st.currentByteIdx + |line| + 2)
    ensures StatusTurn(js, st, line, StatusLineStep(js, taken, line))
  {
  }

  lemma {:induction false} HeadWritten(js: Readers, st: State)
    returns (skipped: seq<Bytes>, status: Bytes, lines: seq<Bytes>, rest: Bytes, at: nat)
    requires Unread(st) && ReadHead(js, st).headersComplete
    ensures IsResponse(js, st.remaining, skipped, status, lines, rest)
    ensures at == st.currentByteIdx + |Lines(skipped)| && HeadSaysFrom(js, status, lines, at, ReadHead(js, st))
    decreases |st.remaining|
  {
    var line, next := StatusLineRead(js, st);
    if next.statusCode == 0 {
      var others: seq<Bytes>;
      others, status, lines, rest, at := HeadWritten(js, next);
      skipped := [line] + others;
      SkippedMore(js, st.remaining, next.remaining, line, others, status, lines, rest);
    } else {
      skipped, status, at := [], line, st.currentByteIdx;
      lines, rest := StatusFound(js, st, line, next);
    }
  }

  lemma StatusFound(js: Readers, st: State, line: Bytes, next: State) returns (lines: seq<Bytes>, rest: Bytes)
    requires StatusTurn(js, st, line, next) && next.statusCode != 0 && ReadHead(js, next).headersComplete
    requires LineText(line) && st.remaining == WireLine(line) + next.remaining
    ensures IsResponse(js, st.remaining, [], line, lines, rest) && Lines([]) == []
    ensures HeadSaysFrom(js, line, lines, st.currentByteIdx, ReadHead(js, next))
  {
    lines, rest := HeaderLinesFound(js, next);
    LinesSay(js, line, lines, st.currentByteIdx, next.currentByteIdx, next, ReadHead(js, next));
    NoneSkipped(js, st.remaining, line, next.remaining, lines, rest);
  }

  lemma NoneSkipped(js: Readers, input: Bytes, status: Bytes, later: Bytes, lines: seq<Bytes>, rest: Bytes)
    requires input == WireLine(status) + later && later == HeaderLines(lines) + rest && HeadSpelled(js, status, lines)
    ensures IsResponse(js, input, [], status, lines, rest) && Lines([]) == []
  {
    Regroup(WireLine(status), HeaderLines(lines), rest);
    assert [] + (HeadWire(status, lines) + rest) == HeadWire(status, lines) + rest;
  }

  lemma SkippedMore(js: Readers, input: Bytes, later: Bytes, line: Bytes, others: seq<Bytes>, status: Bytes, lines: seq<Bytes>,
                    rest: Bytes)
    requires input == WireLine(line) + later && NoStatus(js, line) && IsResponse(js, later, others, status, lines, rest)
    ensures IsResponse(js, input, [line] + others, status, lines, rest)
    ensures |Lines([line] + others)| == |line| + 2 + |Lines(others)|
  {
    assert ([line] + others)[1..] == others;
    Regroup(WireLine(line), Lines(others), HeadWire(status, lines) + rest);
  }

  /** What the lines leave in the state, the first of which begins at `from`. */
  predicate LinesLeave(lines: seq<Bytes>, from: nat, next: State, r: State) {
    && r.headers == HeadersTo(lines, |lines|) && r.headerIndices == IndicesTo(lines, from, |lines|)
    && r.headerEndIdx == LineAt(lines, from, |lines|) - 2
    && r.statusCode == next.statusCode && r.statusMessage == next.statusMessage
    && r.statusLineEndIndex == next.statusLineEndIndex
  }

  lemma HeaderLinesFound(js: Readers, next: State) returns (lines: seq<Bytes>, rest: Bytes)
    requires !next.headersComplete && next.headers == map[] && next.headerIndices == map[] && next.statusCode != 0
    requires ReadHead(js, next).headersComplete
    ensures next.remaining == HeaderLines(lines) + rest && forall i :: 0 <= i < |lines| ==> lines[i] != [] && LineText(lines[i])
    ensures LinesLeave(lines, next.currentByteIdx, next, ReadHead(js, next))
  {
    lines, rest := HeaderLinesWritten(js, next);
    LinesLeft(js, lines, next, rest);
  }

  /** What was read line by line is what the lines say. */
  lemma LinesSay(js: Readers, status: Bytes, lines: seq<Bytes>, at: nat, from: nat, next: State, r: State)
    requires js.statusLine(status).Some? && next.statusCode == js.statusLine(status).value.0
    requires next.statusMessage == Some(js.statusLine(status).value.1) && next.statusLineEndIndex == Some(at + |status|)
    requires from == at + |status| + 2 && LinesLeave(lines, from, next, r)
    ensures HeadSaysFrom(js, status, lines, at, r)
  {
    ToRecorded(lines, from, |lines|);
    assert lines[..|lines|] == lines;
  }

  /**
   Every response parsed to its end has a status line, header lines and an empty line, behind
   lines that are no status line, if any: status and headers are what these lines say, of
   several with one name the last, in any case of its letters; each index names its line.
   */
  lemma ParsedHeadSays(js: Readers, response: Bytes, res: State)
    returns (skipped: seq<Bytes>, status: Bytes, lines: seq<Bytes>, rest: Bytes)
    requires ParseHttpResponse(js, response) == Returned(res)
    ensures IsResponse(js, response, skipped, status, lines, rest)
    ensures HeadSaysFrom(js, status, lines, |Lines(skipped)|, res)
  {
    var st := BeforeHead(js, response, res);
    skipped, status, lines, rest := HeadSaid(js, st, res);
  }

  lemma HeadSaid(js: Readers, st: State, res: State)
    returns (skipped: seq<Bytes>, status: Bytes, lines: seq<Bytes>, rest: Bytes)
    requires Unread(st) && st.currentByteIdx == 0 && ReadHead(js, st).headersComplete
    requires Later(ReadHead(js, st), res) && res.statusMessage == ReadHead(js, st).statusMessage
    ensures IsResponse(js, st.remaining, skipped, status, lines, rest)
    ensures HeadSaysFrom(js, status, lines, |Lines(skipped)|, res)
  {
    var at: nat;
    skipped, status, lines, rest, at := HeadWritten(js, st);
    SaysLater(js, status, lines, at, ReadHead(js, st), res);
  }

  lemma SaysLater(js: Readers, status: Bytes, lines: seq<Bytes>, at: nat, head: State, res: State)
    requires HeadSaysFrom(js, status, lines, at, head) && Later(head, res) && res.statusMessage == head.statusMessage
    ensures HeadSaysFrom(js, status, lines, at, res)
  {
  }

  lemma BeforeHead(js: Readers, response: Bytes, res: State) returns (st: State)
    requires ParseHttpResponse(js, response) == Returned(res)
    ensures Unread(st) && st.remaining == response && st.currentByteIdx == 0 && ReadHead(js, st).headersComplete
    ensures Later(ReadHead(js, st), res) && res.statusMessage == ReadHead(js, st).statusMessage
  {
    st := Push(INITIAL, response);
    assert st.remaining == response;
    ReadHeadPlain(js, st);
    RestLater(js, ReadHead(js, st));
  }

  lemma RestLater(js: Readers, head: State)
    requires head.remainingBodyBytes >= -1
    ensures Later(head, ReadRest(js, head).st) && ReadRest(js, head).st.statusMessage == head.statusMessage
  {
    var due := MarkEmpty(ReadDue(head));
    DuePlain(head);
    if head.isChunked {
      ReadChunksLater(js, due);
      ReadChunksMessage(js, due);
    }
  }

  lemma DuePlain(head: State)
    requires head.remainingBodyBytes >= -1
    ensures var due := MarkEmpty(ReadDue(head));
            due.remainingBodyBytes >= -1 && Later(head, due) && due.statusMessage == head.statusMessage
  {
  }

  lemma {:induction false} ReadChunksMessage(js: Readers, st: State)
    ensures ReadChunks(js, st).st.statusMessage == st.statusMessage
    decreases |st.remaining|
  {
    if HasLine(st) {
      var line, next := Line(st), DropLine(st);
      if line == [] {
        ReadChunksMessage(js, next);
      } else if js.hex(line) == 0 {
        ReadChunksMessage(js, next.(complete := true));
      } else {
        var begun := BeginChunk(next, js.hex(line));
        if !begun.complete && ReadBody(begun).remainingBodyBytes == 0 {
          ReadChunksMessage(js, ReadBody(begun));
        }
      }
    }
  }
}
