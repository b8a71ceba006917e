/**
 The incremental HTTP/1.1 response parser of `makeHttpResponseParser`, as
 functions on the value of its state: the fields of the response it builds and
 the variables it closes over.
 */
module HttpResponse {
  import opened ByteData

  /**
   The JavaScript text readers the parser calls. A reading that is `NaN` is 0
   here: the parser only ever asks whether a reading is truthy.
   */
  datatype ReadersBase = Readers(
    /** the match of `HTTP/d.d (d+) (.*)`: status code and message */
    statusLine: Bytes -> Option<(nat, Bytes)>,
    /** `Number(text)` */
    number: Bytes -> nat,
    /** `Number.parseInt(text, 16)` */
    hex: Bytes -> nat)

  type Readers = js: ReadersBase | js.number(ZERO_TEXT) == 0 && js.statusLine([]) == None
    witness Readers(_ => None, _ => 0, _ => 0)

  const ZERO_TEXT: Bytes := [48]  // "0"
  const COLON_SPACE: Bytes := [58, 32]  // ": "
  const TRANSFER_ENCODING: Bytes := Ascii("transfer-encoding")
  const CONTENT_LENGTH: Bytes := Ascii("content-length")
  const CHUNKED: Bytes := Ascii("chunked")

  datatype State = State(
    // the response
    statusCode: nat,
    statusMessage: Option<Bytes>,
    statusLineEndIndex: Option<nat>,
    headers: map<Bytes, Option<Bytes>>,
    headerIndices: map<Bytes, Slice>,
    headersComplete: bool,
    headerEndIdx: int,
    bodyStartIndex: Option<nat>,
    chunks: Option<seq<Slice>>,
    body: Bytes,
    complete: bool,
    // the variables of the closure
    remainingBodyBytes: int,
    isChunked: bool,
    remaining: Bytes,
    currentByteIdx: nat)

  const INITIAL: State :=
    State(0, None, None, map[], map[], false, 0, None, None, [], false, 0, false, [], 0)

  /** What one call did: it returned, or it threw in the given state. */
  datatype Outcome = Returned(st: State) | Threw(st: State)

  // ----- text -----

  predicate CrlfAt(s: Bytes, i: int) {
    0 <= i < |s| - 1 && s[i] == CR && s[i + 1] == LF
  }

  /** The index of the first CRLF, or -1. */
  function LineEnd(s: Bytes): (i: int)
    ensures i == -1 || CrlfAt(s, i)
    ensures forall j :: CrlfAt(s, j) ==> 0 <= i <= j
  {
    if |s| < 2 then -1
    else if CrlfAt(s, 0) then 0
    else
      var rest := LineEnd(s[1..]);
      assert forall j :: CrlfAt(s, j) && j > 0 ==> CrlfAt(s[1..], j - 1);
      if rest == -1 then -1 else rest + 1
  }

  predicate OccursAt(haystack: Bytes, needle: Bytes, i: int) {
    0 <= i < |haystack| && i + |needle| <= |haystack| && haystack[i..i + |needle|] == needle
  }

  predicate Includes(haystack: Bytes, needle: Bytes) {
    exists i :: 0 <= i < |haystack| && OccursAt(haystack, needle, i)
  }

  /** The parts of `text.split(sep)` up to the second separator: `[first, second]`. */
  function SplitAt(text: Bytes, sep: Bytes, i: nat): (Bytes, Option<Bytes>)
    requires i <= |text| && sep != []
    decreases |text| - i
  {
    if i == |text| then (text, None)
    else if OccursAt(text, sep, i) then
      var rest := text[i + |sep|..];
      (text[..i], Some(SplitAt(rest, sep, 0).0))
    else SplitAt(text, sep, i + 1)
  }

  function LowerByte(b: Byte): Byte {
    if 65 <= b <= 90 then b + 32 else b
  }

  function Lower(text: Bytes): Bytes {
    seq(|text|, i requires 0 <= i < |text| => LowerByte(text[i]))
  }

  /** The name and the value that a header line is read as. */
  function SplitHeader(line: Bytes): (Bytes, Option<Bytes>) {
    var (key, value) := SplitAt(line, COLON_SPACE, 0);
    (Lower(key), value)
  }

  function Header(st: State, name: Bytes): Option<Bytes> {
    if name in st.headers then st.headers[name] else None
  }

  // ----- steps -----

  /** More bytes arrive behind the ones not yet read. */
  function Push(st: State, data: Bytes): State {
    st.(remaining := st.remaining + data)
  }

  predicate HasLine(st: State) {
    LineEnd(st.remaining) >= 0
  }

  function Line(st: State): Bytes
    requires HasLine(st)
  {
    st.remaining[..LineEnd(st.remaining)]
  }

  /** The state after `getLine` returned `Line(st)`. */
  function DropLine(st: State): (r: State)
    requires HasLine(st)
    ensures |r.remaining| < |st.remaining|
    ensures r.currentByteIdx >= |Line(st)| + 2
  {
    var n := LineEnd(st.remaining) + 2;
    st.(remaining := st.remaining[n..], currentByteIdx := st.currentByteIdx + n)
  }

  function StatusLineStep(js: Readers, st: State, line: Bytes): State
    requires st.currentByteIdx >= 2
  {
    var end := st.currentByteIdx - 2;
    match js.statusLine(line)
    case Some((code, message)) =>
      st.(statusCode := code, statusMessage := Some(message), statusLineEndIndex := Some(end))
    case None =>
      st.(statusCode := 0, statusMessage := None, statusLineEndIndex := Some(end))
  }

  predicate DeclaredChunked(st: State) {
    var encoding := Header(st, TRANSFER_ENCODING);
    encoding.Some? && Includes(encoding.value, CHUNKED)
  }

  /** The bytes due when the headers of an unchunked response end; -1 is "until the stream ends". */
  function DeclaredLength(js: Readers, st: State): (due: int)
    ensures due >= -1
  {
    var length := Header(st, CONTENT_LENGTH);
    if length.Some? && length.value != [] then js.number(length.value) else -1
  }

  function HeadersEndStep(js: Readers, st: State): State {
    var ended := st.(headersComplete := true, headerEndIdx := st.currentByteIdx - 4);
    if DeclaredChunked(st) then ended.(isChunked := true, chunks := Some([]))
    else ended.(remainingBodyBytes := DeclaredLength(js, st))
  }

  function HeaderStep(st: State, line: Bytes): State
    requires st.currentByteIdx >= |line| + 2
  {
    var (key, value) := SplitHeader(line);
    var from := st.currentByteIdx - |line| - 2;
    st.(headers := st.headers[key := value],
        headerIndices := st.headerIndices[key := Slice(from, from + |line|)])
  }

  /** What the header loop does with a line it took. */
  function HeadAction(js: Readers, st: State, line: Bytes): (r: State)
    requires st.currentByteIdx >= |line| + 2
    ensures r.remaining == st.remaining
  {
    if st.statusCode == 0 then StatusLineStep(js, st, line)
    else if line == [] then HeadersEndStep(js, st)
    else HeaderStep(st, line)
  }

  /** One turn of the header loop. */
  function HeadStep(js: Readers, st: State): (r: State)
    requires HasLine(st)
    ensures |r.remaining| < |st.remaining|
  {
    HeadAction(js, DropLine(st), Line(st))
  }

  function ReadHead(js: Readers, st: State): State
    decreases |st.remaining|
  {
    if st.headersComplete || !HasLine(st) then st else ReadHead(js, HeadStep(js, st))
  }

  /** `readBody` after its check that the response is not complete. */
  function ReadBody(st: State): (r: State)
    requires st.remainingBodyBytes >= -1
    ensures |r.remaining| <= |st.remaining|
  {
    var n := if st.remainingBodyBytes == -1 then |st.remaining|
             else Min(st.remainingBodyBytes, |st.remaining|);
    st.(bodyStartIndex := if st.bodyStartIndex in {None, Some(0)} then Some(st.currentByteIdx)
                          else st.bodyStartIndex,
        remainingBodyBytes := if st.remainingBodyBytes == -1 then -1 else st.remainingBodyBytes - n,
        body := st.body + st.remaining[..n],
        remaining := st.remaining[n..],
        currentByteIdx := st.currentByteIdx + n)
  }

  /** The state in which `readBody` is called for a chunk of the given size. */
  function BeginChunk(st: State, size: nat): State {
    var chunk := Slice(st.currentByteIdx, st.currentByteIdx + size);
    st.(chunks := if st.chunks.Some? then Some(st.chunks.value + [chunk]) else None,
        remainingBodyBytes := size)
  }

  function ReadChunks(js: Readers, st: State): Outcome
    decreases |st.remaining|
  {
    if !HasLine(st) then Returned(st)
    else
      var line := Line(st);
      var next := DropLine(st);
      if line == [] then ReadChunks(js, next)
      else if js.hex(line) == 0 then ReadChunks(js, next.(complete := true))
      else
        var begun := BeginChunk(next, js.hex(line));
        if begun.complete then Threw(begun)
        else
          var read := ReadBody(begun);
          if read.remainingBodyBytes != 0 then Returned(read) else ReadChunks(js, read)
  }

  /** `Content-Length: 0` completes the response. */
  function MarkEmpty(st: State): State {
    if Header(st, CONTENT_LENGTH) == Some(ZERO_TEXT) then st.(complete := true) else st
  }

  /** `readBody` for the bytes still due, and completion of an unchunked body. */
  function ReadDue(st: State): State
    requires st.remainingBodyBytes >= -1
  {
    if st.remainingBodyBytes == 0 then st
    else
      var read := ReadBody(st);
      if read.remainingBodyBytes == 0 && !st.isChunked then read.(complete := true) else read
  }

  /** The part of `onChunk` that runs once the headers are complete. */
  function ReadRest(js: Readers, st: State): Outcome
    requires st.remainingBodyBytes >= -1
  {
    if st.remainingBodyBytes != 0 && st.complete then Threw(st)
    else
      var due := MarkEmpty(ReadDue(st));
      if st.isChunked then ReadChunks(js, due) else Returned(due)
  }

  predicate Plain(st: State) {
    st.remainingBodyBytes >= -1
  }

  lemma ReadHeadPlain(js: Readers, st: State)
    requires Plain(st)
    ensures Plain(ReadHead(js, st))
    decreases |st.remaining|
  {
    if !st.headersComplete && HasLine(st) {
      ReadHeadPlain(js, HeadStep(js, st));
    }
  }

  function OnChunk(js: Readers, st: State, data: Bytes): Outcome
    requires Plain(st)
  {
    ReadHeadPlain(js, Push(st, data));
    var head := ReadHead(js, Push(st, data));
    if head.headersComplete then ReadRest(js, head) else Returned(head)
  }

  predicate StreamMayEnd(st: State) {
    st.headersComplete && st.remaining == [] && st.remainingBodyBytes <= 0
  }

  /** `streamEnded`. */
  function StreamEnded(st: State): Outcome {
    if StreamMayEnd(st) then Returned(st.(complete := true)) else Threw(st)
  }

  /** `parseHttpResponse`. */
  function ParseHttpResponse(js: Readers, response: Bytes): Outcome {
    var read := OnChunk(js, INITIAL, response);
    if read.Threw? then read else StreamEnded(read.st)
  }
}
