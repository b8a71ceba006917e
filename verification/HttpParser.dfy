/**
 The parser object that `makeHttpResponseParser` returns: its fields, its loops,
 and the proof that each call does what `HttpResponse` says.
 */
module HttpParser {
  import opened ByteData
  import Spec = HttpResponse

  /** `findIndexInUint8Array`: the first place where the needle stands, or -1. */
  method FindIndex(haystack: Bytes, needle: Bytes) returns (index: int)
    ensures index == -1 ==> forall i :: !Spec.OccursAt(haystack, needle, i)
    ensures index != -1 ==> Spec.OccursAt(haystack, needle, index)
    ensures forall i :: Spec.OccursAt(haystack, needle, i) ==> 0 <= index <= i
  {
    for i := 0 to |haystack|
      invariant forall j :: j < i ==> !Spec.OccursAt(haystack, needle, j)
    {
      if i + |needle| <= |haystack| && haystack[i..i + |needle|] == needle {
        return i;
      }
    }
    return -1;
  }

  lemma CrlfOccurs(s: Bytes)
    ensures forall i :: Spec.OccursAt(s, CRLF, i) == Spec.CrlfAt(s, i)
  {
    forall i
      ensures Spec.OccursAt(s, CRLF, i) == Spec.CrlfAt(s, i)
    {
      if 0 <= i < |s| - 1 {
        assert s[i..i + 2] == [s[i], s[i + 1]];
      }
    }
  }

  lemma SameDeclared(js: Spec.Readers, st: Spec.State, t: Spec.State)
    requires t.headers == st.headers
    ensures Spec.DeclaredChunked(t) == Spec.DeclaredChunked(st) && Spec.DeclaredLength(js, t) == Spec.DeclaredLength(js, st)
  {
  }

  class Parser {
    const js: Spec.Readers

    // the response
    var statusCode: nat
    var statusMessage: Option<Bytes>
    var statusLineEndIndex: Option<nat>
    var headers: map<Bytes, Option<Bytes>>
    var headerIndices: map<Bytes, Slice>
    var headersComplete: bool
    var headerEndIdx: int
    var bodyStartIndex: Option<nat>
    var chunks: Option<seq<Slice>>
    var body: Bytes
    var complete: bool

    // the variables the parser closes over
    var remainingBodyBytes: int
    var isChunked: bool
    var remaining: Bytes
    var currentByteIdx: nat

    /** The value of all fields together. */
    function Value(): Spec.State
      reads this
    {
      Spec.State(statusCode, statusMessage, statusLineEndIndex, headers, headerIndices, headersComplete,
                 headerEndIdx, bodyStartIndex, chunks, body, complete, remainingBodyBytes, isChunked,
                 remaining, currentByteIdx)
    }

    /** What holds between calls, whatever was received. */
    ghost predicate Valid()
      reads this
    {
      remainingBodyBytes >= -1 && (complete ==> headersComplete)
    }

    constructor (js: Spec.Readers)
      ensures Valid() && Value() == Spec.INITIAL && this.js == js
    {
      this.js := js;
      statusCode, statusMessage, statusLineEndIndex := 0, None, None;
      headers, headerIndices := map[], map[];
      headersComplete, headerEndIdx := false, 0;
      bodyStartIndex, chunks, body, complete := None, None, [], false;
      remainingBodyBytes, isChunked, remaining, currentByteIdx := 0, false, [], 0;
    }

    method GetLine() returns (line: Option<Bytes>)
      modifies `remaining, `currentByteIdx
      ensures line.Some? <==> old(Spec.HasLine(Value()))
      ensures line.None? ==> Value() == old(Value())
      ensures line.Some? ==> line.value == old(Spec.Line(Value())) && Value() == old(Spec.DropLine(Value()))
    {
      var index := FindIndex(remaining, CRLF);
      CrlfOccurs(remaining);
      if index == -1 {
        return None;
      }
      assert index == Spec.LineEnd(remaining) by {
        assert Spec.CrlfAt(remaining, index);
      }
      line := Some(remaining[..index]);
      remaining := remaining[index + 2..];
      currentByteIdx := currentByteIdx + index + 2;
    }

    /** Throws, leaving everything as it is, when the response is already complete. */
    method ReadBody() returns (threw: bool)
      requires Valid()
      modifies `bodyStartIndex, `remainingBodyBytes, `body, `remaining, `currentByteIdx
      ensures Valid() && threw == old(complete)
      ensures Value() == if threw then old(Value()) else old(Spec.ReadBody(Value()))
    {
      if complete {
        return true;
      }
      if bodyStartIndex in {None, Some(0)} {
        bodyStartIndex := Some(currentByteIdx);
      }
      var bytesToCopy;
      if remainingBodyBytes == -1 {
        bytesToCopy := |remaining|;
      } else {
        bytesToCopy := Min(remainingBodyBytes, |remaining|);
        remainingBodyBytes := remainingBodyBytes - bytesToCopy;
      }
      body := body + remaining[..bytesToCopy];
      remaining := remaining[bytesToCopy..];
      currentByteIdx := currentByteIdx + bytesToCopy;
      return false;
    }

    method TakeStatusLine(line: Bytes)
      requires currentByteIdx >= 2
      modifies `statusCode, `statusMessage, `statusLineEndIndex
      ensures Value() == old(Spec.StatusLineStep(js, Value(), line))
    {
      match js.statusLine(line) {
        case Some((code, message)) =>
          statusCode, statusMessage := code, Some(message);
        case None =>
          statusCode, statusMessage := 0, None;
      }
      statusLineEndIndex := Some(currentByteIdx - 2);
    }

    method EndHeaders()
      requires Valid()
      modifies `headersComplete, `headerEndIdx, `isChunked, `chunks, `remainingBodyBytes
      ensures Valid() && Value() == old(Spec.HeadersEndStep(js, Value()))
    {
      ghost var before := Value();
      headersComplete := true;
      headerEndIdx := currentByteIdx - 4;
      ghost var ended := Value();
      assert ended == before.(headersComplete := true, headerEndIdx := before.currentByteIdx - 4);
      SameDeclared(js, before, ended);
      AnnounceBody();
    }

    /** What the headers say of the body. */
    method AnnounceBody()
      requires Valid() && headersComplete
      modifies `isChunked, `chunks, `remainingBodyBytes
      ensures Valid()
      ensures Value() == old(if Spec.DeclaredChunked(Value()) then Value().(isChunked := true, chunks := Some([]))
                             else Value().(remainingBodyBytes := Spec.DeclaredLength(js, Value())))
    {
      if Spec.DeclaredChunked(Value()) {
        isChunked := true;
        chunks := Some([]);
      } else {
        remainingBodyBytes := Spec.DeclaredLength(js, Value());
      }
    }

    method TakeHeader(line: Bytes)
      requires currentByteIdx >= |line| + 2
      modifies `headers, `headerIndices
      ensures Value() == old(Spec.HeaderStep(Value(), line))
    {
      var (key, value) := Spec.SplitHeader(line);
      headers := headers[key := value];
      headerIndices := headerIndices[key := Slice(currentByteIdx - |line| - 2, currentByteIdx - 2)];
    }

    /** What the header loop does with a line. */
    method TakeHeadLine(line: Bytes)
      requires Valid() && !headersComplete && currentByteIdx >= |line| + 2
      modifies this
      ensures Valid() && Value() == old(Spec.HeadAction(js, Value(), line))
    {
      if statusCode == 0 {
        TakeStatusLine(line);
      } else if line == [] {
        EndHeaders();
      } else if !complete {
        TakeHeader(line);
      } else {
        assert false;  // a complete response has complete headers
      }
    }

    /** The header loop of `onChunk`. */
    method ReadHead()
      requires Valid() && !headersComplete
      modifies this
      ensures Valid() && Value() == old(Spec.ReadHead(js, Value()))
    {
      ghost var start, at := Value(), Value();
      var line := GetLine();
      while line.Some?
        invariant Valid() && !headersComplete && !at.headersComplete
        invariant Spec.ReadHead(js, at) == Spec.ReadHead(js, start)
        invariant line.Some? == Spec.HasLine(at)
        invariant line.None? ==> Value() == at
        invariant line.Some? ==> Spec.Line(at) == line.value && Value() == Spec.DropLine(at)
        decreases |at.remaining|
      {
        TakeHeadLine(line.value);
        assert Value() == Spec.HeadStep(js, at);
        at := Value();
        if headersComplete {
          break;
        }
        line := GetLine();
      }
    }

    /** What the chunk loop does with a line that is not empty. */
    method TakeSizeLine(line: Bytes) returns (threw: bool)
      requires Valid() && headersComplete
      modifies this
      ensures Valid() && headersComplete
      ensures Value() == old(
                if js.hex(line) == 0 then Value().(complete := true)
                else if complete then Spec.BeginChunk(Value(), js.hex(line))
                else Spec.ReadBody(Spec.BeginChunk(Value(), js.hex(line))))
      ensures threw == (js.hex(line) != 0 && old(complete))
    {
      var chunkSize := js.hex(line);
      if chunkSize == 0 {
        complete := true;
        return false;
      }
      ghost var before := Value();
      if chunks.Some? {
        chunks := Some(chunks.value + [Slice(currentByteIdx, currentByteIdx + chunkSize)]);
      }
      remainingBodyBytes := chunkSize;
      assert Value() == Spec.BeginChunk(before, chunkSize);
      threw := ReadBody();
    }

    /** The chunk loop of `onChunk`. */
    method ReadChunks() returns (threw: bool)
      requires Valid() && headersComplete
      modifies this
      ensures Valid() && headersComplete
      ensures old(Spec.ReadChunks(js, Value())) == if threw then Spec.Threw(Value()) else Spec.Returned(Value())
    {
      ghost var start, at := Value(), Value();
      var line := GetLine();
      while line.Some?
        invariant Valid() && headersComplete
        invariant Spec.ReadChunks(js, at) == Spec.ReadChunks(js, start)
        invariant line.Some? == Spec.HasLine(at)
        invariant line.None? ==> Value() == at
        invariant line.Some? ==> Spec.Line(at) == line.value && Value() == Spec.DropLine(at)
        decreases |at.remaining|
      {
        if line.value != [] {
          ghost var next := Value();
          threw := TakeSizeLine(line.value);
          if threw {
            return;
          }
          if js.hex(line.value) != 0 && remainingBodyBytes != 0 {
            return false;
          }
        }
        at := Value();
        line := GetLine();
      }
      return false;
    }

    /** The part of `onChunk` that runs once the headers are complete. */
    method ReadRest() returns (threw: bool)
      requires Valid() && headersComplete
      modifies this
      ensures Valid()
      ensures old(Spec.ReadRest(js, Value())) == if threw then Spec.Threw(Value()) else Spec.Returned(Value())
    {
      ghost var head := Value();
      if remainingBodyBytes != 0 {
        threw := ReadBody();
        if threw {
          return;
        }
        if remainingBodyBytes == 0 && !isChunked {
          complete := true;
        }
      }
      assert Value() == Spec.ReadDue(head);
      if Spec.Header(Value(), Spec.CONTENT_LENGTH) == Some(Spec.ZERO_TEXT) {
        complete := true;
      }
      assert Value() == Spec.MarkEmpty(Spec.ReadDue(head));
      if isChunked {
        threw := ReadChunks();
        return;
      }
      return false;
    }

    /** Parses the next piece of the response. */
    method OnChunk(data: Bytes) returns (threw: bool)
      requires Valid()
      modifies this
      ensures Valid()
      ensures old(Spec.OnChunk(js, Value(), data)) == if threw then Spec.Threw(Value()) else Spec.Returned(Value())
    {
      ghost var start := Value();
      remaining := remaining + data;
      assert Value() == Spec.Push(start, data);
      if !headersComplete {
        ReadHead();
      }
      assert Value() == Spec.ReadHead(js, Spec.Push(start, data));
      if headersComplete {
        threw := ReadRest();
        return;
      }
      return false;
    }

    method StreamEnded() returns (threw: bool)
      requires Valid()
      modifies `complete
      ensures Valid()
      ensures old(Spec.StreamEnded(Value())) == if threw then Spec.Threw(Value()) else Spec.Returned(Value())
    {
      if !headersComplete {
        return true;
      }
      if |remaining| > 0 {
        return true;
      }
      if remainingBodyBytes > 0 {
        return true;
      }
      complete := true;
      return false;
    }
  }
}
