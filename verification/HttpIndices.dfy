/**
 What the indices recorded by the parser mean: in every state reachable by
 `onChunk` calls they name exact places of the bytes received so far.
 */
module HttpIndices {
  import opened ByteData
  import opened HttpResponse
  import opened HttpSplit
  import opened HttpHeaders

  /** The bytes that a slice names. */
  function Cut(input: Bytes, slice: Slice): Bytes {
    if slice.fromIndex <= slice.toIndex <= |input| then input[slice.fromIndex..slice.toIndex] else []
  }

  /** The bytes that a list of slices names, one after the other. */
  function Pick(input: Bytes, slices: seq<Slice>): Bytes {
    if slices == [] then []
    else Pick(input, slices[..|slices| - 1]) + Cut(input, slices[|slices| - 1])
  }

  /** All slices lie in the first `n` bytes. */
  predicate Within(slices: seq<Slice>, n: nat) {
    forall i :: 0 <= i < |slices| ==> slices[i].fromIndex <= slices[i].toIndex <= n
  }

  /** Non-empty slices in rising order behind `start`, with bytes between any two. */
  predicate ChunksOrdered(start: int, chunks: seq<Slice>) {
    && (forall i :: 0 <= i < |chunks| ==> start < chunks[i].fromIndex < chunks[i].toIndex)
    && (forall i :: 0 <= i < |chunks| - 1 ==> chunks[i].toIndex < chunks[i + 1].fromIndex)
  }

  /** The bytes of the chunks of which the last `due` bytes have not arrived. */
  function Arrived(input: Bytes, chunks: seq<Slice>, due: nat): Bytes
    requires chunks != [] && due <= chunks[|chunks| - 1].toIndex
  {
    var n := |chunks| - 1;
    Pick(input, chunks[..n]) + Cut(input, Slice(chunks[n].fromIndex, chunks[n].toIndex - due))
  }

  /** The cursor splits the input into what was consumed and what remains. */
  predicate CursorMeaning(input: Bytes, st: State) {
    st.currentByteIdx <= |input| && st.remaining == input[st.currentByteIdx..]
  }

  /** A header's index names the line that says it, between two CRLFs. */
  ghost predicate HeaderIndexMeaning(input: Bytes, st: State, name: Bytes)
    requires name in st.headers && name in st.headerIndices
  {
    var at := st.headerIndices[name];
    && 2 <= at.fromIndex <= at.toIndex <= st.currentByteIdx - 2
    && CrlfAt(input, at.fromIndex - 2)
    && CrlfAt(input, at.toIndex)
    && Spells(input[at.fromIndex..at.toIndex], name, st.headers[name])
    && st.statusLineEndIndex.Some? && st.statusLineEndIndex.value + 2 <= at.fromIndex
  }

  ghost predicate HeadMeaning(input: Bytes, st: State) {
    && (st.statusLineEndIndex.Some? ==>
          st.statusLineEndIndex.value + 2 <= st.currentByteIdx
          && CrlfAt(input, st.statusLineEndIndex.value))
    && (st.statusCode != 0 ==> st.statusLineEndIndex.Some? && st.statusLineEndIndex.value > 0)
    && (st.statusCode == 0 ==> st.headers == map[])
    && (st.statusCode != 0 && !st.headersComplete ==> CrlfAt(input, st.currentByteIdx - 2))
    && st.headerIndices.Keys == st.headers.Keys
    && (forall name :: name in st.headers ==> HeaderIndexMeaning(input, st, name))
    && (st.headersComplete ==>
          && st.statusCode != 0 && st.statusLineEndIndex.value <= st.headerEndIdx
          && 0 <= st.headerEndIdx <= st.currentByteIdx - 4
          && CrlfAt(input, st.headerEndIdx)
          && CrlfAt(input, st.headerEndIdx + 2)
          && forall name :: name in st.headers ==> st.headerIndices[name].toIndex <= st.headerEndIdx)
  }

  predicate ChunkedMeaning(input: Bytes, st: State, chunks: seq<Slice>) {
    && ChunkedPlaces(st, chunks)
    && (chunks != [] ==> st.body == Arrived(input, chunks, st.remainingBodyBytes))
  }

  /** Where the chunks are, and how much of the last one is still due. */
  predicate ChunkedPlaces(st: State, chunks: seq<Slice>) {
    && ChunksOrdered(st.headerEndIdx + 4, chunks)
    && st.remainingBodyBytes >= 0
    && (chunks == [] ==> st.body == [] && st.bodyStartIndex == None && st.remainingBodyBytes == 0)
    && (chunks != [] ==>
          var last := chunks[|chunks| - 1];
          && st.bodyStartIndex == Some(chunks[0].fromIndex)
          && last.fromIndex <= last.toIndex - st.remainingBodyBytes <= st.currentByteIdx
          && (st.remainingBodyBytes > 0 ==> last.toIndex == st.currentByteIdx + st.remainingBodyBytes)
          && Within(chunks[..|chunks| - 1], st.currentByteIdx))
  }

  predicate PlainBodyMeaning(js: Readers, input: Bytes, st: State) {
    var start := st.headerEndIdx + 4;
    && 0 <= start <= start + |st.body| == st.currentByteIdx <= |input|
    && st.body == input[start..st.currentByteIdx]
    && (st.bodyStartIndex.Some? ==> st.bodyStartIndex.value == start)
    && (st.bodyStartIndex.None? ==> st.body == [])
    && (if st.remainingBodyBytes == -1 then DeclaredLength(js, st) == -1
        else |st.body| + st.remainingBodyBytes == DeclaredLength(js, st))
  }

  predicate BodyMeaning(js: Readers, input: Bytes, st: State) {
    && (!st.headersComplete ==>
          !st.isChunked && st.chunks == None && st.body == [] && st.bodyStartIndex == None
          && st.remainingBodyBytes == 0)
    && (st.headersComplete && st.isChunked ==>
          st.chunks.Some? && ChunkedMeaning(input, st, st.chunks.value))
    && (st.headersComplete && !st.isChunked ==> st.chunks == None && PlainBodyMeaning(js, input, st))
  }

  /** Everything the state says about the input. */
  ghost predicate Meaning(js: Readers, input: Bytes, st: State) {
    CursorMeaning(input, st) && HeadMeaning(input, st) && BodyMeaning(js, input, st)
  }

  // ----- more input -----

  lemma {:induction false} PickLonger(input: Bytes, data: Bytes, slices: seq<Slice>)
    requires Within(slices, |input|)
    ensures Pick(input + data, slices) == Pick(input, slices)
  {
    if slices != [] {
      var n := |slices| - 1;
      PickLonger(input, data, slices[..n]);
      assert Cut(input + data, slices[n]) == Cut(input, slices[n]);
    }
  }

  lemma ArrivedLonger(input: Bytes, data: Bytes, chunks: seq<Slice>, due: nat)
    requires chunks != [] && Within(chunks[..|chunks| - 1], |input|)
    requires var last := chunks[|chunks| - 1]; last.fromIndex <= last.toIndex - due <= |input|
    ensures Arrived(input + data, chunks, due) == Arrived(input, chunks, due)
  {
    var last := chunks[|chunks| - 1];
    PickLonger(input, data, chunks[..|chunks| - 1]);
    var slice := Slice(last.fromIndex, last.toIndex - due);
    assert Cut(input + data, slice) == Cut(input, slice);
  }

  /** Header indices keep their meaning while the cursor and the input grow. */
  lemma HeaderIndicesKeep(input: Bytes, st: State, data: Bytes, r: State)
    requires st.headerIndices.Keys == st.headers.Keys
    requires forall name :: name in st.headers ==> HeaderIndexMeaning(input, st, name)
    requires r.headers == st.headers && r.headerIndices == st.headerIndices
    requires r.statusLineEndIndex == st.statusLineEndIndex || st.headers == map[]
    requires st.currentByteIdx <= r.currentByteIdx && st.currentByteIdx <= |input|
    ensures forall name :: name in r.headers ==> HeaderIndexMeaning(input + data, r, name)
  {
    forall name | name in r.headers
      ensures HeaderIndexMeaning(input + data, r, name)
    {
      HeaderIndexKeeps(input, st, data, r, name);
    }
  }

  lemma CrlfKeeps(input: Bytes, data: Bytes, i: int)
    requires CrlfAt(input, i)
    ensures CrlfAt(input + data, i)
  {
  }

  lemma HeaderIndexKeeps(input: Bytes, st: State, data: Bytes, r: State, name: Bytes)
    requires name in st.headers && name in st.headerIndices && HeaderIndexMeaning(input, st, name)
    requires r.headers == st.headers && r.headerIndices == st.headerIndices
    requires r.statusLineEndIndex == st.statusLineEndIndex
    requires st.currentByteIdx <= r.currentByteIdx && st.currentByteIdx <= |input|
    ensures HeaderIndexMeaning(input + data, r, name)
  {
    var at := st.headerIndices[name];
    SliceOfConcat(input, data, at.fromIndex, at.toIndex);
    CrlfKeeps(input, data, at.fromIndex - 2);
    CrlfKeeps(input, data, at.toIndex);
  }

  lemma PushHead(input: Bytes, st: State, data: Bytes)
    requires HeadMeaning(input, st) && st.currentByteIdx <= |input|
    ensures HeadMeaning(input + data, Push(st, data))
  {
    HeaderIndicesKeep(input, st, data, Push(st, data));
  }

  lemma PushChunked(input: Bytes, st: State, data: Bytes, chunks: seq<Slice>)
    requires ChunkedMeaning(input, st, chunks) && st.currentByteIdx <= |input|
    ensures ChunkedMeaning(input + data, Push(st, data), chunks)
  {
    if chunks != [] {
      ArrivedLonger(input, data, chunks, st.remainingBodyBytes);
    }
  }

  lemma PushBody(js: Readers, input: Bytes, st: State, data: Bytes)
    requires BodyMeaning(js, input, st) && st.currentByteIdx <= |input|
    ensures BodyMeaning(js, input + data, Push(st, data))
  {
    if st.headersComplete {
      if st.isChunked {
        PushChunked(input, st, data, st.chunks.value);
      } else {
        var start := st.headerEndIdx + 4;
        assert (input + data)[start..st.currentByteIdx] == input[start..st.currentByteIdx];
      }
    }
  }

  lemma PushMeaning(js: Readers, input: Bytes, st: State, data: Bytes)
    requires Meaning(js, input, st)
    ensures Meaning(js, input + data, Push(st, data))
  {
    PushHead(input, st, data);
    PushBody(js, input, st, data);
  }

  // ----- the head -----

  lemma DropLineMeaning(input: Bytes, st: State)
    requires CursorMeaning(input, st) && HasLine(st)
    ensures CursorMeaning(input, DropLine(st))
    ensures var next := DropLine(st);
            && next.currentByteIdx >= st.currentByteIdx + |Line(st)| + 2
            && CrlfAt(input, next.currentByteIdx - 2)
            && next.currentByteIdx - |Line(st)| - 2 == st.currentByteIdx
            && input[st.currentByteIdx..next.currentByteIdx - 2] == Line(st)
  {
    var i := LineEnd(st.remaining);
    assert CrlfAt(input, st.currentByteIdx + i);
  }

  lemma HeaderAdded(input: Bytes, before: State, st: State, line: Bytes)
    requires before.statusCode != 0 && !before.headersComplete && HeadMeaning(input, before)
    requires st == before.(remaining := st.remaining, currentByteIdx := before.currentByteIdx + |line| + 2)
    requires CrlfAt(input, st.currentByteIdx - 2)
    requires st.currentByteIdx <= |input| && input[before.currentByteIdx..st.currentByteIdx - 2] == line
    ensures HeaderIndexMeaning(input, HeaderStep(st, line), SplitHeader(line).0)
  {
    ReadSpelled(line);
  }

  lemma HeaderKept(input: Bytes, before: State, st: State, line: Bytes, name: Bytes)
    requires name in before.headers && name in before.headerIndices && HeaderIndexMeaning(input, before, name)
    requires st == before.(remaining := st.remaining, currentByteIdx := before.currentByteIdx + |line| + 2)
    requires name != SplitHeader(line).0
    ensures name in HeaderStep(st, line).headers && name in HeaderStep(st, line).headerIndices
    ensures HeaderIndexMeaning(input, HeaderStep(st, line), name)
  {
  }

  lemma HeaderStepMeaning(js: Readers, input: Bytes, before: State, st: State, line: Bytes)
    requires HeadMeaning(input, before) && BodyMeaning(js, input, before)
    requires !before.headersComplete && before.statusCode != 0
    requires st == before.(remaining := st.remaining, currentByteIdx := before.currentByteIdx + |line| + 2)
    requires CrlfAt(input, st.currentByteIdx - 2)
    requires st.currentByteIdx <= |input| && input[before.currentByteIdx..st.currentByteIdx - 2] == line
    ensures HeadMeaning(input, HeaderStep(st, line)) && BodyMeaning(js, input, HeaderStep(st, line))
  {
    var r := HeaderStep(st, line);
    HeaderAdded(input, before, st, line);
    forall name | name in r.headers
      ensures HeaderIndexMeaning(input, r, name)
    {
      if name != SplitHeader(line).0 {
        HeaderKept(input, before, st, line, name);
      }
    }
  }

  lemma StatusLineStepMeaning(js: Readers, input: Bytes, before: State, st: State, line: Bytes)
    requires HeadMeaning(input, before) && BodyMeaning(js, input, before)
    requires !before.headersComplete && before.currentByteIdx <= |input| && before.statusCode == 0
    requires st == before.(remaining := st.remaining, currentByteIdx := st.currentByteIdx)
    requires before.currentByteIdx + |line| + 2 <= st.currentByteIdx && CrlfAt(input, st.currentByteIdx - 2)
    ensures HeadMeaning(input, StatusLineStep(js, st, line)) && BodyMeaning(js, input, StatusLineStep(js, st, line))
  {
    assert input + [] == input;
    HeaderIndicesKeep(input, before, [], StatusLineStep(js, st, line));
  }

  lemma HeadersEndStepMeaning(js: Readers, input: Bytes, before: State, st: State)
    requires HeadMeaning(input, before) && BodyMeaning(js, input, before)
    requires !before.headersComplete && before.statusCode != 0
    requires st == before.(remaining := st.remaining, currentByteIdx := before.currentByteIdx + 2)
    requires st.currentByteIdx <= |input| && CrlfAt(input, st.currentByteIdx - 2)
    ensures HeadMeaning(input, HeadersEndStep(js, st)) && BodyMeaning(js, input, HeadersEndStep(js, st))
  {
    var r := HeadersEndStep(js, st);
    var hei := r.headerEndIdx;
    assert CrlfAt(input, hei) && CrlfAt(input, hei + 2);
    assert input + [] == input;
    HeaderIndicesKeep(input, before, [], r);
    forall name | name in r.headers
      ensures r.headerIndices[name].toIndex <= r.headerEndIdx
    {
      assert HeaderIndexMeaning(input, before, name);
    }
  }

  lemma HeadActionMeaning(js: Readers, input: Bytes, before: State, st: State, line: Bytes)
    requires HeadMeaning(input, before) && BodyMeaning(js, input, before) && !before.headersComplete
    requires st == before.(remaining := st.remaining, currentByteIdx := before.currentByteIdx + |line| + 2)
    requires CrlfAt(input, st.currentByteIdx - 2)
    requires st.currentByteIdx <= |input| && input[before.currentByteIdx..st.currentByteIdx - 2] == line
    ensures HeadMeaning(input, HeadAction(js, st, line)) && BodyMeaning(js, input, HeadAction(js, st, line))
  {
    if st.statusCode == 0 {
      StatusLineStepMeaning(js, input, before, st, line);
    } else if line == [] {
      HeadersEndStepMeaning(js, input, before, st);
    } else {
      HeaderStepMeaning(js, input, before, st, line);
    }
  }

  lemma HeadActionCursor(js: Readers, st: State, line: Bytes)
    requires st.currentByteIdx >= |line| + 2
    ensures HeadAction(js, st, line).currentByteIdx == st.currentByteIdx
  {
  }

  lemma HeadStepMeaning(js: Readers, input: Bytes, st: State)
    requires Meaning(js, input, st) && !st.headersComplete && HasLine(st)
    ensures Meaning(js, input, HeadStep(js, st))
  {
    DropLineMeaning(input, st);
    HeadActionMeaning(js, input, st, DropLine(st), Line(st));
    HeadActionCursor(js, DropLine(st), Line(st));
  }

  lemma {:induction false} ReadHeadMeaning(js: Readers, input: Bytes, st: State)
    requires Meaning(js, input, st)
    ensures Meaning(js, input, ReadHead(js, st))
    decreases |st.remaining|
  {
    if !st.headersComplete && HasLine(st) {
      HeadStepMeaning(js, input, st);
      ReadHeadMeaning(js, input, HeadStep(js, st));
    }
  }

  // ----- the body -----

  /** Reading on inside a body that is not chunked. */
  lemma ReadPlainBody(js: Readers, input: Bytes, st: State)
    requires CursorMeaning(input, st) && PlainBodyMeaning(js, input, st) && Plain(st) && st.headerEndIdx >= 0
    ensures CursorMeaning(input, ReadBody(st)) && PlainBodyMeaning(js, input, ReadBody(st))
  {
    var r := ReadBody(st);
    var start := st.headerEndIdx + 4;
    var n := r.currentByteIdx - st.currentByteIdx;
    TailTake(input, st.currentByteIdx, n);
    SliceJoin(input, start, st.currentByteIdx, r.currentByteIdx);
    assert DeclaredLength(js, r) == DeclaredLength(js, st);
  }

  /** A further piece of the last chunk. */
  lemma ArrivedGrows(input: Bytes, chunks: seq<Slice>, due: nat, n: nat)
    requires chunks != [] && n <= due
    requires var last := chunks[|chunks| - 1];
             last.fromIndex <= last.toIndex - due <= last.toIndex - due + n <= |input|
    ensures var from := chunks[|chunks| - 1].toIndex - due;
            Arrived(input, chunks, due - n) == Arrived(input, chunks, due) + input[from..from + n]
  {
    var last := chunks[|chunks| - 1];
    var from := last.toIndex - due;
    SliceJoin(input, last.fromIndex, from, from + n);
    Regroup(Pick(input, chunks[..|chunks| - 1]), input[last.fromIndex..from], input[from..from + n]);
  }

  lemma DuePlaces(st: State, chunks: seq<Slice>)
    requires ChunkedPlaces(st, chunks) && st.remainingBodyBytes > 0 && st.headerEndIdx >= 0
    ensures ChunkedPlaces(ReadBody(st), chunks)
  {
    var r := ReadBody(st);
    WithinLater(chunks[..|chunks| - 1], st.currentByteIdx, r.currentByteIdx);
  }

  /** What `readBody` reads of a chunk that is due. */
  lemma DueReads(input: Bytes, st: State, r: State)
    requires CursorMeaning(input, st) && st.remainingBodyBytes > 0 && r == ReadBody(st)
    ensures CursorMeaning(input, r) && 0 <= r.currentByteIdx - st.currentByteIdx <= st.remainingBodyBytes
    ensures r.body == st.body + input[st.currentByteIdx..r.currentByteIdx]
    ensures r.remainingBodyBytes == st.remainingBodyBytes - (r.currentByteIdx - st.currentByteIdx)
  {
    TailTake(input, st.currentByteIdx, r.currentByteIdx - st.currentByteIdx);
  }

  lemma ReadDueChunk(input: Bytes, st: State)
    requires CursorMeaning(input, st) && st.headersComplete && st.headerEndIdx >= 0
    requires st.isChunked && st.chunks.Some? && ChunkedMeaning(input, st, st.chunks.value)
    requires st.remainingBodyBytes > 0
    ensures CursorMeaning(input, ReadBody(st)) && ChunkedMeaning(input, ReadBody(st), st.chunks.value)
  {
    var r, chunks := ReadBody(st), st.chunks.value;
    DuePlaces(st, chunks);
    DueReads(input, st, r);
    DueArrived(input, chunks, st.currentByteIdx, r.currentByteIdx, st.remainingBodyBytes, st.body, r.body);
  }

  lemma DueArrived(input: Bytes, chunks: seq<Slice>, cur: nat, next: nat, due: nat, body: Bytes, more: Bytes)
    requires chunks != [] && cur <= next <= |input| && next - cur <= due
    requires chunks[|chunks| - 1].toIndex == cur + due && chunks[|chunks| - 1].fromIndex <= cur
    requires body == Arrived(input, chunks, due) && more == body + input[cur..next]
    ensures more == Arrived(input, chunks, due - (next - cur))
  {
    ArrivedGrows(input, chunks, due, next - cur);
  }

  lemma {:induction false} OrderedWithin(start: int, chunks: seq<Slice>, n: nat)
    requires ChunksOrdered(start, chunks)
    requires chunks != [] ==> chunks[|chunks| - 1].toIndex <= n
    ensures Within(chunks, n)
  {
    if chunks != [] {
      var m := |chunks| - 1;
      if m > 0 {
        assert chunks[m - 1].toIndex < chunks[m - 1 + 1].fromIndex;
      }
      OrderedWithin(start, chunks[..m], n);
    }
  }

  lemma ArrivedAll(input: Bytes, chunks: seq<Slice>)
    requires chunks != []
    ensures Arrived(input, chunks, 0) == Pick(input, chunks)
  {
    var last := chunks[|chunks| - 1];
    assert Slice(last.fromIndex, last.toIndex - 0) == last;
  }

  /** `r` is `st` after the first `n` bytes of a new chunk of the given size were read. */
  predicate BeganChunk(st: State, size: nat, n: nat, r: State) {
    && n <= |st.remaining|
    && r.currentByteIdx == st.currentByteIdx + n
    && r.remaining == st.remaining[n..]
    && r.body == st.body + st.remaining[..n]
    && r.remainingBodyBytes == size - n
    && st.chunks.Some?
    && r.chunks == Some(st.chunks.value + [Slice(st.currentByteIdx, st.currentByteIdx + size)])
    && r.headerEndIdx == st.headerEndIdx
    && r.bodyStartIndex == if st.bodyStartIndex in {None, Some(0)} then Some(st.currentByteIdx)
                           else st.bodyStartIndex
  }

  lemma BeginChunkReads(st: State, size: nat)
    requires st.chunks.Some? && st.remainingBodyBytes == 0 && size > 0
    ensures BeganChunk(st, size, Min(size, |st.remaining|), ReadBody(BeginChunk(st, size)))
  {
  }

  lemma BeganChunkBody(input: Bytes, st: State, size: nat, n: nat, r: State)
    requires CursorMeaning(input, st) && n <= size
    requires st.remainingBodyBytes == 0 && BeganChunk(st, size, n, r)
    requires st.body == Pick(input, st.chunks.value)
    ensures r.body == Arrived(input, r.chunks.value, size - n)
  {
    var prior, cur := st.chunks.value, st.currentByteIdx;
    assert r.chunks.value[..|r.chunks.value| - 1] == prior;
    TailTake(input, cur, n);
  }

  lemma ChunkedBody(input: Bytes, st: State, chunks: seq<Slice>)
    requires ChunkedMeaning(input, st, chunks) && st.remainingBodyBytes == 0
    ensures st.body == Pick(input, chunks)
  {
    if chunks != [] {
      ArrivedAll(input, chunks);
    }
  }

  lemma WithinLater(chunks: seq<Slice>, m: nat, n: nat)
    requires Within(chunks, m) && m <= n
    ensures Within(chunks, n)
  {
  }

  lemma OrderedSnoc(start: int, prior: seq<Slice>, c: Slice)
    requires ChunksOrdered(start, prior) && start < c.fromIndex < c.toIndex
    requires prior != [] ==> prior[|prior| - 1].toIndex < c.fromIndex
    ensures ChunksOrdered(start, prior + [c])
  {
  }

  lemma BeganChunkPlaces(st: State, size: nat, n: nat, r: State)
    requires st.chunks.Some? && ChunkedPlaces(st, st.chunks.value) && 0 <= st.headerEndIdx < st.currentByteIdx - 4
    requires st.remainingBodyBytes == 0 && n <= size && size > 0
    requires st.chunks.value != [] ==> st.chunks.value[|st.chunks.value| - 1].toIndex < st.currentByteIdx
    requires BeganChunk(st, size, n, r)
    ensures ChunkedPlaces(r, r.chunks.value)
  {
    var prior, cur := st.chunks.value, st.currentByteIdx;
    var start := st.headerEndIdx + 4;
    OrderedSnoc(start, prior, Slice(cur, cur + size));
    assert r.chunks.value[..|r.chunks.value| - 1] == prior;
    OrderedWithin(start, prior, cur);
    WithinLater(prior, cur, r.currentByteIdx);
    assert prior != [] ==> r.chunks.value[0] == prior[0];
  }

  /** The chunk that a size line announces begins at the cursor. */
  lemma BeganChunkMeaning(input: Bytes, st: State, size: nat, n: nat, r: State)
    requires CursorMeaning(input, st) && 0 <= st.headerEndIdx < st.currentByteIdx - 4
    requires st.chunks.Some? && ChunkedMeaning(input, st, st.chunks.value)
    requires st.remainingBodyBytes == 0 && n <= size && size > 0
    requires st.chunks.value != [] ==> st.chunks.value[|st.chunks.value| - 1].toIndex < st.currentByteIdx
    requires BeganChunk(st, size, n, r)
    ensures ChunkedMeaning(input, r, r.chunks.value)
  {
    BeganChunkPlaces(st, size, n, r);
    ChunkedBody(input, st, st.chunks.value);
    BeganChunkBody(input, st, size, n, r);
  }

  lemma {:induction false} ReadChunksMeaning(js: Readers, input: Bytes, st: State)
    requires InChunks(input, st) && st.remainingBodyBytes == 0
    ensures ReadChunks(js, st).Returned? ==> InChunks(input, ReadChunks(js, st).st)
    decreases |st.remaining|
  {
    if HasLine(st) {
      var line, next := Line(st), DropLine(st);
      SizeLineMeaning(input, st);
      if line == [] {
        ReadChunksMeaning(js, input, next);
      } else if js.hex(line) == 0 {
        ReadChunksMeaning(js, input, next.(complete := true));
      } else if !next.complete {
        var read := ReadBody(BeginChunk(next, js.hex(line)));
        ReadOneChunkMeaning(input, next, js.hex(line), read);
        if read.remainingBodyBytes == 0 {
          ReadChunksMeaning(js, input, read);
        }
      }
    }
  }

  predicate InChunks(input: Bytes, st: State) {
    && CursorMeaning(input, st)
    && st.headersComplete && 0 <= st.headerEndIdx <= st.currentByteIdx - 4
    && st.isChunked && st.chunks.Some?
    && ChunkedMeaning(input, st, st.chunks.value)
  }

  lemma SizeLineMeaning(input: Bytes, st: State)
    requires InChunks(input, st) && st.remainingBodyBytes == 0 && HasLine(st)
    ensures InChunks(input, DropLine(st))
    ensures st.currentByteIdx + 2 <= DropLine(st).currentByteIdx
  {
    DropLineMeaning(input, st);
  }

  lemma ReadOneChunkMeaning(input: Bytes, st: State, size: nat, r: State)
    requires InChunks(input, st) && st.headerEndIdx < st.currentByteIdx - 4
    requires st.remainingBodyBytes == 0 && size > 0
    requires st.chunks.value != [] ==> st.chunks.value[|st.chunks.value| - 1].toIndex < st.currentByteIdx
    requires r == ReadBody(BeginChunk(st, size))
    ensures InChunks(input, r) && st.currentByteIdx <= r.currentByteIdx
  {
    BeginChunkReads(st, size);
    BeganChunkMeaning(input, st, size, Min(size, |st.remaining|), r);
  }

  // ----- whole calls -----

  /** `r` comes later in the body of the same response. */
  predicate Later(st: State, r: State) {
    && st.currentByteIdx <= r.currentByteIdx
    && r.statusCode == st.statusCode && r.statusLineEndIndex == st.statusLineEndIndex
    && r.headers == st.headers && r.headerIndices == st.headerIndices
    && r.headersComplete == st.headersComplete && r.headerEndIdx == st.headerEndIdx
    && r.isChunked == st.isChunked
  }

  lemma {:induction false} ReadChunksLater(js: Readers, st: State)
    requires st.remainingBodyBytes >= -1
    ensures Later(st, ReadChunks(js, st).st)
    decreases |st.remaining|
  {
    if HasLine(st) {
      var line, next := Line(st), DropLine(st);
      if line == [] {
        ReadChunksLater(js, next);
      } else if js.hex(line) == 0 {
        ReadChunksLater(js, next.(complete := true));
      } else {
        var begun := BeginChunk(next, js.hex(line));
        if !begun.complete && ReadBody(begun).remainingBodyBytes == 0 {
          ReadChunksLater(js, ReadBody(begun));
        }
      }
    }
  }

  /** The head keeps its meaning while the body is read. */
  lemma LaterHead(input: Bytes, st: State, r: State)
    requires HeadMeaning(input, st) && st.headersComplete && Later(st, r) && r.currentByteIdx <= |input|
    ensures HeadMeaning(input, r)
  {
    assert input + [] == input;
    HeaderIndicesKeep(input, st, [], r);
  }

  predicate InPlainBody(js: Readers, input: Bytes, st: State) {
    && CursorMeaning(input, st)
    && st.headersComplete && !st.isChunked && st.chunks == None
    && PlainBodyMeaning(js, input, st)
  }

  lemma PlainRestMeaning(js: Readers, input: Bytes, st: State)
    requires InPlainBody(js, input, st) && InBody(st) && st.headerEndIdx >= 0
    ensures Later(st, MarkEmpty(ReadDue(st)))
    ensures InPlainBody(js, input, MarkEmpty(ReadDue(st)))
  {
    if st.remainingBodyBytes != 0 {
      ReadPlainBody(js, input, st);
      var r := ReadBody(st);
      assert InPlainBody(js, input, r);
      assert InPlainBody(js, input, r.(complete := true)) by {
        assert DeclaredLength(js, r.(complete := true)) == DeclaredLength(js, r);
      }
    }
    var due := ReadDue(st);
    assert DeclaredLength(js, due.(complete := true)) == DeclaredLength(js, due);
  }

  lemma ChunkedDueMeaning(js: Readers, input: Bytes, st: State)
    requires InChunks(input, st) && InBody(st)
    ensures var due := MarkEmpty(ReadDue(st));
            InChunks(input, due) && Later(st, due) && due.remainingBodyBytes >= 0
            && (due.remainingBodyBytes != 0 ==> due.remaining == [])
  {
    if st.remainingBodyBytes != 0 {
      ReadDueChunk(input, st);
    }
  }

  lemma ChunkedRestMeaning(js: Readers, input: Bytes, st: State)
    requires InChunks(input, st) && InBody(st)
    ensures var o := ReadRest(js, st); Later(st, o.st) && (o.Returned? ==> InChunks(input, o.st))
  {
    ChunkedDueMeaning(js, input, st);
    ChunksMeaning(js, input, MarkEmpty(ReadDue(st)));
  }

  lemma ChunksMeaning(js: Readers, input: Bytes, due: State)
    requires InChunks(input, due) && due.remainingBodyBytes >= 0
    requires due.remainingBodyBytes != 0 ==> due.remaining == []
    ensures var o := ReadChunks(js, due); Later(due, o.st) && (o.Returned? ==> InChunks(input, o.st))
  {
    ReadChunksLater(js, due);
    if due.remainingBodyBytes == 0 {
      ReadChunksMeaning(js, input, due);
    } else {
      assert !HasLine(due);
    }
  }

  lemma ReadRestMeaning(js: Readers, input: Bytes, st: State)
    requires Meaning(js, input, st) && InBody(st) && ReadRest(js, st).Returned?
    ensures Meaning(js, input, ReadRest(js, st).st)
  {
    if st.isChunked {
      ChunkedRestMeaning(js, input, st);
    } else {
      PlainRestMeaning(js, input, st);
    }
    LaterHead(input, st, ReadRest(js, st).st);
  }

  lemma OnChunkMeaning(js: Readers, input: Bytes, st: State, data: Bytes)
    requires Meaning(js, input, st) && Settled(js, st) && OnChunk(js, st, data).Returned?
    ensures Meaning(js, input + data, OnChunk(js, st, data).st)
  {
    PushMeaning(js, input, st, data);
    ReadHeadMeaning(js, input + data, Push(st, data));
    ReadHeadSettles(js, Push(st, data));
    var head := ReadHead(js, Push(st, data));
    if head.headersComplete {
      ReadRestMeaning(js, input + data, head);
    }
  }

  /** One call on a fresh parser. */
  lemma FirstCallMeaning(js: Readers, response: Bytes, o: Outcome)
    requires o == OnChunk(js, INITIAL, response) && o.Returned?
    ensures Meaning(js, response, o.st) && Settled(js, o.st)
  {
    assert Meaning(js, [], INITIAL);
    OnChunkMeaning(js, [], INITIAL, response);
    OnChunkSettles(js, INITIAL, response);
    assert [] + response == response;
  }

  /** In every reachable state the recorded indices mean what their names say. */
  lemma ReachableMeaning(js: Readers, pieces: seq<Bytes>)
    requires Feed(js, INITIAL, pieces).Returned?
    ensures Meaning(js, Concat(pieces), Feed(js, INITIAL, pieces).st)
  {
    SplitInvariance(js, pieces);
    FirstCallMeaning(js, Concat(pieces), Feed(js, INITIAL, pieces));
  }

  lemma SeparatorBytes(input: Bytes, i: int)
    requires CrlfAt(input, i) && CrlfAt(input, i + 2)
    ensures input[i..i + 4] == CRLF + CRLF
  {
  }

  lemma EndedChunked(input: Bytes, st: State, chunks: seq<Slice>)
    requires CursorMeaning(input, st) && ChunkedMeaning(input, st, chunks)
    requires st.remaining == [] && st.remainingBodyBytes == 0
    ensures Within(chunks, |input|) && st.body == Pick(input, chunks)
  {
    ChunkedBody(input, st, chunks);
    OrderedWithin(st.headerEndIdx + 4, chunks, |input|);
  }

  lemma EndedPlain(js: Readers, input: Bytes, st: State)
    requires CursorMeaning(input, st) && PlainBodyMeaning(js, input, st) && st.remaining == []
    requires -1 <= st.remainingBodyBytes <= 0
    ensures 0 <= st.headerEndIdx + 4 <= |input| && st.body == input[st.headerEndIdx + 4..]
    ensures DeclaredLength(js, st) >= 0 ==> |st.body| == DeclaredLength(js, st)
  {
  }

  /** What a response that was parsed to its end says about its bytes. */
  predicate ParsedMeaning(js: Readers, response: Bytes, res: State) {
    && 0 <= res.headerEndIdx <= |response| - 4
    && response[res.headerEndIdx..res.headerEndIdx + 4] == CRLF + CRLF
    && (res.chunks.Some? ==>
          && ChunksOrdered(res.headerEndIdx + 4, res.chunks.value)
          && Within(res.chunks.value, |response|)
          && res.body == Pick(response, res.chunks.value)
          && (res.chunks.value != [] ==> res.bodyStartIndex == Some(res.chunks.value[0].fromIndex))
          && (res.chunks.value == [] ==> res.bodyStartIndex == None))
    && (res.chunks.None? ==>
          && res.body == response[res.headerEndIdx + 4..]
          && (res.bodyStartIndex.Some? ==> res.bodyStartIndex.value == res.headerEndIdx + 4)
          && (DeclaredLength(js, res) >= 0 ==> |res.body| == DeclaredLength(js, res)))
  }

  lemma EndedResponse(js: Readers, response: Bytes, st: State)
    requires Meaning(js, response, st) && Settled(js, st) && StreamMayEnd(st)
    ensures ParsedMeaning(js, response, st)
  {
    SeparatorBytes(response, st.headerEndIdx);
    if st.isChunked {
      EndedChunked(response, st, st.chunks.value);
    } else {
      EndedPlain(js, response, st);
    }
  }

  /** What its head says. */
  lemma ParsedHead(js: Readers, response: Bytes, res: State)
    requires ParseHttpResponse(js, response) == Returned(res)
    ensures res.headersComplete && HeadMeaning(response, res)
  {
    var o := OnChunk(js, INITIAL, response);
    FirstCallMeaning(js, response, o);
    LaterHead(response, o.st, res);
  }

  /**
   The body of a response parsed to its end is exactly the chunks, or exactly the
   run behind the blank line, and that run has the declared length.
   */
  lemma ParsedResponse(js: Readers, response: Bytes, res: State)
    requires ParseHttpResponse(js, response) == Returned(res)
    ensures res.complete && ParsedMeaning(js, response, res)
  {
    var o := OnChunk(js, INITIAL, response);
    FirstCallMeaning(js, response, o);
    EndedResponse(js, response, o.st);
    assert DeclaredLength(js, res) == DeclaredLength(js, o.st);
  }
}
