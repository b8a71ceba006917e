/**
 Positions of the body in the bytes on the wire: what a range of body bytes covers
 there when the body came in chunks, and which bytes in between are chunk headers.
 */
module ChunkMap {
  import opened ByteData
  import opened HttpIndices
  import opened HttpResponse

  function Size(chunk: Slice): nat
    requires chunk.fromIndex <= chunk.toIndex
  {
    chunk.toIndex - chunk.fromIndex
  }

  predicate Proper(chunks: seq<Slice>) {
    forall i :: 0 <= i < |chunks| ==> chunks[i].fromIndex <= chunks[i].toIndex
  }

  /** The number of body bytes before chunk `i`. */
  function BodyBefore(chunks: seq<Slice>, i: nat): nat
    requires i <= |chunks| && Proper(chunks)
  {
    if i == 0 then 0 else BodyBefore(chunks, i - 1) + Size(chunks[i - 1])
  }

  /** The first chunk, from `i` on, that contains the body position or ends there. */
  function ChunkAt(pos: nat, chunks: seq<Slice>, i: nat): (c: nat)
    requires i <= |chunks| && Proper(chunks)
    ensures i <= c <= |chunks|
    ensures c < |chunks| ==> BodyBefore(chunks, c) <= pos <= BodyBefore(chunks, c) + Size(chunks[c])
    decreases |chunks| - i
  {
    if i == |chunks| || BodyBefore(chunks, i) <= pos <= BodyBefore(chunks, i) + Size(chunks[i]) then i
    else ChunkAt(pos, chunks, i + 1)
  }

  /** The absolute position of a body position; none when the chunks end before it. */
  function AbsolutePos(pos: nat, bodyStart: nat, chunks: Option<seq<Slice>>): Option<nat>
    requires chunks.Some? ==> Proper(chunks.value)
  {
    if chunks.None? || chunks.value == [] then Some(bodyStart + pos)
    else
      var c := ChunkAt(pos, chunks.value, 0);
      if c == |chunks.value| then None
      else Some(pos - BodyBefore(chunks.value, c) + chunks.value[c].fromIndex)
  }

  /** `convertResponsePosToAbsolutePos`. */
  method ConvertResponsePos(pos: nat, bodyStart: nat, chunks: Option<seq<Slice>>) returns (absolute: Option<nat>)
    requires chunks.Some? ==> Proper(chunks.value)
    ensures absolute == AbsolutePos(pos, bodyStart, chunks)
  {
    if chunks.Some? && chunks.value != [] {
      var chunkBodyStart := 0;
      for i := 0 to |chunks.value|
        invariant chunkBodyStart == BodyBefore(chunks.value, i)
        invariant ChunkAt(pos, chunks.value, i) == ChunkAt(pos, chunks.value, 0)
      {
        var chunk := chunks.value[i];
        var chunkSize := chunk.toIndex - chunk.fromIndex;
        if chunkBodyStart <= pos <= chunkBodyStart + chunkSize {
          return Some(pos - chunkBodyStart + chunk.fromIndex);
        }
        chunkBodyStart := chunkBodyStart + chunkSize;
      }
      return None;
    }
    return Some(bodyStart + pos);
  }

  /** The stretches between chunks, up to chunk `n`, that a wire range reaches across. */
  function HeadersBetween(from: nat, until: nat, chunks: seq<Slice>, n: nat): seq<Slice>
    requires n <= |chunks|
  {
    if n <= 1 then []
    else
      var chunk := chunks[n - 1];
      HeadersBetween(from, until, chunks, n - 1)
      + if from < chunk.fromIndex < until then [Slice(chunks[n - 2].toIndex, chunk.fromIndex)] else []
  }

  function ChunkHeaders(from: nat, until: nat, chunks: Option<seq<Slice>>): seq<Slice> {
    if chunks.None? then [] else HeadersBetween(from, until, chunks.value, |chunks.value|)
  }

  /** `getRedactionsForChunkHeaders`. */
  method GetRedactionsForChunkHeaders(from: nat, until: nat, chunks: Option<seq<Slice>>) returns (res: seq<Slice>)
    ensures res == ChunkHeaders(from, until, chunks)
  {
    res := [];
    if chunks.None? || chunks.value == [] {
      return;
    }
    for i := 1 to |chunks.value|
      invariant res == HeadersBetween(from, until, chunks.value, i)
    {
      var chunk := chunks.value[i];
      if from < chunk.fromIndex < until {
        res := res + [Slice(chunks.value[i - 1].toIndex, chunk.fromIndex)];
      }
    }
  }

  // ----- exactness -----

  function Joined(parts: seq<Bytes>, n: nat): Bytes
    requires n <= |parts|
  {
    if n == 0 then [] else Joined(parts, n - 1) + parts[n - 1]
  }

  /** What the parts from `m` to `n` add. */
  lemma {:induction false} JoinedGrows(parts: seq<Bytes>, m: nat, n: nat) returns (rest: Bytes)
    requires m <= n <= |parts|
    ensures Joined(parts, n) == Joined(parts, m) + rest
    decreases n
  {
    if m == n {
      rest := [];
      NothingMore(Joined(parts, m));
    } else {
      var less := JoinedGrows(parts, m, n - 1);
      rest := less + parts[n - 1];
      Regroup(Joined(parts, m), less, parts[n - 1]);
    }
  }

  function Cuts(input: Bytes, chunks: seq<Slice>): (parts: seq<Bytes>)
    ensures |parts| == |chunks|
  {
    seq(|chunks|, k requires 0 <= k < |chunks| => Cut(input, chunks[k]))
  }

  /** The body that the first `n` chunks carry. */
  function BodyTo(input: Bytes, chunks: seq<Slice>, n: nat): Bytes
    requires n <= |chunks|
  {
    Joined(Cuts(input, chunks), n)
  }

  lemma {:induction false} BodyToIsPick(input: Bytes, chunks: seq<Slice>, n: nat)
    requires n <= |chunks|
    ensures BodyTo(input, chunks, n) == Pick(input, chunks[..n])
  {
    if n > 0 {
      BodyToIsPick(input, chunks, n - 1);
      assert chunks[..n][..n - 1] == chunks[..n - 1];
    }
  }

  lemma {:induction false} BodyToSize(input: Bytes, chunks: seq<Slice>, n: nat)
    requires n <= |chunks| && Within(chunks, |input|)
    ensures |BodyTo(input, chunks, n)| == BodyBefore(chunks, n)
  {
    if n > 0 {
      BodyToSize(input, chunks, n - 1);
      assert |Cut(input, chunks[n - 1])| == Size(chunks[n - 1]);
    }
  }

  predicate Inside(slices: seq<Slice>, p: int) {
    exists k :: 0 <= k < |slices| && slices[k].fromIndex <= p < slices[k].toIndex
  }

  /** The bytes of a wire range, without those inside the given slices. */
  function Without(input: Bytes, from: nat, until: nat, slices: seq<Slice>): Bytes
    requires until <= |input|
    decreases until
  {
    if until <= from then []
    else Without(input, from, until - 1, slices) + if Inside(slices, until - 1) then [] else [input[until - 1]]
  }

  /** The bytes of a wire range that lie inside the given slices. */
  function Chosen(input: Bytes, from: nat, until: nat, slices: seq<Slice>): Bytes
    requires until <= |input|
    decreases until
  {
    if until <= from then []
    else Chosen(input, from, until - 1, slices) + if Inside(slices, until - 1) then [input[until - 1]] else []
  }

  lemma {:induction false} WithinSplit(input: Bytes, from: nat, mid: nat, until: nat, slices: seq<Slice>)
    requires from <= mid <= until <= |input|
    ensures Chosen(input, from, until, slices) == Chosen(input, from, mid, slices) + Chosen(input, mid, until, slices)
    decreases until
  {
    if mid < until {
      WithinSplit(input, from, mid, until - 1, slices);
    }
  }

  lemma {:induction false} AllWithin(input: Bytes, from: nat, until: nat, slices: seq<Slice>)
    requires from <= until <= |input| && forall p :: from <= p < until ==> Inside(slices, p)
    ensures Chosen(input, from, until, slices) == input[from..until]
    decreases until
  {
    if from < until {
      AllWithin(input, from, until - 1, slices);
      assert Inside(slices, until - 1);
    }
  }

  lemma {:induction false} NoneWithin(input: Bytes, from: nat, until: nat, slices: seq<Slice>)
    requires from <= until <= |input| && forall p :: from <= p < until ==> !Inside(slices, p)
    ensures Chosen(input, from, until, slices) == []
    decreases until
  {
    if from < until {
      NoneWithin(input, from, until - 1, slices);
    }
  }

  lemma ChunksRise(start: int, chunks: seq<Slice>, i: nat, j: nat)
    requires ChunksOrdered(start, chunks) && i < j < |chunks|
    ensures chunks[i].toIndex < chunks[j].fromIndex
    decreases j
  {
    if i + 1 < j {
      ChunksRise(start, chunks, i, j - 1);
      assert chunks[j - 1].toIndex < chunks[j - 1 + 1].fromIndex;
    }
  }

  lemma BetweenChunks(start: int, chunks: seq<Slice>, i: nat, p: int)
    requires ChunksOrdered(start, chunks) && i < |chunks| && p < chunks[i].fromIndex
    requires i > 0 ==> chunks[i - 1].toIndex <= p
    ensures !Inside(chunks, p)
  {
    forall k | 0 <= k < |chunks|
      ensures !(chunks[k].fromIndex <= p < chunks[k].toIndex)
    {
      if k + 1 < i {
        ChunksRise(start, chunks, k, i - 1);
      } else if i < k {
        ChunksRise(start, chunks, i, k);
      }
    }
  }

  lemma ChosenStep(input: Bytes, chunks: seq<Slice>, gap: nat, at: nat, x: nat)
    requires gap <= at && at + x <= |input|
    requires forall p :: gap <= p < at ==> !Inside(chunks, p)
    requires forall p :: at <= p < at + x ==> Inside(chunks, p)
    ensures Chosen(input, 0, at + x, chunks) == Chosen(input, 0, gap, chunks) + input[at..at + x]
  {
    NoneWithin(input, gap, at, chunks);
    AllWithin(input, at, at + x, chunks);
    WithinSplit(input, 0, gap, at, chunks);
    WithinSplit(input, 0, at, at + x, chunks);
  }

  /** Before a place `x` bytes into chunk `i`, the wire carries as much of the body. */
  lemma {:induction false} BodyUpTo(input: Bytes, start: int, chunks: seq<Slice>, i: nat, x: nat)
    requires ChunksOrdered(start, chunks) && Within(chunks, |input|)
    requires i < |chunks| && x <= Size(chunks[i])
    ensures var at := chunks[i].fromIndex;
            Chosen(input, 0, at + x, chunks) == BodyTo(input, chunks, i) + input[at..at + x]
    decreases i
  {
    ChosenInChunk(input, start, chunks, i, x);
    if i > 0 {
      BodyUpTo(input, start, chunks, i - 1, Size(chunks[i - 1]));
      assert input[chunks[i - 1].fromIndex..chunks[i - 1].toIndex] == Cut(input, chunks[i - 1]);
    }
  }

  /** From the end of the chunk before on, the wire carries what of this chunk stands before the place. */
  lemma ChosenInChunk(input: Bytes, start: int, chunks: seq<Slice>, i: nat, x: nat)
    requires ChunksOrdered(start, chunks) && Within(chunks, |input|)
    requires i < |chunks| && x <= Size(chunks[i])
    ensures var at, gap := chunks[i].fromIndex, if i == 0 then 0 else chunks[i - 1].toIndex;
            Chosen(input, 0, at + x, chunks) == Chosen(input, 0, gap, chunks) + input[at..at + x]
  {
    var at := chunks[i].fromIndex;
    var gap := if i == 0 then 0 else chunks[i - 1].toIndex;
    assert i > 0 ==> chunks[i - 1].toIndex < chunks[i - 1 + 1].fromIndex;
    forall p | gap <= p < at
      ensures !Inside(chunks, p)
    {
      BetweenChunks(start, chunks, i, p);
    }
    ChosenStep(input, chunks, gap, at, x);
  }

  lemma TakePart(head: Bytes, next: Bytes, rest: Bytes, x: nat)
    requires x <= |next|
    ensures ((head + next) + rest)[..|head| + x] == head + next[..x]
  {
  }

  /** The body up to a place `x` bytes into chunk `c`. */
  lemma BodyPrefixAt(input: Bytes, chunks: seq<Slice>, c: nat, x: nat, all: Bytes)
    requires c < |chunks| && chunks[c].fromIndex + x <= chunks[c].toIndex <= |input|
    requires all == BodyTo(input, chunks, |chunks|)
    ensures |BodyTo(input, chunks, c)| + x <= |all|
    ensures var at := chunks[c].fromIndex;
            all[..|BodyTo(input, chunks, c)| + x] == BodyTo(input, chunks, c) + input[at..at + x]
  {
    var head, cut := BodyTo(input, chunks, c), Cut(input, chunks[c]);
    var rest := JoinedGrows(Cuts(input, chunks), c + 1, |chunks|);
    TakePart(head, cut, rest, x);
    SliceOfSlice(input, chunks[c].fromIndex, chunks[c].toIndex, 0, x);
    assert cut[..x] == cut[0..x];
  }

  /** The body position lies in chunk `c`, or at its end, and there on the wire at `w`. */
  predicate LocatedIn(chunks: seq<Slice>, pos: nat, c: nat, w: nat)
    requires Proper(chunks)
  {
    && c < |chunks|
    && BodyBefore(chunks, c) <= pos <= BodyBefore(chunks, c) + Size(chunks[c])
    && (c > 0 ==> BodyBefore(chunks, c) < pos)
    && w == chunks[c].fromIndex + pos - BodyBefore(chunks, c)
  }

  lemma {:induction false} FindChunk(chunks: seq<Slice>, pos: nat, i: nat)
    requires Proper(chunks) && i < |chunks| && BodyBefore(chunks, i) <= pos <= BodyBefore(chunks, |chunks|)
    ensures var c := ChunkAt(pos, chunks, i); c < |chunks| && (i < c ==> BodyBefore(chunks, c) < pos)
    decreases |chunks| - i
  {
    if pos > BodyBefore(chunks, i + 1) {
      FindChunk(chunks, pos, i + 1);
    }
  }

  lemma Locate(chunks: seq<Slice>, pos: nat) returns (c: nat, w: nat)
    requires Proper(chunks) && chunks != [] && pos <= BodyBefore(chunks, |chunks|)
    ensures AbsolutePos(pos, 0, Some(chunks)) == Some(w)
    ensures forall bodyStart: nat :: AbsolutePos(pos, bodyStart, Some(chunks)) == Some(w)
    ensures LocatedIn(chunks, pos, c, w)
  {
    FindChunk(chunks, pos, 0);
    c := ChunkAt(pos, chunks, 0);
    w := chunks[c].fromIndex + pos - BodyBefore(chunks, c);
  }

  /** A located position has exactly the body up to it in front of it. */
  lemma LocatedBody(input: Bytes, start: int, chunks: seq<Slice>, pos: nat, c: nat, w: nat, all: Bytes)
    requires ChunksOrdered(start, chunks) && Within(chunks, |input|)
    requires LocatedIn(chunks, pos, c, w) && all == BodyTo(input, chunks, |chunks|)
    ensures w <= |input| && pos <= |all| && Chosen(input, 0, w, chunks) == all[..pos]
  {
    var x, at := pos - BodyBefore(chunks, c), chunks[c].fromIndex;
    assert |BodyTo(input, chunks, c)| == BodyBefore(chunks, c) by {
      BodyToSize(input, chunks, c);
    }
    assert Chosen(input, 0, w, chunks) == BodyTo(input, chunks, c) + input[at..w] by {
      BodyUpTo(input, start, chunks, c, x);
    }
    BodyPrefixAt(input, chunks, c, x, all);
  }

  lemma {:induction false} BodyBeforeRises(chunks: seq<Slice>, i: nat, j: nat)
    requires Proper(chunks) && i <= j <= |chunks|
    ensures BodyBefore(chunks, i) <= BodyBefore(chunks, j)
    decreases j
  {
    if i < j {
      BodyBeforeRises(chunks, i, j - 1);
    }
  }

  lemma LocatedOrder(start: int, chunks: seq<Slice>, a: nat, i: nat, from: nat, b: nat, j: nat, until: nat)
    requires ChunksOrdered(start, chunks) && a <= b
    requires LocatedIn(chunks, a, i, from) && LocatedIn(chunks, b, j, until)
    ensures i <= j && from <= until
    ensures a < b ==> from < until
  {
    if j < i {
      BodyBeforeRises(chunks, j + 1, i);
    }
    if i < j {
      ChunksRise(start, chunks, i, j);
    }
  }

  // ----- a range -----

  /** What `getReveal` covers: the wire range of a body range. */
  function WireRange(start: nat, length: nat, bodyStart: nat, chunks: Option<seq<Slice>>): Option<Slice>
    requires chunks.Some? ==> Proper(chunks.value)
  {
    var from := AbsolutePos(start, bodyStart, chunks);
    var until := AbsolutePos(start + length, bodyStart, chunks);
    if from.Some? && until.Some? then Some(Slice(from.value, until.value)) else None
  }

  lemma {:induction false} HeadersInside(from: nat, until: nat, chunks: seq<Slice>, n: nat, p: int)
    requires n <= |chunks|
    ensures Inside(HeadersBetween(from, until, chunks, n), p) <==>
            exists k :: 1 <= k < n && from < chunks[k].fromIndex < until
                        && chunks[k - 1].toIndex <= p < chunks[k].fromIndex
    decreases n
  {
    if n > 1 {
      var k := n - 1;
      var prior, all := HeadersBetween(from, until, chunks, k), HeadersBetween(from, until, chunks, n);
      HeadersInside(from, until, chunks, k, p);
      if Inside(prior, p) {
        var j :| 0 <= j < |prior| && prior[j].fromIndex <= p < prior[j].toIndex;
        assert all[j] == prior[j];
      }
      if from < chunks[k].fromIndex < until && chunks[k - 1].toIndex <= p < chunks[k].fromIndex {
        assert all[|prior|] == Slice(chunks[k - 1].toIndex, chunks[k].fromIndex);
      }
      if Inside(all, p) && !Inside(prior, p) {
        var j :| 0 <= j < |all| && all[j].fromIndex <= p < all[j].toIndex;
        assert j == |prior|;
      }
    }
  }

  /** A wire position of the range that is not body stands in a header the range crosses. */
  lemma CrossedHeader(start: int, chunks: seq<Slice>, i: nat, j: nat, until: nat, p: int) returns (k: nat)
    requires ChunksOrdered(start, chunks) && i <= j < |chunks|
    requires chunks[i].fromIndex <= p < until <= chunks[j].toIndex && !Inside(chunks, p)
    requires i < j ==> chunks[j].fromIndex < until
    ensures 1 <= k < |chunks| && chunks[k - 1].toIndex <= p < chunks[k].fromIndex < until
  {
    k := NextChunk(start, chunks, i, j, p);
    if k < j {
      ChunksRise(start, chunks, k, j);
    }
  }

  /** Between two located positions, the chunk headers are exactly what is not body. */
  lemma HeadersAreTheRest(start: int, chunks: seq<Slice>, i: nat, from: nat, j: nat, until: nat, p: int)
    requires ChunksOrdered(start, chunks) && i <= j < |chunks|
    requires chunks[i].fromIndex <= from <= p < until <= chunks[j].toIndex
    requires i < j ==> chunks[j].fromIndex < until
    ensures Inside(HeadersBetween(from, until, chunks, |chunks|), p) <==> !Inside(chunks, p)
  {
    HeadersInside(from, until, chunks, |chunks|, p);
    if !Inside(chunks, p) {
      var k := CrossedHeader(start, chunks, i, j, until, p);
    }
    if k :| 1 <= k < |chunks| && chunks[k - 1].toIndex <= p < chunks[k].fromIndex {
      BetweenChunks(start, chunks, k, p);
    }
  }

  /** Behind a position outside the chunks, but between two of them, comes a chunk. */
  lemma {:induction false} NextChunk(start: int, chunks: seq<Slice>, i: nat, j: nat, p: int) returns (k: nat)
    requires ChunksOrdered(start, chunks) && i <= j < |chunks|
    requires chunks[i].fromIndex <= p && p < chunks[j].toIndex && !Inside(chunks, p)
    ensures i < k <= j && chunks[k - 1].toIndex <= p < chunks[k].fromIndex
    decreases j
  {
    assert p < chunks[j].fromIndex;
    if chunks[j - 1].toIndex <= p {
      k := j;
    } else {
      k := NextChunk(start, chunks, i, j - 1, p);
    }
  }

  lemma {:induction false} WithoutIsChosen(input: Bytes, from: nat, until: nat, headers: seq<Slice>, chunks: seq<Slice>)
    requires from <= until <= |input|
    requires forall p :: from <= p < until ==> (Inside(headers, p) <==> !Inside(chunks, p))
    ensures Without(input, from, until, headers) == Chosen(input, from, until, chunks)
    decreases until
  {
    if from < until {
      WithoutIsChosen(input, from, until - 1, headers, chunks);
      assert Inside(headers, until - 1) <==> !Inside(chunks, until - 1);
    }
  }

  lemma RangeWithoutHeaders(input: Bytes, start: int, chunks: seq<Slice>, i: nat, from: nat, j: nat, until: nat)
    requires ChunksOrdered(start, chunks) && Within(chunks, |input|) && i <= j < |chunks|
    requires chunks[i].fromIndex <= from <= until <= chunks[j].toIndex
    requires i < j ==> chunks[j].fromIndex < until
    ensures Without(input, from, until, HeadersBetween(from, until, chunks, |chunks|))
            == Chosen(input, from, until, chunks)
  {
    var headers := HeadersBetween(from, until, chunks, |chunks|);
    forall p | from <= p < until
      ensures Inside(headers, p) <==> !Inside(chunks, p)
    {
      HeadersAreTheRest(start, chunks, i, from, j, until, p);
    }
    WithoutIsChosen(input, from, until, headers, chunks);
  }

  /**
   Chunked: the wire range of a body range, without the chunk headers it crosses, is
   exactly the body range, wherever its ends fall.
   */
  lemma ChunkedRevealExact(input: Bytes, start: int, chunks: seq<Slice>, body: Bytes, a: nat, b: nat)
    returns (from: nat, until: nat)
    requires ChunksOrdered(start, chunks) && Within(chunks, |input|) && chunks != []
    requires body == BodyTo(input, chunks, |chunks|) && a < b <= |body|
    ensures forall s: nat :: AbsolutePos(a, s, Some(chunks)) == Some(from)
    ensures forall s: nat :: AbsolutePos(b, s, Some(chunks)) == Some(until)
    ensures from < until <= |input|
    ensures Without(input, from, until, HeadersBetween(from, until, chunks, |chunks|)) == body[a..b]
  {
    BodyToSize(input, chunks, |chunks|);
    var i, j;
    i, from := Locate(chunks, a);
    j, until := Locate(chunks, b);
    LocatedOrder(start, chunks, a, i, from, b, j, until);
    LocatedBody(input, start, chunks, a, i, from, body);
    LocatedBody(input, start, chunks, b, j, until, body);
    RangeWithoutHeaders(input, start, chunks, i, from, j, until);
    WithinSplit(input, 0, from, until, chunks);
    assert body[..b] == body[..a] + body[a..b];
  }

  lemma SliceMore(input: Bytes, from: nat, until: nat)
    requires from < until <= |input|
    ensures input[from..until] == input[from..until - 1] + [input[until - 1]]
  {
  }

  lemma {:induction false} WithoutNothing(input: Bytes, from: nat, until: nat)
    requires from <= until <= |input|
    ensures Without(input, from, until, []) == input[from..until]
    decreases until
  {
    if from < until {
      WithoutNothing(input, from, until - 1);
      assert !Inside([], until - 1);
      SliceMore(input, from, until);
    }
  }

  /** What a reveal of a body range has to cover. */
  predicate ExactRange(response: Bytes, body: Bytes, a: nat, b: nat, w: Slice, chunks: Option<seq<Slice>>)
    requires a <= b <= |body|
  {
    && w.fromIndex < w.toIndex <= |response|
    && Without(response, w.fromIndex, w.toIndex, ChunkHeaders(w.fromIndex, w.toIndex, chunks)) == body[a..b]
    && (ChunkHeaders(w.fromIndex, w.toIndex, chunks) == [] ==> response[w.fromIndex..w.toIndex] == body[a..b])
  }

  lemma ChunkedRange(response: Bytes, start: int, chunks: seq<Slice>, body: Bytes, a: nat, b: nat, s: nat)
    requires ChunksOrdered(start, chunks) && Within(chunks, |response|) && chunks != []
    requires body == Pick(response, chunks) && a < b <= |body|
    ensures var w := WireRange(a, b - a, s, Some(chunks));
            w.Some? && ExactRange(response, body, a, b, w.value, Some(chunks))
  {
    assert chunks[..|chunks|] == chunks;
    BodyToIsPick(response, chunks, |chunks|);
    var from, until := ChunkedRevealExact(response, start, chunks, body, a, b);
    WithoutNothing(response, from, until);
  }

  lemma PlainRange(response: Bytes, body: Bytes, a: nat, b: nat, s: nat, chunks: Option<seq<Slice>>)
    requires chunks.None? || chunks.value == []
    requires s <= |response| && body == response[s..] && a < b <= |body|
    ensures var w := WireRange(a, b - a, s, chunks);
            w.Some? && ExactRange(response, body, a, b, w.value, chunks)
  {
    WithoutNothing(response, s + a, s + b);
  }

  /** The same for every response parsed to its end, chunked or not. */
  lemma RevealExact(js: Readers, response: Bytes, res: State, a: nat, length: nat)
    requires ParsedMeaning(js, response, res)
    requires res.bodyStartIndex.Some? && a + length <= |res.body| && length > 0
    ensures res.chunks.Some? ==> Proper(res.chunks.value)
    ensures var w := WireRange(a, length, res.bodyStartIndex.value, res.chunks);
            w.Some? && ExactRange(response, res.body, a, a + length, w.value, res.chunks)
  {
    var s := res.bodyStartIndex.value;
    if res.chunks.Some? && res.chunks.value != [] {
      ChunkedRange(response, res.headerEndIdx + 4, res.chunks.value, res.body, a, a + length, s);
    } else {
      PlainRange(response, res.body, a, a + length, s, res.chunks);
    }
  }

  /** Non-empty slices in order, from `from` on and with their ends before `until` and up to `bound`. */
  predicate SlicesFit(hs: seq<Slice>, from: nat, until: nat, bound: nat) {
    && (forall k :: 0 <= k < |hs| ==> from <= hs[k].fromIndex < hs[k].toIndex < until && hs[k].toIndex <= bound)
    && (forall j, k :: 0 <= j < k < |hs| ==> hs[j].toIndex <= hs[k].fromIndex)
  }

  lemma SlicesFitSnoc(hs: seq<Slice>, h: Slice, from: nat, until: nat, bound: nat)
    requires SlicesFit(hs, from, until, h.fromIndex)
    requires from <= h.fromIndex < h.toIndex < until && h.toIndex <= bound
    ensures SlicesFit(hs + [h], from, until, bound)
  {
  }

  /** A header with its end behind a place in a chunk, or at the chunk's end, begins there or later. */
  lemma HeaderBehind(start: int, chunks: seq<Slice>, i: nat, from: nat, k: nat)
    requires ChunksOrdered(start, chunks) && i < |chunks| && 0 < k < |chunks|
    requires chunks[i].fromIndex <= from <= chunks[i].toIndex
    ensures chunks[k - 1].toIndex < chunks[k].fromIndex
    ensures from < chunks[k].fromIndex ==> from <= chunks[k - 1].toIndex
  {
    assert chunks[k - 1].toIndex < chunks[k - 1 + 1].fromIndex;
    if k < i {
      ChunksRise(start, chunks, k, i);
    } else if i < k - 1 {
      ChunksRise(start, chunks, i, k - 1);
    }
  }

  /** The headers a located range crosses lie inside the range, and keep apart. */
  lemma {:induction false} HeadersFit(start: int, chunks: seq<Slice>, i: nat, from: nat, until: nat, n: nat)
    requires ChunksOrdered(start, chunks) && i < |chunks| && 0 < n <= |chunks|
    requires chunks[i].fromIndex <= from <= chunks[i].toIndex
    ensures SlicesFit(HeadersBetween(from, until, chunks, n), from, until, chunks[n - 1].fromIndex)
    decreases n
  {
    if n > 1 {
      var prior := HeadersBetween(from, until, chunks, n - 1);
      var header := Slice(chunks[n - 2].toIndex, chunks[n - 1].fromIndex);
      assert SlicesFit(prior, from, until, header.fromIndex) by {
        HeadersFit(start, chunks, i, from, until, n - 1);
        assert chunks[n - 2].fromIndex < chunks[n - 2].toIndex;
      }
      HeaderBehind(start, chunks, i, from, n - 1);
      if from < header.toIndex < until {
        SlicesFitSnoc(prior, header, from, until, header.toIndex);
      }
    }
  }

  /** Where a part of a parsed body lies on the wire. */
  predicate RangeFits(headerEnd: int, length: nat, w: Slice, chunks: Option<seq<Slice>>) {
    && headerEnd + 4 <= w.fromIndex < w.toIndex <= length
    && SlicesFit(ChunkHeaders(w.fromIndex, w.toIndex, chunks), w.fromIndex, w.toIndex, length)
  }

  lemma ChunkedRangeFits(response: Bytes, res: State, chunks: seq<Slice>, a: nat, b: nat, s: nat)
    requires ChunksOrdered(res.headerEndIdx + 4, chunks) && Within(chunks, |response|) && chunks != []
    requires a < b <= BodyBefore(chunks, |chunks|)
    ensures var w := WireRange(a, b - a, s, Some(chunks));
            w.Some? && RangeFits(res.headerEndIdx, |response|, w.value, Some(chunks))
  {
    var start := res.headerEndIdx + 4;
    var i, from := Locate(chunks, a);
    var j, until := Locate(chunks, b);
    assert from < until && i <= j by {
      LocatedOrder(start, chunks, a, i, from, b, j, until);
    }
    HeadersFit(start, chunks, i, from, until, |chunks|);
    assert chunks[j].toIndex <= |response| && chunks[|chunks| - 1].fromIndex <= |response|;
  }

  lemma PickSize(input: Bytes, chunks: seq<Slice>)
    requires Within(chunks, |input|)
    ensures |Pick(input, chunks)| == BodyBefore(chunks, |chunks|)
  {
    BodyToIsPick(input, chunks, |chunks|);
    BodyToSize(input, chunks, |chunks|);
    assert chunks[..|chunks|] == chunks;
  }

  /** Every part of a parsed body lies behind the head, with its chunk headers inside. */
  lemma PartFits(js: Readers, response: Bytes, res: State, a: nat, length: nat)
    requires ParsedMeaning(js, response, res) && res.bodyStartIndex.Some?
    requires a + length <= |res.body| && length > 0
    ensures res.chunks.Some? ==> Proper(res.chunks.value)
    ensures var w := WireRange(a, length, res.bodyStartIndex.value, res.chunks);
            w.Some? && RangeFits(res.headerEndIdx, |response|, w.value, res.chunks)
  {
    if res.chunks.Some? {
      PickSize(response, res.chunks.value);
      ChunkedRangeFits(response, res, res.chunks.value, a, a + length, res.bodyStartIndex.value);
    }
  }

  lemma LocateRange(chunks: seq<Slice>, a: nat, length: nat, s: nat) returns (i: nat, w: Slice, j: nat)
    requires Proper(chunks) && chunks != [] && a + length <= BodyBefore(chunks, |chunks|)
    ensures WireRange(a, length, s, Some(chunks)) == Some(w)
    ensures LocatedIn(chunks, a, i, w.fromIndex) && LocatedIn(chunks, a + length, j, w.toIndex)
  {
    var from, until;
    i, from := Locate(chunks, a);
    j, until := Locate(chunks, a + length);
    w := Slice(from, until);
  }

  /** Parts that follow each other in the body follow each other on the wire. */
  lemma ChunkedPartsInOrder(start: int, chunks: seq<Slice>, a: nat, la: nat, b: nat, lb: nat, s: nat)
    requires ChunksOrdered(start, chunks) && chunks != []
    requires a + la <= b && b + lb <= BodyBefore(chunks, |chunks|)
    ensures var v, w := WireRange(a, la, s, Some(chunks)), WireRange(b, lb, s, Some(chunks));
            v.Some? && w.Some? && v.value.toIndex <= w.value.fromIndex
  {
    var i, v, j := LocateRange(chunks, a, la, s);
    var k, w, l := LocateRange(chunks, b, lb, s);
    LocatedOrder(start, chunks, a + la, j, v.toIndex, b, k, w.fromIndex);
  }

  lemma PartsInOrder(js: Readers, response: Bytes, res: State, a: nat, la: nat, b: nat, lb: nat)
    requires ParsedMeaning(js, response, res) && res.bodyStartIndex.Some?
    requires a + la <= b && b + lb <= |res.body| && la > 0 && lb > 0
    ensures res.chunks.Some? ==> Proper(res.chunks.value)
    ensures var s := res.bodyStartIndex.value;
            var v, w := WireRange(a, la, s, res.chunks), WireRange(b, lb, s, res.chunks);
            v.Some? && w.Some? && v.value.toIndex <= w.value.fromIndex
  {
    if res.chunks.Some? {
      PickSize(response, res.chunks.value);
      ChunkedPartsInOrder(res.headerEndIdx + 4, res.chunks.value, a, la, b, lb, res.bodyStartIndex.value);
    }
  }
}
