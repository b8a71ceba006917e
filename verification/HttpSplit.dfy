/**
 Split invariance: however the bytes of a response are cut into `onChunk`
 calls, the parser ends as if they had arrived at once.
 */
module HttpSplit {
  import opened ByteData
  import opened HttpResponse

  /** Calls of `onChunk`, one piece each; nothing more is read once a call threw. */
  function Feed(js: Readers, st: State, pieces: seq<Bytes>): Outcome
    requires Settled(js, st)
    decreases |pieces|
  {
    if pieces == [] then Returned(st)
    else
      var o := OnChunk(js, st, pieces[0]);
      OnChunkSettles(js, st, pieces[0]);
      if o.Threw? then o else Feed(js, o.st, pieces[1..])
  }

  /** Same state, or both threw. What a failed parse leaves behind is not compared. */
  predicate SameOutcome(a: Outcome, b: Outcome) {
    if a.Returned? then a == b else b.Threw?
  }

  // ----- the states the parser rests in between two calls -----

  predicate EmptyBodyDeclared(st: State) {
    Header(st, CONTENT_LENGTH) == Some(ZERO_TEXT)
  }

  /** What holds wherever the body is about to be read. */
  predicate InBody(st: State) {
    && Plain(st)
    && st.headersComplete
    && st.currentByteIdx > 0
    && (st.remainingBodyBytes == -1 ==> !st.isChunked && !EmptyBodyDeclared(st))
    && (st.remainingBodyBytes > 0 ==> !EmptyBodyDeclared(st))
    && (st.remainingBodyBytes != 0 ==> !st.complete)
  }

  /** What holds between two calls that returned. */
  predicate Settled(js: Readers, st: State) {
    if st.headersComplete then
      && InBody(st)
      && (st.remainingBodyBytes != 0 ==> st.remaining == [])
      && (st.isChunked && st.remainingBodyBytes == 0 ==> !HasLine(st))
      && (EmptyBodyDeclared(st) ==> st.complete)
    else
      && !HasLine(st)
      && st.remainingBodyBytes == 0
      && !st.isChunked
      && !st.complete
  }

  predicate InHead(st: State) {
    st.headersComplete || (st.remainingBodyBytes == 0 && !st.isChunked && !st.complete)
  }

  lemma {:induction false} ReadHeadSettles(js: Readers, st: State)
    requires InHead(st) && (st.headersComplete ==> InBody(st))
    ensures var r := ReadHead(js, st);
            if r.headersComplete then InBody(r) else Settled(js, r)
    decreases |st.remaining|
  {
    if !st.headersComplete && HasLine(st) {
      ReadHeadSettles(js, HeadStep(js, st));
    }
  }

  lemma {:induction false} ReadChunksSettles(js: Readers, st: State)
    requires InBody(st) && st.isChunked && st.remainingBodyBytes == 0
    requires EmptyBodyDeclared(st) ==> st.complete
    ensures ReadChunks(js, st).Returned? ==> Settled(js, ReadChunks(js, st).st)
    decreases |st.remaining|
  {
    if HasLine(st) {
      var line, next := Line(st), DropLine(st);
      if line == [] {
        ReadChunksSettles(js, next);
      } else if js.hex(line) == 0 {
        ReadChunksSettles(js, next.(complete := true));
      } else {
        var begun := BeginChunk(next, js.hex(line));
        if !begun.complete && ReadBody(begun).remainingBodyBytes == 0 {
          ReadChunksSettles(js, ReadBody(begun));
        }
      }
    }
  }

  lemma ReadRestSettles(js: Readers, st: State)
    requires InBody(st)
    ensures ReadRest(js, st).Returned? ==> Settled(js, ReadRest(js, st).st)
  {
    var due := MarkEmpty(ReadDue(st));
    if st.isChunked {
      if due.remainingBodyBytes == 0 {
        ReadChunksSettles(js, due);
      } else {
        assert due.remaining == [] && !HasLine(due);
      }
    }
  }

  lemma OnChunkSettles(js: Readers, st: State, data: Bytes)
    requires Settled(js, st)
    ensures OnChunk(js, st, data).Returned? ==> Settled(js, OnChunk(js, st, data).st)
  {
    ReadHeadSettles(js, Push(st, data));
    var head := ReadHead(js, Push(st, data));
    if head.headersComplete {
      ReadRestSettles(js, head);
    }
  }

  // ----- a line, once found, is found again behind which more bytes arrived -----

  lemma LineEndAppend(s: Bytes, t: Bytes)
    requires LineEnd(s) >= 0
    ensures LineEnd(s + t) == LineEnd(s)
  {
    var i, j := LineEnd(s), LineEnd(s + t);
    assert CrlfAt(s + t, i);
    assert CrlfAt(s + t, j);
    assert CrlfAt(s, j);
  }

  lemma DropLineAppend(st: State, b: Bytes)
    requires HasLine(st)
    ensures HasLine(Push(st, b))
    ensures Line(Push(st, b)) == Line(st)
    ensures DropLine(Push(st, b)) == Push(DropLine(st), b)
  {
    LineEndAppend(st.remaining, b);
    var i := LineEnd(st.remaining);
    assert (st.remaining + b)[..i] == st.remaining[..i];
    assert (st.remaining + b)[i + 2..] == st.remaining[i + 2..] + b;
  }

  lemma HeaderStepAppend(st: State, line: Bytes, b: Bytes)
    requires st.currentByteIdx >= |line| + 2
    ensures HeaderStep(Push(st, b), line) == Push(HeaderStep(st, line), b)
  {
  }

  lemma HeadersEndStepAppend(js: Readers, st: State, b: Bytes)
    ensures HeadersEndStep(js, Push(st, b)) == Push(HeadersEndStep(js, st), b)
  {
    assert DeclaredChunked(Push(st, b)) == DeclaredChunked(st);
  }

  lemma HeadActionAppend(js: Readers, st: State, line: Bytes, b: Bytes)
    requires st.currentByteIdx >= |line| + 2
    ensures HeadAction(js, Push(st, b), line) == Push(HeadAction(js, st, line), b)
  {
    if st.statusCode != 0 {
      if line == [] {
        HeadersEndStepAppend(js, st, b);
      } else {
        HeaderStepAppend(st, line, b);
      }
    }
  }

  lemma HeadStepAppend(js: Readers, st: State, b: Bytes)
    requires HasLine(st)
    ensures HasLine(Push(st, b))
    ensures HeadStep(js, Push(st, b)) == Push(HeadStep(js, st), b)
  {
    DropLineAppend(st, b);
    HeadActionAppend(js, DropLine(st), Line(st), b);
  }

  lemma {:induction false} ReadHeadAppend(js: Readers, st: State, b: Bytes)
    ensures ReadHead(js, Push(st, b)) == ReadHead(js, Push(ReadHead(js, st), b))
    decreases |st.remaining|
  {
    if !st.headersComplete && HasLine(st) {
      HeadStepAppend(js, st, b);
      ReadHeadAppend(js, HeadStep(js, st), b);
    }
  }

  // ----- the body -----

  lemma ReadBodyEnough(st: State, b: Bytes)
    requires 0 <= st.remainingBodyBytes <= |st.remaining|
    ensures ReadBody(Push(st, b)) == Push(ReadBody(st), b)
  {
    var n := st.remainingBodyBytes;
    assert (st.remaining + b)[..n] == st.remaining[..n];
    assert (st.remaining + b)[n..] == st.remaining[n..] + b;
  }

  /** Taking `n` of `r + b` takes all of `r` when there is no more than that of it. */
  lemma TakeAcross(r: Bytes, b: Bytes, n: int)
    requires |r| <= n <= |r| + |b|
    ensures (r + b)[..n] == r + b[..n - |r|]
    ensures (r + b)[n..] == b[n - |r|..]
  {
  }

  lemma ReadBodyShort(st: State, b: Bytes)
    requires st.remainingBodyBytes == -1 || |st.remaining| < st.remainingBodyBytes
    requires st.currentByteIdx > 0
    ensures ReadBody(st).remaining == []
    ensures ReadBody(Push(st, b)) == ReadBody(Push(ReadBody(st), b))
  {
    var r := st.remaining;
    assert r[..|r|] == r && [] + b == b;
    var n := if st.remainingBodyBytes == -1 then |r + b| else Min(st.remainingBodyBytes, |r + b|);
    TakeAcross(r, b, n);
    assert st.body + (r + b[..n - |r|]) == (st.body + r) + b[..n - |r|];
    var once, twice := ReadBody(Push(st, b)), ReadBody(Push(ReadBody(st), b));
    assert once.body == twice.body;
    assert once.remaining == twice.remaining;
  }

  /** The rest of the call that reads `b` behind the outcome `o`. */
  function Resume(js: Readers, o: Outcome, b: Bytes): Outcome
    requires o.Returned? ==> Plain(o.st) && o.st.headersComplete
  {
    if o.Threw? then o else ReadRest(js, Push(o.st, b))
  }

  lemma BeginChunkAppend(st: State, size: nat, b: Bytes)
    ensures BeginChunk(Push(st, b), size) == Push(BeginChunk(st, size), b)
  {
  }

  /** After a chunk that is not yet there in full, the next call picks up inside it. */
  lemma ResumeInChunk(js: Readers, begun: State, b: Bytes)
    requires InBody(begun) && begun.isChunked
    requires |begun.remaining| < begun.remainingBodyBytes
    ensures Plain(ReadBody(begun)) && ReadBody(begun).remainingBodyBytes != 0
    ensures var read := ReadBody(Push(begun, b));
            ReadRest(js, Push(ReadBody(begun), b))
            == if read.remainingBodyBytes != 0 then Returned(read) else ReadChunks(js, read)
  {
    ReadBodyShort(begun, b);
    var read := ReadBody(Push(begun, b));
    if read.remainingBodyBytes != 0 {
      assert read.remaining == [] && !HasLine(read);
    }
  }

  lemma {:induction false} ReadChunksAppend(js: Readers, st: State, b: Bytes)
    requires InBody(st) && st.isChunked && st.remainingBodyBytes == 0
    requires EmptyBodyDeclared(st) ==> st.complete
    ensures ReadChunks(js, st).Returned? ==> Settled(js, ReadChunks(js, st).st) && ReadChunks(js, st).st.headersComplete
    ensures SameOutcome(ReadChunks(js, Push(st, b)), Resume(js, ReadChunks(js, st), b))
    decreases |st.remaining|
  {
    ReadChunksSettles(js, st);
    if !HasLine(st) {
      NoLineAppend(js, st, b);
    } else {
      var line, next := Line(st), DropLine(st);
      if line == [] || js.hex(line) == 0 {
        LineAppend(js, st, b);
        ReadChunksAppend(js, AfterLine(st), b);
        SameBehindLine(js, st, AfterLine(st), b);
      } else {
        ChunkAhead(js, st);
        DropLineAppend(st, b);
        ChunkAhead(js, Push(st, b));
        ChunkAppend(js, next, js.hex(line), b);
      }
    }
  }

  lemma ChunkAhead(js: Readers, st: State)
    requires HasLine(st) && Line(st) != [] && js.hex(Line(st)) != 0
    ensures ReadChunks(js, st) == ReadOneChunk(js, DropLine(st), js.hex(Line(st)))
  {
  }

  lemma SameBehindLine(js: Readers, st: State, next: State, b: Bytes)
    requires ReadChunks(js, st) == ReadChunks(js, next) && ReadChunks(js, Push(st, b)) == ReadChunks(js, Push(next, b))
    requires ReadChunks(js, next).Returned? ==>
               Settled(js, ReadChunks(js, next).st) && ReadChunks(js, next).st.headersComplete
    requires SameOutcome(ReadChunks(js, Push(next, b)), Resume(js, ReadChunks(js, next), b))
    ensures SameOutcome(ReadChunks(js, Push(st, b)), Resume(js, ReadChunks(js, st), b))
  {
  }

  lemma NoLineAppend(js: Readers, st: State, b: Bytes)
    requires InBody(st) && st.isChunked && st.remainingBodyBytes == 0 && !HasLine(st)
    requires EmptyBodyDeclared(st) ==> st.complete
    ensures SameOutcome(ReadChunks(js, Push(st, b)), Resume(js, ReadChunks(js, st), b))
  {
    assert MarkEmpty(ReadDue(Push(st, b))) == Push(st, b);
  }

  /** The state behind a line that announces no chunk. */
  function AfterLine(st: State): State
    requires HasLine(st)
  {
    if Line(st) == [] then DropLine(st) else DropLine(st).(complete := true)
  }

  lemma LineAppend(js: Readers, st: State, b: Bytes)
    requires InBody(st) && st.isChunked && st.remainingBodyBytes == 0
    requires EmptyBodyDeclared(st) ==> st.complete
    requires HasLine(st) && (Line(st) == [] || js.hex(Line(st)) == 0)
    ensures ReadChunks(js, st) == ReadChunks(js, AfterLine(st))
    ensures ReadChunks(js, Push(st, b)) == ReadChunks(js, Push(AfterLine(st), b))
    ensures var next := AfterLine(st);
            InBody(next) && next.isChunked && next.remainingBodyBytes == 0 && (EmptyBodyDeclared(next) ==> next.complete)
  {
    DropLineAppend(st, b);
    LineWithoutChunk(js, st);
    LineWithoutChunk(js, Push(st, b));
    assert AfterLine(Push(st, b)) == Push(AfterLine(st), b);
  }

  lemma LineWithoutChunk(js: Readers, st: State)
    requires HasLine(st) && (Line(st) == [] || js.hex(Line(st)) == 0)
    ensures ReadChunks(js, st) == ReadChunks(js, AfterLine(st))
  {
  }

  /** The part of the chunk loop that follows a size line. */
  function ReadOneChunk(js: Readers, st: State, size: nat): Outcome
    requires size > 0
  {
    var begun := BeginChunk(st, size);
    if begun.complete then Threw(begun)
    else
      var read := ReadBody(begun);
      if read.remainingBodyBytes != 0 then Returned(read) else ReadChunks(js, read)
  }

  lemma {:induction false} ChunkAppend(js: Readers, st: State, size: nat, b: Bytes)
    requires InBody(st) && st.isChunked && st.remainingBodyBytes == 0 && size > 0
    requires EmptyBodyDeclared(st) ==> st.complete
    ensures var o := ReadOneChunk(js, st, size);
            && (o.Returned? ==> Settled(js, o.st) && o.st.headersComplete)
            && SameOutcome(ReadOneChunk(js, Push(st, b), size), Resume(js, o, b))
    decreases |st.remaining|, 0
  {
    var begun := BeginChunk(st, size);
    BeginChunkAppend(st, size, b);
    if !begun.complete {
      if size <= |st.remaining| {
        ReadBodyEnough(begun, b);
        ReadChunksAppend(js, ReadBody(begun), b);
      } else {
        ResumeInChunk(js, begun, b);
      }
    }
  }

  lemma ReadRestAppend(js: Readers, st: State, b: Bytes)
    requires InBody(st)
    ensures ReadRest(js, st).Returned? ==> Settled(js, ReadRest(js, st).st) && ReadRest(js, st).st.headersComplete
    ensures SameOutcome(ReadRest(js, Push(st, b)), Resume(js, ReadRest(js, st), b))
  {
    if st.remainingBodyBytes == 0 {
      NothingDueAppend(js, st, b);
    } else if 0 < st.remainingBodyBytes <= |st.remaining| {
      AllDueAppend(js, st, b);
    } else {
      ReadBodyShort(st, b);
    }
  }

  lemma NothingDueAppend(js: Readers, st: State, b: Bytes)
    requires InBody(st) && st.remainingBodyBytes == 0
    ensures ReadRest(js, st).Returned? ==> Settled(js, ReadRest(js, st).st) && ReadRest(js, st).st.headersComplete
    ensures SameOutcome(ReadRest(js, Push(st, b)), Resume(js, ReadRest(js, st), b))
  {
    if st.isChunked {
      ReadChunksAppend(js, MarkEmpty(st), b);
    }
  }

  lemma AllDueAppend(js: Readers, st: State, b: Bytes)
    requires InBody(st) && 0 < st.remainingBodyBytes <= |st.remaining|
    ensures ReadRest(js, st).Returned? ==> Settled(js, ReadRest(js, st).st) && ReadRest(js, st).st.headersComplete
    ensures SameOutcome(ReadRest(js, Push(st, b)), Resume(js, ReadRest(js, st), b))
  {
    ReadBodyEnough(st, b);
    if st.isChunked {
      ReadChunksAppend(js, MarkEmpty(ReadBody(st)), b);
    }
  }

  // ----- the theorem -----

  /** One more call, unless the previous one threw. */
  function Then(js: Readers, o: Outcome, b: Bytes): Outcome
    requires o.Returned? ==> Settled(js, o.st)
  {
    if o.Threw? then o else OnChunk(js, o.st, b)
  }

  lemma TwoCalls(js: Readers, st: State, a: Bytes, b: Bytes)
    requires Settled(js, st)
    ensures OnChunk(js, st, a).Returned? ==> Settled(js, OnChunk(js, st, a).st)
    ensures SameOutcome(OnChunk(js, st, a + b), Then(js, OnChunk(js, st, a), b))
  {
    OnChunkSettles(js, st, a);
    assert Push(st, a + b) == Push(Push(st, a), b) by {
      assert st.remaining + (a + b) == st.remaining + a + b;
    }
    ReadHeadAppend(js, Push(st, a), b);
    var head := ReadHead(js, Push(st, a));
    if head.headersComplete {
      ReadHeadSettles(js, Push(st, a));
      ReadRestAppend(js, head, b);
      CallAfterHead(js, ReadRest(js, head), b);
    }
  }

  lemma CallAfterHead(js: Readers, o: Outcome, b: Bytes)
    requires o.Returned? ==> Settled(js, o.st) && o.st.headersComplete
    ensures Then(js, o, b) == Resume(js, o, b)
  {
  }

  lemma {:induction false} FeedIsOneCall(js: Readers, st: State, pieces: seq<Bytes>)
    requires Settled(js, st) && pieces != []
    ensures SameOutcome(OnChunk(js, st, Concat(pieces)), Feed(js, st, pieces))
    decreases |pieces|
  {
    var first, rest := pieces[0], pieces[1..];
    var o := OnChunk(js, st, first);
    OnChunkSettles(js, st, first);
    if rest == [] {
      assert Concat(pieces) == first;
    } else {
      TwoCalls(js, st, first, Concat(rest));
      if o.Returned? {
        FeedIsOneCall(js, o.st, rest);
      }
    }
  }

  /**
   Every way of cutting a response into calls gives the outcome of one call: the
   same fields, indices, chunks, body, unread bytes and cursor, or an error in both.
   */
  lemma SplitInvariance(js: Readers, pieces: seq<Bytes>)
    ensures SameOutcome(OnChunk(js, INITIAL, Concat(pieces)), Feed(js, INITIAL, pieces))
  {
    if pieces == [] {
      assert Push(INITIAL, []) == INITIAL;
    } else {
      FeedIsOneCall(js, INITIAL, pieces);
    }
  }

  /** Two cuts of the same bytes agree with each other. */
  lemma AnyTwoSplitsAgree(js: Readers, pieces: seq<Bytes>, others: seq<Bytes>)
    requires Concat(pieces) == Concat(others)
    ensures SameOutcome(Feed(js, INITIAL, pieces), Feed(js, INITIAL, others))
  {
    SplitInvariance(js, pieces);
    SplitInvariance(js, others);
  }
}
