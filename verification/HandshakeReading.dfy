/**
 Which messages the handshake reader returns, for messages coalesced into records and
 fragmented over them in any way.
 */
module HandshakeReading {
  import opened ByteData
  import opened Handshake
  import BlockReveal

  /** The position of record `i`'s first byte in the whole handshake stream. */
  function Start(texts: seq<Bytes>, i: nat): nat
    requires i <= |texts|
  {
    BlockReveal.Offset(texts, i)
  }

  lemma StartNext(texts: seq<Bytes>, i: nat)
    requires i < |texts|
    ensures Start(texts, i + 1) == Start(texts, i) + |texts[i]| <= |Concat(texts)|
    ensures Concat(texts)[Start(texts, i)..Start(texts, i + 1)] == texts[i]
  {
    BlockReveal.OffsetNext(texts, i);
    BlockReveal.ConcatPiece(texts, i);
  }

  lemma StartMonotone(texts: seq<Bytes>, i: nat, j: nat)
    requires i <= j <= |texts|
    ensures Start(texts, i) <= Start(texts, j) <= |Concat(texts)|
  {
    BlockReveal.OffsetMonotone(texts, i, j);
    BlockReveal.OffsetMonotone(texts, j, |texts|);
    BlockReveal.OffsetEnd(texts);
  }

  // ----- one message -----

  /** The reader has used up the stream up to `o`, and holds what else it fetched. */
  predicate At(env: Env, texts: seq<Bytes>, s: State, o: nat) {
    && |texts| == |env.receipt| && s.currentPacketIdx <= |texts|
    && if s.data == [] then o == Start(texts, s.currentPacketIdx)
       else Start(texts, s.currentPacketIdx) <= o && Holding(texts, s.data, s.currentPacketIdx, o)
  }

  /** The data is the stream from `o` to the end of record `i`. */
  predicate Holding(texts: seq<Bytes>, data: Bytes, i: nat, o: nat) {
    && i < |texts|
    && o <= Start(texts, i + 1) <= |Concat(texts)|
    && data == Concat(texts)[o..Start(texts, i + 1)]
  }

  /** Under the context, the records from `from` on that begin before `end` hold their texts. */
  predicate Delivered(env: Env, ctx: Context, texts: seq<Bytes>, from: nat, end: nat)
    requires |texts| == |env.receipt|
  {
    forall i :: from <= i < |texts| && Start(texts, i) < end ==> Fetch(env, ctx, i) == Data(texts[i])
  }

  /** The message at `o`: its header, and as many bytes as the header's low 16 bits say. */
  predicate FrameAt(stream: Bytes, o: nat, end: nat) {
    o + MESSAGE_HEADER <= end <= |stream| && end == o + MESSAGE_HEADER + LowLength(stream[o..])
  }

  /** Record `r` holds the byte before `end`. */
  predicate EndsIn(texts: seq<Bytes>, r: nat, end: nat) {
    r < |texts| && Start(texts, r) < end <= Start(texts, r + 1)
  }

  /** The state once the message is read. */
  function After(texts: seq<Bytes>, s: State, o: nat, end: nat, r: nat): State
    requires o <= end <= |Concat(texts)| && EndsIn(texts, r, end)
  {
    StartNext(texts, r);
    var stream := Concat(texts);
    State(if end == Start(texts, r + 1) then r + 1 else r, r, stream[end..Start(texts, r + 1)],
          s.raw + [stream[o..end]], s.ctx)
  }

  /** What a reader returns that got the message. */
  function Got(texts: seq<Bytes>, s: State, o: nat, end: nat, r: nat): Outcome
    requires o + MESSAGE_HEADER <= end <= |Concat(texts)| && EndsIn(texts, r, end)
  {
    Packet(Concat(texts)[o], Concat(texts)[o + MESSAGE_HEADER..end], After(texts, s, o, end, r))
  }

  /** All of the message is in the data: it is returned. */
  lemma LookAll(env: Env, texts: seq<Bytes>, s: State, o: nat, end: nat, r: nat)
    requires |texts| == |env.receipt| && EndsIn(texts, r, end) && FrameAt(Concat(texts), o, end)
    requires Holding(texts, s.data, s.currentPacketIdx, o) && s.currentPacketIdx == s.readPacketIdx == r
    ensures Look(env, s) == Got(texts, s, o, end, r)
  {
    var stream, data := Concat(texts), s.data;
    assert data[2] == stream[o..][2] && data[3] == stream[o..][3];
    assert data[..end - o] == stream[o..end];
    assert data[end - o..] == stream[end..Start(texts, r + 1)];
    assert data[MESSAGE_HEADER..end - o] == stream[o + MESSAGE_HEADER..end];
  }

  /** Part of it is in the data, with the whole header: the next record is fetched. */
  lemma LookPart(env: Env, texts: seq<Bytes>, s: State, o: nat, end: nat, r: nat) returns (next: State)
    requires |texts| == |env.receipt| && EndsIn(texts, r, end) && FrameAt(Concat(texts), o, end)
    requires Holding(texts, s.data, s.currentPacketIdx, o) && s.currentPacketIdx < r
    requires |s.data| >= MESSAGE_HEADER && !Stopped(s.ctx)
    requires Delivered(env, s.ctx, texts, s.currentPacketIdx + 1, end)
    ensures next == s.(data := next.data, currentPacketIdx := s.currentPacketIdx + 1, readPacketIdx := s.currentPacketIdx + 1)
    ensures Holding(texts, next.data, next.currentPacketIdx, o) && |next.data| >= |s.data|
    ensures Look(env, s) == Look(env, next)
  {
    var stream, i := Concat(texts), s.currentPacketIdx + 1;
    StartMonotone(texts, i, r);
    StartNext(texts, i);
    LookWaits(env, s, stream, o, end);
    next := s.(data := s.data + texts[i], currentPacketIdx := i, readPacketIdx := i);
    SliceJoin(stream, o, Start(texts, i), Start(texts, i + 1));
  }

  /** With the header in the data, but not all of the message, more is read. */
  lemma LookWaits(env: Env, s: State, stream: Bytes, o: nat, end: nat)
    requires s.currentPacketIdx < |env.receipt| && FrameAt(stream, o, end)
    requires MESSAGE_HEADER <= |s.data| < end - o && s.data == stream[o..o + |s.data|]
    ensures Look(env, s) == ReadPacket(env, s.(currentPacketIdx := s.currentPacketIdx + 1), true)
  {
    assert s.data[2] == stream[o..][2] && s.data[3] == stream[o..][3];
  }

  lemma {:induction false} LookReads(env: Env, texts: seq<Bytes>, s: State, o: nat, end: nat, r: nat)
    requires |texts| == |env.receipt| && EndsIn(texts, r, end) && FrameAt(Concat(texts), o, end)
    requires Holding(texts, s.data, s.currentPacketIdx, o) && s.currentPacketIdx <= r && s.readPacketIdx == s.currentPacketIdx
    requires |s.data| >= MESSAGE_HEADER && !Stopped(s.ctx)
    requires Delivered(env, s.ctx, texts, s.currentPacketIdx + 1, end)
    ensures Look(env, s) == Got(texts, s, o, end, r)
    decreases r - s.currentPacketIdx
  {
    if s.currentPacketIdx == r {
      LookAll(env, texts, s, o, end, r);
    } else {
      var next := LookPart(env, texts, s, o, end, r);
      LookReads(env, texts, next, o, end, r);
    }
  }

  /** The record in which reading begins holds at least the message's header. */
  predicate HeaderWhole(texts: seq<Bytes>, s: State, o: nat) {
    s.currentPacketIdx < |texts| && Start(texts, s.currentPacketIdx + 1) - o >= MESSAGE_HEADER
  }

  /** From where the records are still to be fetched. */
  function ToFetch(s: State): nat {
    if s.data == [] then s.currentPacketIdx else s.currentPacketIdx + 1
  }

  lemma FirstLook(env: Env, texts: seq<Bytes>, s: State, o: nat, end: nat, r: nat) returns (look: State)
    requires At(env, texts, s, o) && EndsIn(texts, r, end) && FrameAt(Concat(texts), o, end)
    requires !Stopped(s.ctx) && Delivered(env, s.ctx, texts, ToFetch(s), end)
    ensures s.currentPacketIdx <= r
    ensures look == s.(readPacketIdx := s.currentPacketIdx, data := look.data)
    ensures Holding(texts, look.data, s.currentPacketIdx, o)
    ensures ReadPacket(env, s, false) == Look(env, look)
  {
    var i := s.currentPacketIdx;
    if r < i {
      StartMonotone(texts, r + 1, i);
      assert false;
    }
    StartMonotone(texts, i, r);
    StartNext(texts, i);
    if s.data == [] {
      assert Fetch(env, s.ctx, i) == Data(texts[i]);
      look := s.(readPacketIdx := i, data := s.data + texts[i]);
    } else {
      look := s.(readPacketIdx := i);
    }
  }

  /**
   With the next message ahead in the stream, however the records cut it, the reader
   returns exactly that message if the record in which reading begins holds the
   message's header, and throws if that record ends within the header.
   */
  lemma ReadsMessage(env: Env, texts: seq<Bytes>, s: State, o: nat, end: nat, r: nat)
    requires At(env, texts, s, o) && EndsIn(texts, r, end) && FrameAt(Concat(texts), o, end)
    requires !Stopped(s.ctx) && Delivered(env, s.ctx, texts, ToFetch(s), end)
    ensures ReadPacket(env, s, false) ==
            if HeaderWhole(texts, s, o) then Got(texts, s, o, end, r) else Threw
    ensures At(env, texts, After(texts, s, o, end, r), end)
  {
    var look := FirstLook(env, texts, s, o, end, r);
    StartNext(texts, s.currentPacketIdx);
    StartNext(texts, r);
    if HeaderWhole(texts, s, o) {
      LookReads(env, texts, look, o, end, r);
      assert After(texts, look, o, end, r) == After(texts, s, o, end, r);
    }
  }

  // ----- records that carry nothing -----

  /** The reader behind the changes of cipher spec in front of it. */
  function Skipped(env: Env, s: State): (t: State)
    ensures s.currentPacketIdx <= |env.receipt| ==> t.currentPacketIdx <= |env.receipt|
    ensures t.raw == s.raw && t.data == s.data
    decreases |env.receipt| - s.currentPacketIdx
  {
    if s.data == [] && s.currentPacketIdx < |env.receipt| && !Stopped(s.ctx)
       && Fetch(env, s.ctx, s.currentPacketIdx) == Skip then
      Skipped(env, s.(readPacketIdx := s.currentPacketIdx, currentPacketIdx := s.currentPacketIdx + 1,
                      ctx := AfterChangeCipherSpec(env, s.ctx, s.currentPacketIdx)))
    else s
  }

  /** A change of cipher spec takes part in the records with no text. */
  predicate NoTextInSkipped(env: Env, texts: seq<Bytes>) {
    && |texts| == |env.receipt|
    && forall i :: 0 <= i < |texts| && IsType(env.receipt[i], CHANGE_CIPHER_SPEC) ==> texts[i] == []
  }

  lemma {:induction false} SkippedReads(env: Env, texts: seq<Bytes>, s: State, o: nat)
    requires NoTextInSkipped(env, texts) && At(env, texts, s, o)
    ensures ReadPacket(env, s, false) == ReadPacket(env, Skipped(env, s), false)
    ensures At(env, texts, Skipped(env, s), o)
    decreases |env.receipt| - s.currentPacketIdx
  {
    var i := s.currentPacketIdx;
    if s.data == [] && i < |env.receipt| && !Stopped(s.ctx) && Fetch(env, s.ctx, i) == Skip {
      StartNext(texts, i);
      SkippedReads(env, texts, s.(readPacketIdx := i, currentPacketIdx := i + 1,
                                  ctx := AfterChangeCipherSpec(env, s.ctx, i)), o);
    }
  }

  /**
   A change of cipher spec between the records of one message costs the record behind
   it: the reader goes on as if neither were there.
   */
  lemma SkippedInsideLosesRecord(env: Env, s: State)
    requires s.currentPacketIdx + 2 < |env.receipt| && !Stopped(s.ctx)
    requires |s.data| >= MESSAGE_HEADER && |s.data| < MESSAGE_HEADER + LowLength(s.data)
    requires Fetch(env, s.ctx, s.currentPacketIdx + 1) == Skip
    ensures var i := s.currentPacketIdx;
            var ctx := AfterChangeCipherSpec(env, s.ctx, i + 1);
            ReadPacket(env, s, false)
            == ReadPacket(env, State(i + 3, i + 2, s.data, s.raw, ctx), true)
  {
    var i := s.currentPacketIdx;
    var ctx := AfterChangeCipherSpec(env, s.ctx, i + 1);
    var first := s.(readPacketIdx := i);
    assert ReadPacket(env, s, false) == Look(env, first);
    assert Look(env, first) == ReadPacket(env, first.(currentPacketIdx := i + 1), true);
    var behind := State(i + 2, i + 1, s.data, s.raw, ctx);
    assert ReadPacket(env, first.(currentPacketIdx := i + 1), true) == ReadPacket(env, behind, false);
    assert ReadPacket(env, behind, false) == Look(env, behind.(readPacketIdx := i + 2));
    assert Look(env, behind.(readPacketIdx := i + 2)) == ReadPacket(env, State(i + 3, i + 2, s.data, s.raw, ctx), true);
  }

  // ----- all messages -----

  datatype Message = Message(kind: Byte, body: Bytes)

  /** Section 4 of RFC 8446: the type, the length in 24 bits, the body. */
  function Encode(m: Message): (e: Bytes)
    requires |m.body| < 0x100_0000
    ensures |e| == MESSAGE_HEADER + |m.body|
  {
    [m.kind, |m.body| / 0x1_0000, |m.body| / 0x100 % 0x100, |m.body| % 0x100] + m.body
  }

  /** Lengths that the reader can tell. */
  predicate Short(m: Message) {
    |m.body| < 0x1_0000
  }

  predicate AllShort(messages: seq<Message>) {
    forall k :: 0 <= k < |messages| ==> Short(messages[k])
  }

  function Encodings(messages: seq<Message>): (es: seq<Bytes>)
    requires AllShort(messages)
    ensures |es| == |messages| && forall k :: 0 <= k < |es| ==> es[k] == Encode(messages[k])
  {
    seq(|messages|, k requires 0 <= k < |messages| => Encode(messages[k]))
  }

  lemma EncodedLength(m: Message, stream: Bytes, o: nat)
    requires |m.body| < 0x100_0000 && o + |Encode(m)| <= |stream| && stream[o..o + |Encode(m)|] == Encode(m)
    ensures LowLength(stream[o..]) == |m.body| % 0x1_0000
    ensures Short(m) ==> FrameAt(stream, o, o + |Encode(m)|) && stream[o] == m.kind
    ensures stream[o + MESSAGE_HEADER..o + |Encode(m)|] == m.body
  {
    var e := stream[o..o + |Encode(m)|];
    assert stream[o..][2] == e[2] && stream[o..][3] == e[3] && stream[o] == e[0];
    assert e[MESSAGE_HEADER..] == m.body;
    var n := |m.body|;
    assert n % 0x1_0000 == n / 0x100 % 0x100 * 0x100 + n % 0x100;
  }

  /** A longer message loses what its length has beyond 16 bits. */
  lemma LongMessageCut(env: Env, texts: seq<Bytes>, s: State, o: nat, m: Message, end: nat, r: nat)
    requires 0x1_0000 <= |m.body| < 0x100_0000
    requires o + |Encode(m)| <= |Concat(texts)| && Concat(texts)[o..o + |Encode(m)|] == Encode(m)
    requires end == o + MESSAGE_HEADER + |m.body| % 0x1_0000 && EndsIn(texts, r, end)
    requires At(env, texts, s, o) && HeaderWhole(texts, s, o)
    requires !Stopped(s.ctx) && Delivered(env, s.ctx, texts, ToFetch(s), end)
    ensures ReadPacket(env, s, false) == Packet(m.kind, m.body[..|m.body| % 0x1_0000], After(texts, s, o, end, r))
  {
    EncodedLength(m, Concat(texts), o);
    ReadsMessage(env, texts, s, o, end, r);
    CutContent(Concat(texts), o, m, end);
  }

  lemma CutContent(stream: Bytes, o: nat, m: Message, end: nat)
    requires |m.body| < 0x100_0000 && o + |Encode(m)| <= |stream| && stream[o..o + |Encode(m)|] == Encode(m)
    requires o + MESSAGE_HEADER <= end <= o + |Encode(m)|
    ensures stream[o] == m.kind && stream[o + MESSAGE_HEADER..end] == m.body[..end - o - MESSAGE_HEADER]
  {
    var e := Encode(m);
    assert stream[o] == e[0];
    SliceOfSlice(stream, o, o + |e|, MESSAGE_HEADER, end - o);
    assert e[MESSAGE_HEADER..end - o] == e[MESSAGE_HEADER..][..end - o - MESSAGE_HEADER];
    assert e[MESSAGE_HEADER..] == m.body;
  }

  /** The state after `k` turns of the loop. */
  function ReadMany(env: Env, s: State, k: nat): Option<State> {
    if k == 0 then Some(s)
    else
      match ReadMany(env, s, k - 1)
      case None => None
      case Some(t) => ReadOne(env, t)
  }

  /** Where message `k` begins in the stream. */
  function Begin(messages: seq<Message>, k: nat): nat
    requires AllShort(messages) && k <= |messages|
  {
    Start(Encodings(messages), k)
  }

  /** The records, all together, carry the messages. */
  predicate Carries(env: Env, texts: seq<Bytes>, messages: seq<Message>) {
    NoTextInSkipped(env, texts) && AllShort(messages) && Concat(texts) == Concat(Encodings(messages))
  }

  /** The reader has not stopped before message `k`, and its records can be decrypted. */
  predicate Readable(env: Env, texts: seq<Bytes>, messages: seq<Message>, s: State, k: nat)
    requires Carries(env, texts, messages) && k < |messages|
  {
    var t := Skipped(env, s);
    !Stopped(t.ctx) && Delivered(env, t.ctx, texts, ToFetch(t), Begin(messages, k + 1))
  }

  lemma MessageInStream(env: Env, texts: seq<Bytes>, messages: seq<Message>, k: nat) returns (r: nat)
    requires Carries(env, texts, messages) && k < |messages|
    ensures Begin(messages, k) + |Encode(messages[k])| == Begin(messages, k + 1) <= |Concat(texts)|
    ensures Concat(texts)[Begin(messages, k)..Begin(messages, k + 1)] == Encode(messages[k])
    ensures FrameAt(Concat(texts), Begin(messages, k), Begin(messages, k + 1))
    ensures EndsIn(texts, r, Begin(messages, k + 1))
  {
    StartNext(Encodings(messages), k);
    EncodedLength(messages[k], Concat(texts), Begin(messages, k));
    BlockReveal.OffsetEnd(texts);
    r := BlockReveal.FindBlock(texts, |texts|, Begin(messages, k + 1) - 1);
    StartNext(texts, r);
  }

  /** One message of many: returned whole, or the reader throws at its header. */
  lemma ReadsNext(env: Env, texts: seq<Bytes>, messages: seq<Message>, s: State, k: nat) returns (r: nat)
    requires Carries(env, texts, messages) && k < |messages|
    requires At(env, texts, s, Begin(messages, k)) && Readable(env, texts, messages, s, k)
    ensures EndsIn(texts, r, Begin(messages, k + 1))
    ensures var t := Skipped(env, s);
            var o, end := Begin(messages, k), Begin(messages, k + 1);
            && o <= end <= |Concat(texts)|
            && At(env, texts, After(texts, t, o, end, r), end)
            && After(texts, t, o, end, r).raw == s.raw + [Encode(messages[k])]
            && ReadPacket(env, s, false) ==
               if HeaderWhole(texts, t, o)
               then Packet(messages[k].kind, messages[k].body, After(texts, t, o, end, r)) else Threw
  {
    var t := Skipped(env, s);
    var o, end := Begin(messages, k), Begin(messages, k + 1);
    SkippedReads(env, texts, s, o);
    r := MessageInStream(env, texts, messages, k);
    ReadsMessage(env, texts, t, o, end, r);
    EncodedLength(messages[k], Concat(texts), o);
  }

  /** What is known after `k` turns. */
  predicate ReadTo(env: Env, texts: seq<Bytes>, messages: seq<Message>, s: State, k: nat)
    requires Carries(env, texts, messages) && k <= |messages|
  {
    At(env, texts, s, Begin(messages, k)) && s.raw == Encodings(messages)[..k]
  }

  lemma NextTurn(env: Env, texts: seq<Bytes>, messages: seq<Message>, s: State, k: nat)
    requires Carries(env, texts, messages) && k < |messages|
    requires ReadTo(env, texts, messages, s, k) && Readable(env, texts, messages, s, k)
    ensures ReadOne(env, s).Some? ==> ReadTo(env, texts, messages, ReadOne(env, s).value, k + 1)
  {
    var r := ReadsNext(env, texts, messages, s, k);
    assert Encodings(messages)[..k + 1] == Encodings(messages)[..k] + [Encode(messages[k])];
  }

  predicate ReadableUpTo(env: Env, texts: seq<Bytes>, messages: seq<Message>, k: nat)
    requires Carries(env, texts, messages) && k <= |messages|
  {
    forall j :: 0 <= j < k && ReadMany(env, INITIAL, j).Some? ==>
      Readable(env, texts, messages, ReadMany(env, INITIAL, j).value, j)
  }

  lemma NothingRead(env: Env, texts: seq<Bytes>, messages: seq<Message>)
    requires Carries(env, texts, messages)
    ensures ReadTo(env, texts, messages, INITIAL, 0)
  {
    BlockReveal.OffsetEnd(texts);
    BlockReveal.OffsetEnd(Encodings(messages));
  }

  /**
   However the messages are coalesced and fragmented: after `k` turns the reader has
   recorded exactly the encodings of the first `k` messages, and used up no more.
   */
  lemma Reassembly(env: Env, texts: seq<Bytes>, messages: seq<Message>, k: nat)
    requires Carries(env, texts, messages) && k <= |messages| && ReadMany(env, INITIAL, k).Some?
    requires ReadableUpTo(env, texts, messages, k)
    ensures ReadTo(env, texts, messages, ReadMany(env, INITIAL, k).value, k)
  {
    NothingRead(env, texts, messages);
    var s := INITIAL;
    for j := 0 to k
      invariant ReadMany(env, INITIAL, j) == Some(s) && ReadTo(env, texts, messages, s, j)
    {
      RecordGrows(env, INITIAL, j + 1, k);
      NextTurn(env, texts, messages, s, j);
      s := ReadOne(env, s).value;
    }
  }

  /** The message is returned as it was sent, with its exact encoding recorded. */
  predicate Returns(messages: seq<Message>, k: nat, r: Outcome)
    requires AllShort(messages) && k < |messages|
  {
    r.Packet? && Message(r.kind, r.content) == messages[k] && r.s.raw == Encodings(messages)[..k + 1]
  }

  lemma ReturnsNext(env: Env, texts: seq<Bytes>, messages: seq<Message>, s: State, k: nat)
    requires Carries(env, texts, messages) && k < |messages|
    requires ReadTo(env, texts, messages, s, k) && Readable(env, texts, messages, s, k)
    ensures if HeaderWhole(texts, Skipped(env, s), Begin(messages, k))
            then Returns(messages, k, ReadPacket(env, s, false)) else ReadPacket(env, s, false) == Threw
  {
    var r := ReadsNext(env, texts, messages, s, k);
    assert Encodings(messages)[..k + 1] == Encodings(messages)[..k] + [Encode(messages[k])];
  }

  /**
   The turn after that returns the next message as it was sent, and records its exact
   encoding, if and only if the record in which it begins holds its whole header; if
   not, reading throws.
   */
  lemma NextMessage(env: Env, texts: seq<Bytes>, messages: seq<Message>, k: nat)
    requires Carries(env, texts, messages) && k < |messages| && ReadMany(env, INITIAL, k).Some?
    requires ReadableUpTo(env, texts, messages, k + 1)
    ensures var s := ReadMany(env, INITIAL, k).value;
            && (HeaderWhole(texts, Skipped(env, s), Begin(messages, k)) <==> Returns(messages, k, ReadPacket(env, s, false)))
            && (!HeaderWhole(texts, Skipped(env, s), Begin(messages, k)) <==> ReadPacket(env, s, false) == Threw)
  {
    Reassembly(env, texts, messages, k);
    ReturnsNext(env, texts, messages, ReadMany(env, INITIAL, k).value, k);
  }

  /** After `k` turns the reader has no more to return. */
  predicate EndsAfter(env: Env, s: State, k: nat) {
    ReadMany(env, s, k).Some? && ReadPacket(env, ReadMany(env, s, k).value, false).Done?
  }

  lemma {:induction false} TurnFirst(env: Env, s: State, k: nat)
    requires ReadOne(env, s).Some?
    ensures ReadMany(env, s, k + 1) == ReadMany(env, ReadOne(env, s).value, k)
    decreases k
  {
    if k > 0 {
      TurnFirst(env, s, k - 1);
    }
  }

  /** The loop goes through the states after its turns, and stops with the last of them. */
  lemma {:induction false} RunTurns(env: Env, s: State) returns (k: nat)
    requires Run(env, s).Ended?
    ensures EndsAfter(env, s, k) && Run(env, s).s.raw == ReadMany(env, s, k).value.raw
    decreases |env.receipt| - s.currentPacketIdx, if s.data == [] then 1 else 0, |s.data|
  {
    PacketIsFrame(env, s, false);
    if s.currentPacketIdx <= |env.receipt| && ReadPacket(env, s, false).Packet? {
      var next := ReadOne(env, s).value;
      k := RunTurns(env, next);
      TurnFirst(env, s, k);
      k := k + 1;
    } else {
      k := 0;
    }
  }

  /** What is recorded is never taken back. */
  lemma {:induction false} RecordGrows(env: Env, s: State, j: nat, k: nat)
    requires j <= k && ReadMany(env, s, k).Some?
    ensures ReadMany(env, s, j).Some? && ReadMany(env, s, j).value.raw <= ReadMany(env, s, k).value.raw
    decreases k
  {
    if j < k {
      RecordGrows(env, s, j, k - 1);
      PacketIsFrame(env, ReadMany(env, s, k - 1).value, false);
    }
  }

  /**
   A loop that ends has recorded exactly the encodings of the messages it took turns for,
   in order; and the encodings of all messages first, if it took more turns than that.
   */
  lemma RunRecords(env: Env, texts: seq<Bytes>, messages: seq<Message>) returns (k: nat)
    requires Carries(env, texts, messages) && Run(env, INITIAL).Ended?
    ensures EndsAfter(env, INITIAL, k)
    ensures ReadableUpTo(env, texts, messages, TurnsFor(messages, k)) ==>
              var raw := Run(env, INITIAL).s.raw;
              if k <= |messages| then raw == Encodings(messages)[..k] else Encodings(messages) <= raw
  {
    k := RunTurns(env, INITIAL);
    var turns := TurnsFor(messages, k);
    if ReadableUpTo(env, texts, messages, turns) {
      RecordGrows(env, INITIAL, turns, k);
      Reassembly(env, texts, messages, turns);
      assert Encodings(messages)[..|messages|] == Encodings(messages);
    }
  }

  /** The turns among the first `k` that are for one of the messages. */
  function TurnsFor(messages: seq<Message>, k: nat): (turns: nat)
    ensures turns <= |messages| && turns <= k
  {
    if k <= |messages| then k else |messages|
  }

  // ----- what holds of every run -----

  /** A message as recorded: its length is the one in its header. */
  predicate IsFrame(m: Bytes) {
    |m| >= MESSAGE_HEADER && |m| == MESSAGE_HEADER + LowLength(m)
  }

  /** The context but for the changes of cipher spec seen. */
  function Settled(ctx: Context): Context {
    ctx.(clientChangeCipherSpecMsgIdx := -1, serverChangeCipherSpecMsgIdx := -1)
  }

  predicate ReadsOneMore(s: State, r: Outcome) {
    r.Packet? ==>
      && |r.s.raw| == |s.raw| + 1 && s.raw <= r.s.raw
      && var m := r.s.raw[|s.raw|];
         IsFrame(m) && r.kind == m[0] && r.content == m[MESSAGE_HEADER..] && Settled(r.s.ctx) == Settled(s.ctx)
  }

  lemma {:induction false} PacketIsFrame(env: Env, s: State, getMoreData: bool)
    ensures ReadsOneMore(s, ReadPacket(env, s, getMoreData))
    ensures ReadPacket(env, s, getMoreData).Done? ==>
              var t := ReadPacket(env, s, getMoreData).s; t.raw == s.raw && Settled(t.ctx) == Settled(s.ctx)
    decreases |env.receipt| - s.currentPacketIdx, 1
  {
    if s.currentPacketIdx < |env.receipt| && !Stopped(s.ctx) {
      var i, here := s.currentPacketIdx, s.(readPacketIdx := s.currentPacketIdx);
      if s.data == [] || getMoreData {
        match Fetch(env, s.ctx, i)
        case Skip =>
          PacketIsFrame(env, here.(currentPacketIdx := i + 1, ctx := AfterChangeCipherSpec(env, s.ctx, i)), false);
        case Data(bytes) => LookIsFrame(env, here.(data := s.data + bytes));
        case Fails =>
      } else {
        LookIsFrame(env, here);
      }
    }
  }

  lemma {:induction false} LookIsFrame(env: Env, s: State)
    requires s.currentPacketIdx < |env.receipt|
    ensures ReadsOneMore(s, Look(env, s))
    ensures Look(env, s).Done? ==> Look(env, s).s.raw == s.raw && Settled(Look(env, s).s.ctx) == Settled(s.ctx)
    decreases |env.receipt| - s.currentPacketIdx, 0
  {
    if |s.data| >= MESSAGE_HEADER {
      var total := MESSAGE_HEADER + LowLength(s.data);
      if |s.data| < total {
        PacketIsFrame(env, s.(currentPacketIdx := s.currentPacketIdx + 1), true);
      } else {
        var m := s.data[..total];
        assert m[2] == s.data[2] && m[3] == s.data[3];
        assert m[MESSAGE_HEADER..] == s.data[MESSAGE_HEADER..total];
      }
    }
  }

  // ----- what the recorded messages say -----

  predicate IsKind(m: Bytes, kind: Byte) {
    m != [] && m[0] == kind
  }

  /** The last server hello among the messages. */
  function HelloOf(env: Env, raw: seq<Bytes>): Option<ServerHello> {
    if raw == [] then None
    else
      var n := |raw| - 1;
      if IsKind(raw[n], SERVER_HELLO) then env.serverHello(Behind(raw[n], MESSAGE_HEADER)) else HelloOf(env, raw[..n])
  }

  function VersionOf(env: Env, raw: seq<Bytes>): Option<Version> {
    var hello := HelloOf(env, raw);
    if hello.Some? then Some(hello.value.version) else None
  }

  function SuiteOf(env: Env, raw: seq<Bytes>): Option<nat> {
    var hello := HelloOf(env, raw);
    if hello.Some? then Some(hello.value.suite) else None
  }

  function ServerRandomOf(env: Env, raw: seq<Bytes>): Option<Bytes> {
    var hello := HelloOf(env, raw);
    if hello.Some? then Some(hello.value.random) else None
  }

  /** The certificates of all certificate messages, each read in the version known by then. */
  function CertificatesOf(env: Env, raw: seq<Bytes>): seq<Bytes> {
    if raw == [] then []
    else
      var n := |raw| - 1;
      var read := env.certificates(Behind(raw[n], MESSAGE_HEADER), VersionOf(env, raw[..n]));
      CertificatesOf(env, raw[..n]) + if IsKind(raw[n], CERTIFICATE) && read.Some? then read.value else []
  }

  /** A client hello is among the messages. */
  predicate Greeted(raw: seq<Bytes>) {
    exists k :: 0 <= k < |raw| && IsKind(raw[k], CLIENT_HELLO)
  }

  /** What the program takes for the client hello: the first message, once there is one. */
  function GreetingOf(env: Env, raw: seq<Bytes>): Option<ClientHello> {
    if Greeted(raw) then env.clientHello(raw[0]) else None
  }

  function HostnameOf(env: Env, raw: seq<Bytes>): Option<Bytes> {
    var hello := GreetingOf(env, raw);
    if hello.Some? then hello.value.serverName else None
  }

  function ClientRandomOf(env: Env, raw: seq<Bytes>): Option<Bytes> {
    var hello := GreetingOf(env, raw);
    if hello.Some? then Some(hello.value.random) else None
  }

  /** The server name in the client hello, if there is one, is not empty. */
  predicate Named(env: Env, raw: seq<Bytes>) {
    Greeted(raw) ==>
      var name := HostnameOf(env, raw); name.Some? && name.value != []
  }

  /** The context is what the recorded messages say. */
  predicate Told(env: Env, s: State) {
    && s.ctx.tlsVersion == VersionOf(env, s.raw) && s.ctx.cipherSuite == SuiteOf(env, s.raw)
    && s.ctx.serverRandom == ServerRandomOf(env, s.raw) && s.ctx.clientRandom == ClientRandomOf(env, s.raw)
    && s.ctx.certificates == CertificatesOf(env, s.raw) && s.ctx.hostname == HostnameOf(env, s.raw)
    && Named(env, s.raw)
  }

  predicate IsProof(m: Bytes) {
    IsKind(m, CERTIFICATE_VERIFY) || IsKind(m, SERVER_KEY_SHARE)
  }

  /** The first of the certificates signed the message: over all messages before it, or as a key share. */
  predicate Signed(env: Env, before: seq<Bytes>, m: Bytes, certificate: Bytes) {
    if IsKind(m, CERTIFICATE_VERIFY) then
      env.certificateVerify(Behind(m, MESSAGE_HEADER), before, SuiteOf(env, before), certificate)
    else
      env.keyShare(Behind(m, MESSAGE_HEADER), ClientRandomOf(env, before), ServerRandomOf(env, before), certificate)
  }

  /**
   The certificates in the messages before `k` chain up for the server name in them, and
   the first one signed message `k`.
   */
  predicate Checked(env: Env, raw: seq<Bytes>, k: nat)
    requires k < |raw|
  {
    var before := raw[..k];
    var certificates := CertificatesOf(env, before);
    certificates != [] && Signed(env, before, raw[k], certificates[0]) && env.chain(certificates, HostnameOf(env, before))
  }

  /** The first `n` messages: every signature among them was checked, and `verified` says if there is one. */
  predicate Vouched(env: Env, raw: seq<Bytes>, verified: bool) {
    && (forall k :: 0 <= k < |raw| && IsProof(raw[k]) ==> Checked(env, raw, k))
    && (verified <==> exists k :: 0 <= k < |raw| && IsProof(raw[k]))
  }

  predicate Sound(env: Env, s: State) {
    && Told(env, s) && Vouched(env, s.raw, s.ctx.certVerified)
    && forall k :: 0 <= k < |s.raw| ==> IsFrame(s.raw[k])
  }

  lemma HelloSnoc(env: Env, raw: seq<Bytes>, m: Bytes)
    ensures HelloOf(env, raw + [m]) ==
            if IsKind(m, SERVER_HELLO) then env.serverHello(Behind(m, MESSAGE_HEADER)) else HelloOf(env, raw)
  {
    assert (raw + [m])[..|raw|] == raw;
  }

  /** What a message adds to the certificates. */
  function CertificatesIn(env: Env, version: Option<Version>, m: Bytes): seq<Bytes> {
    var read := env.certificates(Behind(m, MESSAGE_HEADER), version);
    if IsKind(m, CERTIFICATE) && read.Some? then read.value else []
  }

  lemma CertificatesSnoc(env: Env, raw: seq<Bytes>, m: Bytes)
    ensures CertificatesOf(env, raw + [m]) == CertificatesOf(env, raw) + CertificatesIn(env, VersionOf(env, raw), m)
  {
    assert (raw + [m])[..|raw|] == raw;
  }

  lemma GreetedSnoc(raw: seq<Bytes>, m: Bytes)
    ensures Greeted(raw + [m]) <==> Greeted(raw) || IsKind(m, CLIENT_HELLO)
  {
    if k :| 0 <= k < |raw| && IsKind(raw[k], CLIENT_HELLO) {
      assert IsKind((raw + [m])[k], CLIENT_HELLO);
    }
    assert (raw + [m])[|raw|] == m;
  }

  /** What a message does to the parts of the context that messages establish. */
  lemma DispatchHello(env: Env, t: State, m: Bytes, ctx: Context)
    requires t.raw != [] && t.readPacketIdx < |env.receipt| && IsFrame(m)
    requires Dispatch(env, t, m[0], m[MESSAGE_HEADER..]) == Some(ctx)
    ensures if IsKind(m, SERVER_HELLO) then
              var hello := env.serverHello(Behind(m, MESSAGE_HEADER));
              && hello.Some? && ctx.tlsVersion == Some(hello.value.version)
              && ctx.cipherSuite == Some(hello.value.suite) && ctx.serverRandom == Some(hello.value.random)
            else
              && ctx.tlsVersion == t.ctx.tlsVersion && ctx.cipherSuite == t.ctx.cipherSuite
              && ctx.serverRandom == t.ctx.serverRandom
  {
  }

  lemma DispatchCertificates(env: Env, t: State, m: Bytes, ctx: Context)
    requires t.raw != [] && t.readPacketIdx < |env.receipt| && IsFrame(m)
    requires Dispatch(env, t, m[0], m[MESSAGE_HEADER..]) == Some(ctx)
    ensures ctx.certificates == t.ctx.certificates + CertificatesIn(env, t.ctx.tlsVersion, m)
  {
  }

  lemma DispatchGreeting(env: Env, t: State, m: Bytes, ctx: Context)
    requires t.raw != [] && t.readPacketIdx < |env.receipt| && IsFrame(m)
    requires Dispatch(env, t, m[0], m[MESSAGE_HEADER..]) == Some(ctx)
    ensures if IsKind(m, CLIENT_HELLO) then
              var hello := env.clientHello(t.raw[0]);
              && hello.Some? && ctx.clientRandom == Some(hello.value.random) && ctx.hostname == hello.value.serverName
              && ctx.hostname.Some? && ctx.hostname.value != []
            else ctx.clientRandom == t.ctx.clientRandom && ctx.hostname == t.ctx.hostname
  {
  }

  lemma GreetingTold(env: Env, s: State, t: State, m: Bytes, ctx: Context)
    requires s.ctx.clientRandom == ClientRandomOf(env, s.raw) && s.ctx.hostname == HostnameOf(env, s.raw)
    requires Named(env, s.raw) && t.raw == s.raw + [m] && IsFrame(m) && t.readPacketIdx < |env.receipt|
    requires Settled(t.ctx) == Settled(s.ctx)
    requires Dispatch(env, t, m[0], m[MESSAGE_HEADER..]) == Some(ctx)
    ensures ctx.clientRandom == ClientRandomOf(env, t.raw) && ctx.hostname == HostnameOf(env, t.raw)
    ensures Named(env, t.raw)
  {
    DispatchGreeting(env, t, m, ctx);
    GreetedSnoc(s.raw, m);
    if Greeted(s.raw) {
      assert s.raw != [] && t.raw[0] == s.raw[0];
    }
  }

  lemma TellsOn(env: Env, s: State, t: State, m: Bytes, ctx: Context)
    requires Told(env, s) && t.raw == s.raw + [m] && IsFrame(m) && t.readPacketIdx < |env.receipt|
    requires Settled(t.ctx) == Settled(s.ctx)
    requires Dispatch(env, t, m[0], m[MESSAGE_HEADER..]) == Some(ctx)
    ensures Told(env, t.(ctx := ctx))
  {
    HelloSnoc(env, s.raw, m);
    DispatchHello(env, t, m, ctx);
    CertificatesSnoc(env, s.raw, m);
    DispatchCertificates(env, t, m, ctx);
    GreetingTold(env, s, t, m, ctx);
  }

  lemma CheckedLater(env: Env, raw: seq<Bytes>, m: Bytes, k: nat)
    requires k < |raw|
    ensures Checked(env, raw + [m], k) == Checked(env, raw, k)
  {
    assert (raw + [m])[..k] == raw[..k];
  }

  /** A signature is verified or refused, and nothing else verifies. */
  lemma DispatchProof(env: Env, t: State, m: Bytes, ctx: Context)
    requires t.raw != [] && t.readPacketIdx < |env.receipt| && IsFrame(m)
    requires Dispatch(env, t, m[0], m[MESSAGE_HEADER..]) == Some(ctx)
    ensures ctx.certVerified <==> t.ctx.certVerified || IsProof(m)
    ensures IsProof(m) ==>
              && t.ctx.certificates != [] && env.chain(t.ctx.certificates, t.ctx.hostname)
              && if IsKind(m, CERTIFICATE_VERIFY) then
                   env.certificateVerify(Behind(m, MESSAGE_HEADER), t.raw[..|t.raw| - 1], t.ctx.cipherSuite,
                                         t.ctx.certificates[0])
                 else
                   env.keyShare(Behind(m, MESSAGE_HEADER), t.ctx.clientRandom, t.ctx.serverRandom, t.ctx.certificates[0])
  {
  }

  lemma LastChecked(env: Env, s: State, t: State, m: Bytes, ctx: Context)
    requires Told(env, s) && t.raw == s.raw + [m] && IsFrame(m) && t.readPacketIdx < |env.receipt|
    requires Settled(t.ctx) == Settled(s.ctx) && IsProof(m)
    requires Dispatch(env, t, m[0], m[MESSAGE_HEADER..]) == Some(ctx)
    ensures Checked(env, t.raw, |s.raw|)
  {
    DispatchProof(env, t, m, ctx);
    assert t.raw[..|s.raw|] == s.raw == t.raw[..|t.raw| - 1];
  }

  lemma ProofsSnoc(raw: seq<Bytes>, m: Bytes)
    ensures (exists k :: 0 <= k < |raw + [m]| && IsProof((raw + [m])[k])) <==>
            (exists k :: 0 <= k < |raw| && IsProof(raw[k])) || IsProof(m)
  {
    var more := raw + [m];
    if k :| 0 <= k < |raw| && IsProof(raw[k]) {
      assert IsProof(more[k]);
    }
    if IsProof(m) {
      assert IsProof(more[|raw|]);
    }
  }

  lemma VouchesOn(env: Env, s: State, t: State, m: Bytes, ctx: Context)
    requires Told(env, s) && Vouched(env, s.raw, s.ctx.certVerified)
    requires t.raw == s.raw + [m] && IsFrame(m) && t.readPacketIdx < |env.receipt|
    requires Settled(t.ctx) == Settled(s.ctx)
    requires Dispatch(env, t, m[0], m[MESSAGE_HEADER..]) == Some(ctx)
    ensures Vouched(env, t.raw, ctx.certVerified)
  {
    DispatchProof(env, t, m, ctx);
    ProofsSnoc(s.raw, m);
    forall k | 0 <= k < |t.raw| && IsProof(t.raw[k])
      ensures Checked(env, t.raw, k)
    {
      if k < |s.raw| {
        CheckedLater(env, s.raw, m, k);
      } else {
        LastChecked(env, s, t, m, ctx);
      }
    }
  }

  lemma FramesOn(raw: seq<Bytes>, m: Bytes)
    requires IsFrame(m) && forall k :: 0 <= k < |raw| ==> IsFrame(raw[k])
    ensures forall k :: 0 <= k < |raw + [m]| ==> IsFrame((raw + [m])[k])
  {
  }

  lemma TurnIs(env: Env, s: State) returns (t: State, m: Bytes, ctx: Context)
    requires ReadOne(env, s).Some?
    ensures t.raw == s.raw + [m] && IsFrame(m) && t.readPacketIdx < |env.receipt| && Settled(t.ctx) == Settled(s.ctx)
    ensures Dispatch(env, t, m[0], m[MESSAGE_HEADER..]) == Some(ctx) && ReadOne(env, s) == Some(t.(ctx := ctx))
  {
    PacketIsFrame(env, s, false);
    ReadIdx(env, s, false);
    t := ReadPacket(env, s, false).s;
    m := t.raw[|s.raw|];
    ctx := ReadOne(env, s).value.ctx;
  }

  /** Every turn keeps it. */
  lemma TurnKeeps(env: Env, s: State)
    requires Sound(env, s) && ReadOne(env, s).Some?
    ensures Sound(env, ReadOne(env, s).value)
  {
    var t, m, ctx := TurnIs(env, s);
    TellsOn(env, s, t, m, ctx);
    VouchesOn(env, s, t, m, ctx);
    FramesOn(s.raw, m);
  }

  // ----- where the finished messages and the changes of cipher spec are -----

  /** The messages come from records of the transcript, one behind the other. */
  predicate Placed(env: Env, raw: seq<Bytes>, at: seq<nat>) {
    && |at| == |raw|
    && (forall k :: 0 <= k < |at| ==> at[k] < |env.receipt|)
    && (forall j, k :: 0 <= j <= k < |at| ==> at[j] <= at[k])
  }

  /** The record of the sender's last finished message among the first `n`; -1 without one. */
  function FinishedAt(env: Env, raw: seq<Bytes>, at: seq<nat>, sender: Sender, n: nat): (i: int)
    requires Placed(env, raw, at) && n <= |raw|
    ensures -1 <= i && (n > 0 ==> i <= at[n - 1])
  {
    if n == 0 then -1
    else if IsKind(raw[n - 1], FINISHED) && env.receipt[at[n - 1]].sender == sender then at[n - 1]
    else FinishedAt(env, raw, at, sender, n - 1)
  }

  /** One more than the record of the last finished message among the first `n`; 0 without one. */
  function BehindFinished(raw: seq<Bytes>, at: seq<nat>, n: nat): nat
    requires n <= |raw| == |at|
  {
    if n == 0 then 0
    else if IsKind(raw[n - 1], FINISHED) then at[n - 1] + 1
    else BehindFinished(raw, at, n - 1)
  }

  lemma {:induction false} BehindBoth(env: Env, raw: seq<Bytes>, at: seq<nat>, n: nat)
    requires Placed(env, raw, at) && n <= |raw|
    ensures BehindFinished(raw, at, n)
            == 1 + var c, s := FinishedAt(env, raw, at, Client, n), FinishedAt(env, raw, at, Server, n); if s >= c then s else c
  {
    if n > 0 {
      BehindBoth(env, raw, at, n - 1);
    }
  }

  lemma {:induction false} FinishedPrefix(env: Env, raw: seq<Bytes>, at: seq<nat>, m: Bytes, i: nat, sender: Sender, n: nat)
    requires Placed(env, raw, at) && Placed(env, raw + [m], at + [i]) && n <= |raw|
    ensures FinishedAt(env, raw + [m], at + [i], sender, n) == FinishedAt(env, raw, at, sender, n)
  {
    if n > 0 {
      FinishedPrefix(env, raw, at, m, i, sender, n - 1);
    }
  }

  predicate IsChange(env: Env, i: int, sender: Sender) {
    0 <= i < |env.receipt| && IsType(env.receipt[i], CHANGE_CIPHER_SPEC) && env.receipt[i].sender == sender
  }

  predicate ChangesSeen(env: Env, ctx: Context) {
    && (ctx.clientChangeCipherSpecMsgIdx < 0 || IsChange(env, ctx.clientChangeCipherSpecMsgIdx, Client))
    && (ctx.serverChangeCipherSpecMsgIdx < 0 || IsChange(env, ctx.serverChangeCipherSpecMsgIdx, Server))
  }

  /** The context knows the records of the finished messages. */
  predicate Tracked(env: Env, s: State, at: seq<nat>) {
    && Placed(env, s.raw, at) && (forall k :: 0 <= k < |at| ==> at[k] <= s.currentPacketIdx)
    && s.ctx.clientFinishedIdx == FinishedAt(env, s.raw, at, Client, |s.raw|)
    && s.ctx.serverFinishedIdx == FinishedAt(env, s.raw, at, Server, |s.raw|)
  }

  /** Reading goes on in the transcript, and only sees changes of cipher spec there. */
  predicate ReadsOn(env: Env, s: State, r: Outcome) {
    && (r.Packet? ==> s.currentPacketIdx <= r.s.readPacketIdx <= r.s.currentPacketIdx && ChangesSeen(env, r.s.ctx))
    && (r.Done? ==> s.currentPacketIdx <= r.s.currentPacketIdx && ChangesSeen(env, r.s.ctx))
  }

  lemma {:induction false} PacketReadsOn(env: Env, s: State, getMoreData: bool)
    requires ChangesSeen(env, s.ctx)
    ensures ReadsOn(env, s, ReadPacket(env, s, getMoreData))
    decreases |env.receipt| - s.currentPacketIdx, 1
  {
    if s.currentPacketIdx < |env.receipt| && !Stopped(s.ctx) {
      var i, here := s.currentPacketIdx, s.(readPacketIdx := s.currentPacketIdx);
      if s.data == [] || getMoreData {
        match Fetch(env, s.ctx, i)
        case Skip =>
          PacketReadsOn(env, here.(currentPacketIdx := i + 1, ctx := AfterChangeCipherSpec(env, s.ctx, i)), false);
        case Data(bytes) => LookReadsOn(env, here.(data := s.data + bytes));
        case Fails =>
      } else {
        LookReadsOn(env, here);
      }
    }
  }

  lemma {:induction false} LookReadsOn(env: Env, s: State)
    requires s.currentPacketIdx < |env.receipt| && s.readPacketIdx == s.currentPacketIdx && ChangesSeen(env, s.ctx)
    ensures ReadsOn(env, s, Look(env, s))
    decreases |env.receipt| - s.currentPacketIdx, 0
  {
    if |s.data| >= MESSAGE_HEADER && |s.data| < MESSAGE_HEADER + LowLength(s.data) {
      PacketReadsOn(env, s.(currentPacketIdx := s.currentPacketIdx + 1), true);
    }
  }

  lemma DispatchFinished(env: Env, t: State, m: Bytes, ctx: Context)
    requires t.raw != [] && t.readPacketIdx < |env.receipt| && IsFrame(m)
    requires Dispatch(env, t, m[0], m[MESSAGE_HEADER..]) == Some(ctx)
    ensures var sender := env.receipt[t.readPacketIdx].sender;
            && ctx.clientFinishedIdx == (if IsKind(m, FINISHED) && sender == Client then t.readPacketIdx else t.ctx.clientFinishedIdx)
            && ctx.serverFinishedIdx == (if IsKind(m, FINISHED) && sender == Server then t.readPacketIdx else t.ctx.serverFinishedIdx)
    ensures ctx.clientChangeCipherSpecMsgIdx == t.ctx.clientChangeCipherSpecMsgIdx
    ensures ctx.serverChangeCipherSpecMsgIdx == t.ctx.serverChangeCipherSpecMsgIdx
  {
  }

  lemma TurnTracks(env: Env, s: State, at: seq<nat>) returns (more: seq<nat>)
    requires Tracked(env, s, at) && ChangesSeen(env, s.ctx) && ReadOne(env, s).Some?
    ensures Tracked(env, ReadOne(env, s).value, more) && ChangesSeen(env, ReadOne(env, s).value.ctx)
    ensures at <= more
  {
    var t, m, ctx := TurnIs(env, s);
    PacketReadsOn(env, s, false);
    DispatchFinished(env, t, m, ctx);
    more := at + [t.readPacketIdx];
    FinishedPrefix(env, s.raw, at, m, t.readPacketIdx, Client, |at|);
    FinishedPrefix(env, s.raw, at, m, t.readPacketIdx, Server, |at|);
  }

  lemma {:induction false} RunTracked(env: Env, s: State, at: seq<nat>) returns (all: seq<nat>)
    requires Tracked(env, s, at) && ChangesSeen(env, s.ctx) && Run(env, s).Ended?
    ensures Tracked(env, Run(env, s).s, all) && ChangesSeen(env, Run(env, s).s.ctx)
    decreases |env.receipt| - s.currentPacketIdx, if s.data == [] then 1 else 0, |s.data|
  {
    all := at;
    if s.currentPacketIdx <= |env.receipt| {
      PacketIsFrame(env, s, false);
      PacketReadsOn(env, s, false);
      if ReadPacket(env, s, false).Packet? && ReadOne(env, s).Some? {
        all := TurnTracks(env, s, at);
        all := RunTracked(env, ReadOne(env, s).value, all);
      }
    }
  }

  /**
   A transcript is accepted only if one of its recorded messages is signed by the first of
   the certificates in the messages before it, and these chain up for the server name
   returned, or for no name if no client hello stood before the signature. Every such
   message was checked, and what is returned is what the messages say. The next message is
   the one behind the record of the last finished message; in TLS 1.3 one is the server's,
   and in TLS 1.2 both sides have changed the cipher spec.
   */
  lemma AcceptedSound(env: Env, v: Processed) returns (raw: seq<Bytes>, at: seq<nat>, k: nat)
    requires Verdict(Run(env, INITIAL)) == Some(v)
    ensures Run(env, INITIAL).Ended? && raw == Run(env, INITIAL).s.raw
    ensures k < |raw| && IsProof(raw[k])
    ensures forall i :: 0 <= i < |raw| && IsProof(raw[i]) ==>
              && Checked(env, raw, i)
              && (env.chain(CertificatesOf(env, raw[..i]), v.hostname) || !Greeted(raw[..i]))
    ensures v.hostname == HostnameOf(env, raw) && v.tlsVersion == VersionOf(env, raw) && v.cipherSuite == SuiteOf(env, raw)
    ensures Greeted(raw) ==> v.hostname.Some? && v.hostname.value != []
    ensures Placed(env, raw, at) && v.nextMsgIndex == BehindFinished(raw, at, |raw|)
    ensures v.tlsVersion == Some(TLS1_3) ==>
              exists i :: 0 <= i < |raw| && IsKind(raw[i], FINISHED) && env.receipt[at[i]].sender == Server
    ensures v.tlsVersion == Some(TLS1_2) ==> (exists i :: IsChange(env, i, Client)) && exists i :: IsChange(env, i, Server)
  {
    RunSound(env, INITIAL);
    at := RunTracked(env, INITIAL, []);
    var s := Run(env, INITIAL).s;
    raw := s.raw;
    BehindBoth(env, raw, at, |raw|);
    if FinishedAt(env, raw, at, Server, |raw|) >= 0 {
      FinishedExists(env, raw, at, Server, |raw|);
    }
    k :| 0 <= k < |raw| && IsProof(raw[k]);
    forall i | 0 <= i < |raw| && IsProof(raw[i])
      ensures env.chain(CertificatesOf(env, raw[..i]), v.hostname) || !Greeted(raw[..i])
    {
      assert Checked(env, raw, i);
      if Greeted(raw[..i]) {
        SameName(env, raw, i);
      }
    }
  }

  lemma {:induction false} FinishedExists(env: Env, raw: seq<Bytes>, at: seq<nat>, sender: Sender, n: nat)
    requires Placed(env, raw, at) && n <= |raw|
    ensures FinishedAt(env, raw, at, sender, n) >= 0 <==>
            exists i :: 0 <= i < n && IsKind(raw[i], FINISHED) && env.receipt[at[i]].sender == sender
  {
    if n > 0 {
      FinishedExists(env, raw, at, sender, n - 1);
    }
  }

  /** A client hello before the signature names the same server as the whole transcript. */
  lemma SameName(env: Env, raw: seq<Bytes>, i: nat)
    requires i <= |raw| && Greeted(raw[..i])
    ensures HostnameOf(env, raw[..i]) == HostnameOf(env, raw)
  {
    var j :| 0 <= j < i && IsKind(raw[..i][j], CLIENT_HELLO);
    assert IsKind(raw[j], CLIENT_HELLO) && raw[..i][0] == raw[0];
  }

  lemma {:induction false} RunSound(env: Env, s: State)
    requires Sound(env, s) && Run(env, s).Ended?
    ensures Sound(env, Run(env, s).s)
    decreases |env.receipt| - s.currentPacketIdx, if s.data == [] then 1 else 0, |s.data|
  {
    if s.currentPacketIdx <= |env.receipt| {
      PacketIsFrame(env, s, false);
      var p := ReadPacket(env, s, false);
      if p.Packet? && ReadOne(env, s).Some? {
        TurnKeeps(env, s);
        RunSound(env, ReadOne(env, s).value);
      }
    }
  }

  // ----- a signature before any client hello -----

  /** A record of type 22 with an empty certificate message and an empty signature behind it. */
  const NAMELESS: Bytes := [22, 3, 3, 0, 8, CERTIFICATE, 0, 0, 0, CERTIFICATE_VERIFY, 0, 0, 0]

  /** One certificate, which chains up if no server is named, and for no server that is. */
  function NamelessEnv(): Env {
    Env([Record(Client, NAMELESS, None)],
        (key, suite, header, version, content) => None,
        hello => None, hello => None,
        (content, version) => Some([[1]]),
        (content, messages, suite, certificate) => true,
        (content, client, server, certificate) => false,
        (certificates, name) => name == None)
  }

  const CERTIFICATE_BYTES: Bytes := [CERTIFICATE, 0, 0, 0]
  const SIGNATURE_BYTES: Bytes := [CERTIFICATE_VERIFY, 0, 0, 0]

  /** The state with the certificate read, and with the signature read. */
  const WITH_CERTIFICATE: State :=
    State(0, 0, SIGNATURE_BYTES, [CERTIFICATE_BYTES], INITIAL.ctx.(certificates := [[1]]))
  const WITH_SIGNATURE: State :=
    State(1, 0, [], [CERTIFICATE_BYTES, SIGNATURE_BYTES], WITH_CERTIFICATE.ctx.(certVerified := true))

  lemma NamelessFetched()
    ensures Fetch(NamelessEnv(), INITIAL.ctx, 0) == Data(CERTIFICATE_BYTES + SIGNATURE_BYTES)
  {
    assert Behind(NAMELESS, RECORD_HEADER) == CERTIFICATE_BYTES + SIGNATURE_BYTES;
  }

  lemma CertificateLook(env: Env, s: State, rest: Bytes)
    requires s.currentPacketIdx < |env.receipt| && s.data == CERTIFICATE_BYTES + rest && s.raw == []
    requires rest != []
    ensures Look(env, s) == Packet(CERTIFICATE, [], s.(raw := [CERTIFICATE_BYTES], data := rest))
  {
    assert s.data[..4] == CERTIFICATE_BYTES && s.data[4..] == rest && s.data[4..4] == [];
    assert [] + [CERTIFICATE_BYTES] == [CERTIFICATE_BYTES];
  }

  lemma CertificateTurn()
    ensures ReadOne(NamelessEnv(), INITIAL) == Some(WITH_CERTIFICATE)
  {
    var both := CERTIFICATE_BYTES + SIGNATURE_BYTES;
    NamelessFetched();
    assert [] + both == both && [] + [[1]] == [[1]];
    CertificateLook(NamelessEnv(), INITIAL.(data := both), SIGNATURE_BYTES);
  }

  lemma SignatureTurn()
    ensures ReadOne(NamelessEnv(), WITH_CERTIFICATE) == Some(WITH_SIGNATURE)
  {
    var data := SIGNATURE_BYTES;
    assert data[..4] == data && data[4..] == [] && data[4..4] == [] && LowLength(data) == 0;
    assert [CERTIFICATE_BYTES] + [data] == [CERTIFICATE_BYTES, data];
    assert ReadPacket(NamelessEnv(), WITH_CERTIFICATE, false) == Look(NamelessEnv(), WITH_CERTIFICATE);
    assert [CERTIFICATE_BYTES, data][..1] == [CERTIFICATE_BYTES];
  }

  /** It is accepted, with no server name, version or suite, though the chain holds for no server. */
  lemma NamelessAccepted()
    ensures var env := NamelessEnv();
            && (forall certificates, name :: !env.chain(certificates, Some(name)))
            && Verdict(Run(env, INITIAL)) == Some(Processed(None, None, None, 0))
  {
    var env := NamelessEnv();
    CertificateTurn();
    SignatureTurn();
    assert Run(env, INITIAL) == Run(env, WITH_CERTIFICATE) == Run(env, WITH_SIGNATURE);
    assert ReadPacket(env, WITH_SIGNATURE, false) == Done(WITH_SIGNATURE);
  }
}
