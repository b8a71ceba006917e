/**
 What becomes of a transcript whose handshake records can be opened: accepted or refused,
 told from the records and from the messages they carry.
 */
module HandshakeVerdict {
  import opened ByteData
  import opened Handshake
  import opened HandshakeReading
  import BlockReveal

  // ----- records that can be opened -----

  /** A record is sealed that says so, or whose sender changed the cipher spec before, though not in the first record. */
  predicate Sealed(env: Env, i: nat)
    requires i < |env.receipt|
  {
    IsType(env.receipt[i], WRAPPED_RECORD) || exists j :: 0 < j < i && IsChange(env, j, env.receipt[i].sender)
  }

  /**
   The record opens to the text: with its revealed key under the suite and the version of
   the server hello among the messages before, less the content type in TLS 1.3; or, if it
   is not sealed, as it is behind its header.
   */
  predicate Opens(env: Env, before: seq<Bytes>, i: nat, text: Bytes)
    requires i < |env.receipt|
  {
    var r := env.receipt[i];
    var size := if |r.message| < 5 then |r.message| else 5;
    var header, content := r.message[..size], r.message[size..];
    if Sealed(env, i) then
      && r.key.Some? && HelloOf(env, before).Some?
      && var hello := HelloOf(env, before).value;
         var plain := env.decrypt(r.key.value, hello.suite, header, hello.version, content);
         && plain.Some?
         && if hello.version == TLS1_3 then plain.value != [] && plain.value[..|plain.value| - 1] == text
            else plain.value == text
    else text == content
  }

  /** Record `i` begins in message `k`. */
  predicate BeginsIn(texts: seq<Bytes>, messages: seq<Message>, i: nat, k: nat)
    requires AllShort(messages) && i < |texts| && k < |messages|
  {
    Begin(messages, k) <= Start(texts, i) < Begin(messages, k + 1)
  }

  /** A change of cipher spec stands in front of a message; any other record has a text and opens to it. */
  predicate Opened(env: Env, texts: seq<Bytes>, messages: seq<Message>, i: nat, k: nat)
    requires Carries(env, texts, messages) && i < |texts| && k < |messages|
  {
    BeginsIn(texts, messages, i, k) ==>
      if IsType(env.receipt[i], CHANGE_CIPHER_SPEC) then Start(texts, i) == Begin(messages, k)
      else texts[i] != [] && Opens(env, Encodings(messages)[..k], i, texts[i])
  }

  /** So it is with all the records in which the first `n` messages are. */
  predicate AllOpened(env: Env, texts: seq<Bytes>, messages: seq<Message>, n: nat)
    requires Carries(env, texts, messages) && n <= |messages|
  {
    forall i, k :: 0 <= i < |texts| && 0 <= k < n ==> Opened(env, texts, messages, i, k)
  }

  /** The records in which the messages end. */
  predicate EndsAt(texts: seq<Bytes>, messages: seq<Message>, at: seq<nat>)
    requires AllShort(messages)
  {
    && |at| == |messages| && (forall j, k :: 0 <= j <= k < |at| ==> at[j] <= at[k])
    && (forall k :: 0 <= k < |at| ==> EndsIn(texts, at[k], Begin(messages, k + 1)))
  }

  lemma EndsOnce(texts: seq<Bytes>, r: nat, s: nat, end: nat)
    requires EndsIn(texts, r, end) && EndsIn(texts, s, end)
    ensures r == s
  {
    if r < s {
      StartMonotone(texts, r + 1, s);
    } else if s < r {
      StartMonotone(texts, s + 1, r);
    }
  }

  // ----- changes of cipher spec -----

  /** The last change by the sender among the first `n` records, or -1. */
  function LastChange(env: Env, sender: Sender, n: nat): int
  {
    if n == 0 then -1 else if IsChange(env, n - 1, sender) then n - 1 else LastChange(env, sender, n - 1)
  }

  predicate Changed(env: Env, sender: Sender, n: nat) {
    exists j :: 0 <= j < n && IsChange(env, j, sender)
  }

  lemma {:induction false} LastChangeIs(env: Env, sender: Sender, n: nat)
    ensures LastChange(env, sender, n) >= 0 <==> Changed(env, sender, n)
    ensures LastChange(env, sender, n) > 0 <==> exists j :: 0 < j < n && IsChange(env, j, sender)
    ensures LastChange(env, sender, n) < n
  {
    if n > 0 {
      LastChangeIs(env, sender, n - 1);
    }
  }

  predicate NoChange(env: Env, first: nat, until: nat) {
    forall j :: first <= j < until && j < |env.receipt| ==> !IsType(env.receipt[j], CHANGE_CIPHER_SPEC)
  }

  lemma {:induction false} SameChange(env: Env, sender: Sender, first: nat, until: nat)
    requires first <= until && NoChange(env, first, until)
    ensures LastChange(env, sender, until) == LastChange(env, sender, first)
    decreases until
  {
    if first < until {
      SameChange(env, sender, first, until - 1);
    }
  }

  predicate KnowsChanges(env: Env, ctx: Context, n: nat) {
    && ctx.clientChangeCipherSpecMsgIdx == LastChange(env, Client, n)
    && ctx.serverChangeCipherSpecMsgIdx == LastChange(env, Server, n)
  }

  lemma EncryptedIs(env: Env, ctx: Context, from: nat, i: nat)
    requires from <= i < |env.receipt| && KnowsChanges(env, ctx, from) && NoChange(env, from, i)
    ensures Encrypted(ctx, env.receipt[i]) <==> Sealed(env, i)
  {
    SameChange(env, Client, from, i);
    SameChange(env, Server, from, i);
    LastChangeIs(env, Client, i);
    LastChangeIs(env, Server, i);
  }

  /** The record is fetched as it opens. */
  lemma FetchIs(env: Env, ctx: Context, before: seq<Bytes>, i: nat, text: Bytes)
    requires i < |env.receipt| && !IsType(env.receipt[i], CHANGE_CIPHER_SPEC)
    requires Opens(env, before, i, text) && (Encrypted(ctx, env.receipt[i]) <==> Sealed(env, i))
    requires ctx.tlsVersion == VersionOf(env, before) && ctx.cipherSuite == SuiteOf(env, before)
    ensures Fetch(env, ctx, i) == Data(text)
  {
    var r := env.receipt[i];
    var size := if |r.message| < 5 then |r.message| else 5;
    assert r.message[size..] == Behind(r.message, RECORD_HEADER);
    assert size == Min(RECORD_HEADER, |r.message|);
  }

  // ----- the changes in front of a message -----

  /** The reader behind them knows them, and stands at another record. */
  lemma {:induction false} SkippedKnows(env: Env, s: State)
    requires s.currentPacketIdx <= |env.receipt| && KnowsChanges(env, s.ctx, s.currentPacketIdx) && !Stopped(s.ctx)
    ensures var t := Skipped(env, s);
            && s.currentPacketIdx <= t.currentPacketIdx <= |env.receipt|
            && KnowsChanges(env, t.ctx, t.currentPacketIdx) && Settled(t.ctx) == Settled(s.ctx)
            && (t.data == [] && t.currentPacketIdx < |env.receipt| ==>
                  !IsType(env.receipt[t.currentPacketIdx], CHANGE_CIPHER_SPEC))
            && (s.data != [] ==> t == s)
    decreases |env.receipt| - s.currentPacketIdx
  {
    var i := s.currentPacketIdx;
    if s.data == [] && i < |env.receipt| && Fetch(env, s.ctx, i) == Skip {
      SkippedKnows(env, s.(readPacketIdx := i, currentPacketIdx := i + 1, ctx := AfterChangeCipherSpec(env, s.ctx, i)));
    }
  }

  /** The reader stands at message `k`, behind the changes in front of it. */
  predicate Facing(env: Env, texts: seq<Bytes>, messages: seq<Message>, t: State, k: nat)
    requires Carries(env, texts, messages) && k < |messages|
  {
    && At(env, texts, t, Begin(messages, k)) && t.currentPacketIdx < |texts|
    && (t.data == [] ==> !IsType(env.receipt[t.currentPacketIdx], CHANGE_CIPHER_SPEC) && texts[t.currentPacketIdx] != [])
  }

  lemma AtLess(env: Env, texts: seq<Bytes>, messages: seq<Message>, k: nat)
    requires Carries(env, texts, messages) && k < |messages|
    ensures Begin(messages, k) + MESSAGE_HEADER <= Begin(messages, k + 1) <= |Concat(texts)|
  {
    StartNext(Encodings(messages), k);
  }

  lemma FacesNext(env: Env, texts: seq<Bytes>, messages: seq<Message>, n: nat, s: State, k: nat)
    requires Carries(env, texts, messages) && k < n <= |messages| && AllOpened(env, texts, messages, n)
    requires At(env, texts, s, Begin(messages, k)) && KnowsChanges(env, s.ctx, s.currentPacketIdx) && !Stopped(s.ctx)
    ensures Facing(env, texts, messages, Skipped(env, s), k)
  {
    var t := Skipped(env, s);
    SkippedKnows(env, s);
    SkippedReads(env, texts, s, Begin(messages, k));
    AtLess(env, texts, messages, k);
    if t.data == [] {
      BlockReveal.OffsetEnd(texts);
      assert t.currentPacketIdx < |texts|;
      assert BeginsIn(texts, messages, t.currentPacketIdx, k);
      assert Opened(env, texts, messages, t.currentPacketIdx, k);
    }
  }

  /** The record at which the reader stands holds the message's first byte. */
  lemma HoldsFirst(env: Env, texts: seq<Bytes>, messages: seq<Message>, t: State, k: nat)
    requires Carries(env, texts, messages) && k < |messages| && Facing(env, texts, messages, t, k)
    ensures Start(texts, t.currentPacketIdx) <= Begin(messages, k) < Start(texts, t.currentPacketIdx + 1)
  {
    StartNext(texts, t.currentPacketIdx);
  }

  /** Of the records from there on, those in the message are no changes, and begin in it, if not fetched yet. */
  lemma RecordInside(env: Env, texts: seq<Bytes>, messages: seq<Message>, n: nat, t: State, k: nat, i: nat)
    requires Carries(env, texts, messages) && k < n <= |messages| && AllOpened(env, texts, messages, n)
    requires Facing(env, texts, messages, t, k)
    requires t.currentPacketIdx <= i < |texts| && Start(texts, i) < Begin(messages, k + 1)
    ensures t.data == [] || i > t.currentPacketIdx ==>
              && BeginsIn(texts, messages, i, k) && !IsType(env.receipt[i], CHANGE_CIPHER_SPEC)
              && Opens(env, Encodings(messages)[..k], i, texts[i])
    ensures !IsType(env.receipt[i], CHANGE_CIPHER_SPEC)
  {
    HoldsFirst(env, texts, messages, t, k);
    if t.data == [] || i > t.currentPacketIdx {
      StartMonotone(texts, if i > t.currentPacketIdx then t.currentPacketIdx + 1 else i, i);
      assert Opened(env, texts, messages, i, k);
    } else {
      StartNext(texts, i);
    }
  }

  lemma NoneInside(env: Env, texts: seq<Bytes>, messages: seq<Message>, n: nat, t: State, k: nat, until: nat)
    requires Carries(env, texts, messages) && k < n <= |messages| && AllOpened(env, texts, messages, n)
    requires Facing(env, texts, messages, t, k) && t.currentPacketIdx <= until <= |texts|
    requires until > 0 ==> Start(texts, until - 1) < Begin(messages, k + 1)
    ensures NoChange(env, t.currentPacketIdx, until)
  {
    forall j | t.currentPacketIdx <= j < until
      ensures !IsType(env.receipt[j], CHANGE_CIPHER_SPEC)
    {
      StartMonotone(texts, j, until - 1);
      RecordInside(env, texts, messages, n, t, k, j);
    }
  }

  /** What is read of the message is delivered. */
  lemma DeliversNext(env: Env, texts: seq<Bytes>, messages: seq<Message>, n: nat, t: State, k: nat)
    requires Carries(env, texts, messages) && k < n <= |messages| && AllOpened(env, texts, messages, n)
    requires Facing(env, texts, messages, t, k) && KnowsChanges(env, t.ctx, t.currentPacketIdx)
    requires t.ctx.tlsVersion == VersionOf(env, Encodings(messages)[..k])
    requires t.ctx.cipherSuite == SuiteOf(env, Encodings(messages)[..k])
    ensures Delivered(env, t.ctx, texts, ToFetch(t), Begin(messages, k + 1))
  {
    forall i | ToFetch(t) <= i < |texts| && Start(texts, i) < Begin(messages, k + 1)
      ensures Fetch(env, t.ctx, i) == Data(texts[i])
    {
      RecordInside(env, texts, messages, n, t, k, i);
      NoneInside(env, texts, messages, n, t, k, i + 1);
      EncryptedIs(env, t.ctx, t.currentPacketIdx, i);
      FetchIs(env, t.ctx, Encodings(messages)[..k], i, texts[i]);
    }
  }

  /** Some record holds the whole header that begins at `o`. */
  predicate Whole(texts: seq<Bytes>, o: nat) {
    exists i :: 0 <= i < |texts| && HoldsHeader(texts, i, o)
  }

  predicate HoldsHeader(texts: seq<Bytes>, i: nat, o: nat)
    requires i < |texts|
  {
    Start(texts, i) <= o && o + 4 <= Start(texts, i + 1)
  }

  lemma WholeIs(env: Env, texts: seq<Bytes>, messages: seq<Message>, t: State, k: nat)
    requires Carries(env, texts, messages) && k < |messages| && Facing(env, texts, messages, t, k)
    ensures HeaderWhole(texts, t, Begin(messages, k)) <==> Whole(texts, Begin(messages, k))
  {
    var o := Begin(messages, k);
    HoldsFirst(env, texts, messages, t, k);
    if HeaderWhole(texts, t, o) {
      assert HoldsHeader(texts, t.currentPacketIdx, o);
    }
    if i :| 0 <= i < |texts| && HoldsHeader(texts, i, o) {
      if i < t.currentPacketIdx {
        StartMonotone(texts, i + 1, t.currentPacketIdx);
      } else if t.currentPacketIdx < i {
        StartMonotone(texts, t.currentPacketIdx + 1, i);
      }
    }
  }

  // ----- messages that can be handled -----

  /** A client hello names a server, hellos and certificates can be parsed, and a signature holds. */
  predicate Handled(env: Env, raw: seq<Bytes>, k: nat)
    requires k < |raw|
  {
    var body := Behind(raw[k], 4);
    && (IsKind(raw[k], CLIENT_HELLO) ==>
          var hello := env.clientHello(raw[0]);
          hello.Some? && hello.value.serverName.Some? && hello.value.serverName.value != [])
    && (IsKind(raw[k], SERVER_HELLO) ==> env.serverHello(body).Some?)
    && (IsKind(raw[k], CERTIFICATE) ==> env.certificates(body, VersionOf(env, raw[..k])).Some?)
    && (IsProof(raw[k]) ==> Checked(env, raw, k))
  }

  lemma HandledIs(env: Env, s: State, t: State, m: Bytes)
    requires Told(env, s) && t.raw == s.raw + [m] && Settled(t.ctx) == Settled(s.ctx)
    requires IsFrame(m) && t.readPacketIdx < |env.receipt|
    ensures Dispatch(env, t, m[0], m[MESSAGE_HEADER..]).Some? <==> Handled(env, t.raw, |s.raw|)
  {
    var k := |s.raw|;
    assert t.raw[..k] == s.raw && t.raw[..|t.raw| - 1] == s.raw && t.raw[k] == m;
    assert Behind(m, 4) == m[MESSAGE_HEADER..];
  }

  /** Whether a message is handled depends on it and the ones before it. */
  lemma HandledLater(env: Env, raw: seq<Bytes>, k: nat, n: nat)
    requires k < n <= |raw|
    ensures Handled(env, raw[..n], k) <==> Handled(env, raw, k)
  {
    assert raw[..n][..k] == raw[..k] && raw[..n][k] == raw[k] && raw[..n][0] == raw[0];
  }

  // ----- turn by turn -----

  /** What the reader knows before message `k`. */
  predicate Knows(env: Env, texts: seq<Bytes>, messages: seq<Message>, at: seq<nat>, s: State, k: nat)
    requires Carries(env, texts, messages) && EndsAt(texts, messages, at) && k <= |messages|
  {
    && ReadTo(env, texts, messages, s, k) && Sound(env, s)
    && KnowsFinished(env, Encodings(messages), at, s.ctx, k)
    && KnowsChanges(env, s.ctx, s.currentPacketIdx)
    && if k == 0 then s.currentPacketIdx == 0 else at[k - 1] <= s.currentPacketIdx <= at[k - 1] + 1
  }

  predicate KnowsFinished(env: Env, raw: seq<Bytes>, at: seq<nat>, ctx: Context, k: nat)
    requires Placed(env, raw, at) && k <= |raw|
  {
    && ctx.clientFinishedIdx == FinishedAt(env, raw, at, Client, k)
    && ctx.serverFinishedIdx == FinishedAt(env, raw, at, Server, k)
  }

  /** Reading is over: a certificate is verified, and both sides have finished, not in the first record. */
  predicate Complete(env: Env, raw: seq<Bytes>, at: seq<nat>, k: nat)
    requires Placed(env, raw, at) && k <= |raw|
  {
    Proven(raw, k) && FinishedAt(env, raw, at, Client, k) > 0 && FinishedAt(env, raw, at, Server, k) > 0
  }

  predicate Proven(raw: seq<Bytes>, k: nat)
    requires k <= |raw|
  {
    exists j :: 0 <= j < k && IsProof(raw[j])
  }

  lemma StoppedIs(env: Env, texts: seq<Bytes>, messages: seq<Message>, at: seq<nat>, s: State, k: nat)
    requires Carries(env, texts, messages) && EndsAt(texts, messages, at) && k <= |messages|
    requires Knows(env, texts, messages, at, s, k)
    ensures Stopped(s.ctx) <==> Complete(env, Encodings(messages), at, k)
    ensures s.ctx.certVerified <==> Proven(Encodings(messages), k)
  {
    var raw := Encodings(messages);
    assert forall j :: 0 <= j < k ==> s.raw[j] == raw[j];
  }

  lemma FacesDelivered(env: Env, texts: seq<Bytes>, messages: seq<Message>, at: seq<nat>, n: nat, s: State, k: nat, t: State)
    requires Carries(env, texts, messages) && EndsAt(texts, messages, at) && k < n <= |messages|
    requires AllOpened(env, texts, messages, n) && Knows(env, texts, messages, at, s, k) && !Stopped(s.ctx)
    requires t == Skipped(env, s)
    ensures Facing(env, texts, messages, t, k) && KnowsChanges(env, t.ctx, t.currentPacketIdx)
    ensures Settled(t.ctx) == Settled(s.ctx) && Readable(env, texts, messages, s, k)
  {
    SkippedKnows(env, s);
    FacesNext(env, texts, messages, n, s, k);
    DeliversNext(env, texts, messages, n, t, k);
  }

  /** The message as it is read, if its header is whole. */
  lemma ReadsHere(env: Env, texts: seq<Bytes>, messages: seq<Message>, at: seq<nat>, n: nat, s: State, k: nat)
    requires Carries(env, texts, messages) && EndsAt(texts, messages, at) && k < n <= |messages|
    requires AllOpened(env, texts, messages, n)
    requires Knows(env, texts, messages, at, s, k) && !Stopped(s.ctx)
    ensures var t := Skipped(env, s);
            && Begin(messages, k) <= Begin(messages, k + 1) <= |Concat(texts)|
            && Facing(env, texts, messages, t, k) && KnowsChanges(env, t.ctx, t.currentPacketIdx)
            && Settled(t.ctx) == Settled(s.ctx) && t.raw == s.raw
            && ReadPacket(env, s, false) ==
               if Whole(texts, Begin(messages, k)) then
                 Packet(messages[k].kind, messages[k].body,
                        After(texts, t, Begin(messages, k), Begin(messages, k + 1), at[k]))
               else Threw
  {
    var t := Skipped(env, s);
    FacesDelivered(env, texts, messages, at, n, s, k, t);
    var r := ReadsNext(env, texts, messages, s, k);
    EndsOnce(texts, r, at[k], Begin(messages, k + 1));
    WholeIs(env, texts, messages, t, k);
  }

  lemma EncodedFrame(m: Message)
    requires Short(m)
    ensures IsFrame(Encode(m)) && Encode(m)[0] == m.kind && Encode(m)[MESSAGE_HEADER..] == m.body
  {
    EncodedLength(m, Encode(m), 0);
    assert Encode(m)[0..] == Encode(m);
    assert Encode(m)[0..|Encode(m)|] == Encode(m);
  }

  /** The state in which the message is handled. */
  lemma AfterIs(env: Env, texts: seq<Bytes>, messages: seq<Message>, at: seq<nat>, n: nat, t: State, k: nat, u: State)
    requires Carries(env, texts, messages) && EndsAt(texts, messages, at) && k < n <= |messages|
    requires AllOpened(env, texts, messages, n) && Facing(env, texts, messages, t, k)
    requires KnowsChanges(env, t.ctx, t.currentPacketIdx) && t.raw == Encodings(messages)[..k]
    requires Begin(messages, k) <= Begin(messages, k + 1) <= |Concat(texts)|
    requires u == After(texts, t, Begin(messages, k), Begin(messages, k + 1), at[k])
    ensures u.raw == t.raw + [Encode(messages[k])] == Encodings(messages)[..k + 1]
    ensures u.readPacketIdx == at[k] < |env.receipt| && u.ctx == t.ctx
    ensures at[k] <= u.currentPacketIdx <= at[k] + 1 && KnowsChanges(env, u.ctx, u.currentPacketIdx)
  {
    StartNext(Encodings(messages), k);
    assert Encodings(messages)[..k + 1] == Encodings(messages)[..k] + [Encode(messages[k])];
    HoldsFirst(env, texts, messages, t, k);
    AtLess(env, texts, messages, k);
    if at[k] < t.currentPacketIdx {
      StartMonotone(texts, at[k] + 1, t.currentPacketIdx);
      assert false;
    }
    NoneInside(env, texts, messages, n, t, k, at[k] + 1);
    SameChange(env, Client, t.currentPacketIdx, u.currentPacketIdx);
    SameChange(env, Server, t.currentPacketIdx, u.currentPacketIdx);
  }

  /** One turn: the message is handled if and only if it can be, and the reader knows more. */
  lemma TurnDecides(env: Env, texts: seq<Bytes>, messages: seq<Message>, at: seq<nat>, n: nat, s: State, k: nat)
    requires Carries(env, texts, messages) && EndsAt(texts, messages, at) && k < n <= |messages|
    requires AllOpened(env, texts, messages, n)
    requires Knows(env, texts, messages, at, s, k) && !Stopped(s.ctx)
    ensures !ReadPacket(env, s, false).Done?
    ensures ReadOne(env, s).Some? <==> Whole(texts, Begin(messages, k)) && Handled(env, Encodings(messages), k)
    ensures ReadOne(env, s).Some? ==> Knows(env, texts, messages, at, ReadOne(env, s).value, k + 1)
  {
    ReadsHere(env, texts, messages, at, n, s, k);
    if Whole(texts, Begin(messages, k)) {
      var t, m := Skipped(env, s), Encode(messages[k]);
      var u := After(texts, t, Begin(messages, k), Begin(messages, k + 1), at[k]);
      AfterIs(env, texts, messages, at, n, t, k, u);
      EncodedFrame(messages[k]);
      HandledIs(env, s, u, m);
      HandledLater(env, Encodings(messages), k, k + 1);
      TurnKnows(env, texts, messages, at, n, s, k, u);
    }
  }

  lemma TurnKnows(env: Env, texts: seq<Bytes>, messages: seq<Message>, at: seq<nat>, n: nat, s: State, k: nat, u: State)
    requires Carries(env, texts, messages) && EndsAt(texts, messages, at) && k < n <= |messages|
    requires Knows(env, texts, messages, at, s, k)
    requires !Stopped(s.ctx) && AllOpened(env, texts, messages, n)
    requires ReadPacket(env, s, false) == Packet(messages[k].kind, messages[k].body, u)
    requires u.raw == Encodings(messages)[..k + 1] && u.readPacketIdx == at[k] && Settled(u.ctx) == Settled(s.ctx)
    requires at[k] <= u.currentPacketIdx <= at[k] + 1 && KnowsChanges(env, u.ctx, u.currentPacketIdx)
    ensures ReadOne(env, s).Some? ==> Knows(env, texts, messages, at, ReadOne(env, s).value, k + 1)
  {
    if ReadOne(env, s).Some? {
      var next := ReadOne(env, s).value;
      EncodedFrame(messages[k]);
      ReadIdx(env, s, false);
      DispatchFinished(env, u, Encode(messages[k]), next.ctx);
      TurnKeeps(env, s);
      ReadsToNext(env, texts, messages, at, n, s, k);
    }
  }

  lemma ReadsToNext(env: Env, texts: seq<Bytes>, messages: seq<Message>, at: seq<nat>, n: nat, s: State, k: nat)
    requires Carries(env, texts, messages) && EndsAt(texts, messages, at) && k < n <= |messages|
    requires Knows(env, texts, messages, at, s, k)
    requires !Stopped(s.ctx) && AllOpened(env, texts, messages, n) && ReadOne(env, s).Some?
    ensures ReadTo(env, texts, messages, ReadOne(env, s).value, k + 1)
  {
    FacesDelivered(env, texts, messages, at, n, s, k, Skipped(env, s));
    NextTurn(env, texts, messages, s, k);
  }

  // ----- the verdict -----

  /** Every one of the messages from `k` on can be read and handled. */
  predicate AllHandled(env: Env, texts: seq<Bytes>, messages: seq<Message>, k: nat, n: nat)
    requires AllShort(messages) && n <= |messages|
  {
    forall j :: k <= j < n ==> Whole(texts, Begin(messages, j)) && Handled(env, Encodings(messages), j)
  }

  /**
   The first `n` messages prove the server: a signature was verified, and the server has
   finished, in TLS 1.3, or both sides have changed the cipher spec before record `end`, in
   TLS 1.2.
   */
  predicate Proves(env: Env, raw: seq<Bytes>, at: seq<nat>, n: nat, end: nat)
    requires Placed(env, raw, at) && n <= |raw|
  {
    && Proven(raw, n)
    && (VersionOf(env, raw[..n]) == Some(TLS1_3) ==> FinishedAt(env, raw, at, Server, n) >= 0)
    && (VersionOf(env, raw[..n]) == Some(TLS1_2) ==> Changed(env, Client, end) && Changed(env, Server, end))
  }

  /** What is returned: what the messages say, and the record behind the last finished message. */
  function Answered(env: Env, raw: seq<Bytes>, at: seq<nat>, n: nat): Processed
    requires n <= |raw| == |at|
  {
    Processed(VersionOf(env, raw[..n]), SuiteOf(env, raw[..n]), HostnameOf(env, raw[..n]), BehindFinished(raw, at, n))
  }

  /** The record behind the first `n` messages. */
  function RecordBehind(at: seq<nat>, n: nat): nat
    requires n <= |at|
  {
    if n == 0 then 0 else at[n - 1] + 1
  }

  /** Reading ends with message `n`: it is complete, or there is nothing more but changes of cipher spec. */
  predicate EndsWith(env: Env, raw: seq<Bytes>, at: seq<nat>, n: nat)
    requires Placed(env, raw, at) && n <= |raw|
  {
    || Complete(env, raw, at, n)
    || (n == |raw| && forall i :: RecordBehind(at, n) <= i < |env.receipt| ==> IsType(env.receipt[i], CHANGE_CIPHER_SPEC))
  }

  /** Up to where changes of cipher spec are seen. */
  function SeenUpTo(env: Env, raw: seq<Bytes>, at: seq<nat>, n: nat): nat
    requires Placed(env, raw, at) && n <= |raw|
  {
    if Complete(env, raw, at, n) then RecordBehind(at, n) else |env.receipt|
  }

  /** The first `n` messages are what is read: their records can be opened, and reading ends with them, not before. */
  predicate Reads(env: Env, texts: seq<Bytes>, messages: seq<Message>, at: seq<nat>, n: nat) {
    && Carries(env, texts, messages) && EndsAt(texts, messages, at) && n <= |messages|
    && AllOpened(env, texts, messages, n)
    && (forall j :: 0 <= j < n ==> !Complete(env, Encodings(messages), at, j))
    && EndsWith(env, Encodings(messages), at, n)
  }

  /** Nothing but changes of cipher spec is left: they are skipped. */
  lemma {:induction false} SkipsRest(env: Env, s: State)
    requires s.currentPacketIdx <= |env.receipt| && s.data == [] && KnowsChanges(env, s.ctx, s.currentPacketIdx)
    requires forall i :: s.currentPacketIdx <= i < |env.receipt| ==> IsType(env.receipt[i], CHANGE_CIPHER_SPEC)
    requires !Stopped(s.ctx)
    ensures var r := ReadPacket(env, s, false);
            r.Done? && r.s.raw == s.raw && Settled(r.s.ctx) == Settled(s.ctx) && KnowsChanges(env, r.s.ctx, |env.receipt|)
    decreases |env.receipt| - s.currentPacketIdx
  {
    var i := s.currentPacketIdx;
    if i < |env.receipt| {
      SkipsRest(env, s.(readPacketIdx := i, currentPacketIdx := i + 1, ctx := AfterChangeCipherSpec(env, s.ctx, i)));
    }
  }

  /** Behind the last message nothing is left of the data, and the reader stands behind its record. */
  lemma NothingLeft(env: Env, texts: seq<Bytes>, messages: seq<Message>, at: seq<nat>, s: State)
    requires Carries(env, texts, messages) && EndsAt(texts, messages, at)
    requires Knows(env, texts, messages, at, s, |messages|)
    ensures s.data == [] && s.currentPacketIdx == RecordBehind(at, |messages|)
  {
    BlockReveal.OffsetEnd(Encodings(messages));
  }

  /** A complete reader stops, with all the changes seen up to the last message. */
  lemma StopsKnowing(env: Env, texts: seq<Bytes>, messages: seq<Message>, at: seq<nat>, n: nat, s: State)
    requires Carries(env, texts, messages) && EndsAt(texts, messages, at) && 0 < n <= |messages|
    requires Knows(env, texts, messages, at, s, n)
    ensures KnowsChanges(env, s.ctx, at[n - 1] + 1)
  {
    if s.currentPacketIdx == at[n - 1] {
      StartNext(texts, at[n - 1]);
      assert NoChange(env, s.currentPacketIdx, at[n - 1] + 1);
      SameChange(env, Client, s.currentPacketIdx, at[n - 1] + 1);
      SameChange(env, Server, s.currentPacketIdx, at[n - 1] + 1);
    }
  }

  /** What the reader has found when reading is over. */
  predicate Found(env: Env, raw: seq<Bytes>, at: seq<nat>, n: nat, ctx: Context, end: nat)
    requires Placed(env, raw, at) && n <= |raw|
  {
    && ctx.tlsVersion == VersionOf(env, raw[..n]) && ctx.cipherSuite == SuiteOf(env, raw[..n])
    && ctx.hostname == HostnameOf(env, raw[..n]) && (ctx.certVerified <==> Proven(raw, n))
    && KnowsFinished(env, raw, at, ctx, n) && KnowsChanges(env, ctx, end)
  }

  lemma FoundBy(env: Env, texts: seq<Bytes>, messages: seq<Message>, at: seq<nat>, n: nat, s: State, ctx: Context, end: nat)
    requires Carries(env, texts, messages) && EndsAt(texts, messages, at) && n <= |messages|
    requires Knows(env, texts, messages, at, s, n)
    requires Settled(ctx) == Settled(s.ctx) && KnowsChanges(env, ctx, end)
    ensures Found(env, Encodings(messages), at, n, ctx, end)
  {
    StoppedIs(env, texts, messages, at, s, n);
  }

  /** Reading ends without more messages read, and the changes seen are those of the records up to there. */
  predicate EndsSeeing(env: Env, s: State, end: nat) {
    var r := ReadPacket(env, s, false);
    r.Done? && Settled(r.s.ctx) == Settled(s.ctx) && KnowsChanges(env, r.s.ctx, end)
  }

  lemma EndsComplete(env: Env, texts: seq<Bytes>, messages: seq<Message>, at: seq<nat>, n: nat, s: State, end: nat)
    requires Carries(env, texts, messages) && EndsAt(texts, messages, at) && n <= |messages|
    requires Knows(env, texts, messages, at, s, n) && Complete(env, Encodings(messages), at, n)
    requires end == SeenUpTo(env, Encodings(messages), at, n)
    ensures EndsSeeing(env, s, end)
  {
    StoppedIs(env, texts, messages, at, s, n);
    CompleteHasMessage(env, Encodings(messages), at, n);
    StopsKnowing(env, texts, messages, at, n, s);
    StoppedDone(env, s);
  }

  lemma EndsSkipping(env: Env, texts: seq<Bytes>, messages: seq<Message>, at: seq<nat>, s: State, end: nat)
    requires Carries(env, texts, messages) && EndsAt(texts, messages, at)
    requires Knows(env, texts, messages, at, s, |messages|) && !Complete(env, Encodings(messages), at, |messages|)
    requires EndsWith(env, Encodings(messages), at, |messages|) && end == |env.receipt|
    ensures EndsSeeing(env, s, end)
  {
    StoppedIs(env, texts, messages, at, s, |messages|);
    EndsInChanges(env, Encodings(messages), at, |messages|);
    NothingLeft(env, texts, messages, at, s);
    SkipsRest(env, s);
  }

  lemma EndsEither(env: Env, texts: seq<Bytes>, messages: seq<Message>, at: seq<nat>, n: nat, s: State, end: nat)
    requires Carries(env, texts, messages) && EndsAt(texts, messages, at) && n <= |messages|
    requires Knows(env, texts, messages, at, s, n)
    requires EndsWith(env, Encodings(messages), at, n) && end == SeenUpTo(env, Encodings(messages), at, n)
    ensures EndsSeeing(env, s, end)
  {
    if Complete(env, Encodings(messages), at, n) {
      EndsComplete(env, texts, messages, at, n, s, end);
    } else {
      EndsSkipping(env, texts, messages, at, s, end);
    }
  }

  lemma RunEnds(env: Env, s: State)
    requires s.currentPacketIdx <= |env.receipt| && ReadPacket(env, s, false).Done?
    ensures Run(env, s) == Ended(ReadPacket(env, s, false).s)
  {
  }

  lemma StoppedDone(env: Env, s: State)
    requires Stopped(s.ctx)
    ensures ReadPacket(env, s, false) == Done(s)
  {
  }

  lemma EndsInChanges(env: Env, raw: seq<Bytes>, at: seq<nat>, n: nat)
    requires Placed(env, raw, at) && n <= |raw| && !Complete(env, raw, at, n) && EndsWith(env, raw, at, n)
    ensures n == |raw| && SeenUpTo(env, raw, at, n) == |env.receipt|
    ensures forall i :: RecordBehind(at, n) <= i < |env.receipt| ==> IsType(env.receipt[i], CHANGE_CIPHER_SPEC)
  {
  }

  lemma CompleteHasMessage(env: Env, raw: seq<Bytes>, at: seq<nat>, n: nat)
    requires Placed(env, raw, at) && n <= |raw| && Complete(env, raw, at, n)
    ensures n > 0 && SeenUpTo(env, raw, at, n) == at[n - 1] + 1
  {
  }

  lemma VerdictIs(env: Env, raw: seq<Bytes>, at: seq<nat>, n: nat, t: State, end: nat)
    requires Placed(env, raw, at) && n <= |raw| && Found(env, raw, at, n, t.ctx, end)
    ensures Verdict(Ended(t)) == if Proves(env, raw, at, n, end) then Some(Answered(env, raw, at, n)) else None
  {
    LastChangeIs(env, Client, end);
    LastChangeIs(env, Server, end);
    BehindBoth(env, raw, at, n);
  }

  /** What the transcript comes to once the messages are handled. */
  function Decision(env: Env, raw: seq<Bytes>, at: seq<nat>, n: nat): Option<Processed>
    requires Placed(env, raw, at) && n <= |raw|
  {
    if Proves(env, raw, at, n, SeenUpTo(env, raw, at, n)) then Some(Answered(env, raw, at, n)) else None
  }

  lemma EndDecides(env: Env, texts: seq<Bytes>, messages: seq<Message>, at: seq<nat>, n: nat, s: State)
    requires Reads(env, texts, messages, at, n) && Knows(env, texts, messages, at, s, n)
    ensures Verdict(Run(env, s)) == Decision(env, Encodings(messages), at, n)
  {
    var end := SeenUpTo(env, Encodings(messages), at, n);
    EndsEither(env, texts, messages, at, n, s, end);
    var t := ReadPacket(env, s, false).s;
    RunEnds(env, s);
    FoundBy(env, texts, messages, at, n, s, t.ctx, end);
    VerdictIs(env, Encodings(messages), at, n, t, end);
  }

  lemma RunStep(env: Env, texts: seq<Bytes>, messages: seq<Message>, at: seq<nat>, n: nat, s: State, k: nat)
    returns (next: State)
    requires Reads(env, texts, messages, at, n) && k < n && Knows(env, texts, messages, at, s, k)
    ensures if Whole(texts, Begin(messages, k)) && Handled(env, Encodings(messages), k)
            then Knows(env, texts, messages, at, next, k + 1) && Run(env, s) == Run(env, next)
            else Run(env, s) == Failed
  {
    StoppedIs(env, texts, messages, at, s, k);
    TurnDecides(env, texts, messages, at, n, s, k);
    RunTurn(env, s);
    next := if ReadOne(env, s).Some? then ReadOne(env, s).value else s;
  }

  lemma {:induction false} RunDecided(env: Env, texts: seq<Bytes>, messages: seq<Message>, at: seq<nat>, n: nat,
                                      s: State, k: nat)
    requires Reads(env, texts, messages, at, n) && k <= n && Knows(env, texts, messages, at, s, k)
    ensures Verdict(Run(env, s)) ==
            if AllHandled(env, texts, messages, k, n) then Decision(env, Encodings(messages), at, n) else None
    decreases n - k
  {
    if k == n {
      EndDecides(env, texts, messages, at, n, s);
    } else {
      HandledFirst(env, texts, messages, k, n);
      var next := RunStep(env, texts, messages, at, n, s, k);
      if Whole(texts, Begin(messages, k)) && Handled(env, Encodings(messages), k) {
        RunDecided(env, texts, messages, at, n, next, k + 1);
      }
    }
  }

  lemma HandledFirst(env: Env, texts: seq<Bytes>, messages: seq<Message>, k: nat, n: nat)
    requires AllShort(messages) && k < n <= |messages|
    ensures AllHandled(env, texts, messages, k, n) <==>
            && Whole(texts, Begin(messages, k)) && Handled(env, Encodings(messages), k)
            && AllHandled(env, texts, messages, k + 1, n)
  {
  }

  lemma RunTurn(env: Env, s: State)
    requires s.currentPacketIdx <= |env.receipt| && !ReadPacket(env, s, false).Done?
    ensures Run(env, s) == match ReadOne(env, s) case None => Failed case Some(next) => Run(env, next)
  {
  }

  /**
   Messages coalesced and fragmented in any way over records that can be opened, and
   behind them anything at all, once both sides have finished. The transcript is accepted
   if and only if the header of each message is in one record, each can be handled, and
   together they prove the server; the next message is then the one behind the record in
   which the last finished message ends.
   */
  lemma HandshakeDecided(env: Env, texts: seq<Bytes>, messages: seq<Message>, at: seq<nat>, n: nat)
    requires Reads(env, texts, messages, at, n)
    ensures Verdict(Run(env, INITIAL)) ==
            if AllHandled(env, texts, messages, 0, n) then Decision(env, Encodings(messages), at, n) else None
  {
    NothingRead(env, texts, messages);
    RunDecided(env, texts, messages, at, n, INITIAL, 0);
  }
}
