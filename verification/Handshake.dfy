/**
 `processHandshake`: handshake messages read back from the records that carry them.
 Parsing of the messages, decryption and signature checks are parameters.
 */
module Handshake {
  import opened ByteData

  datatype Sender = Client | Server
  datatype Version = TLS1_2 | TLS1_3

  /** A record of the transcript, with its key if it is revealed directly. */
  datatype Record = Record(sender: Sender, message: Bytes, key: Option<Bytes>)

  datatype ClientHello = ClientHello(random: Bytes, serverName: Option<Bytes>)
  datatype ServerHello = ServerHello(suite: nat, version: Version, random: Bytes)

  /** The transcript, and calls into the TLS library; None and false stand for a throw. */
  datatype Env = Env(
    receipt: seq<Record>,
    decrypt: (Bytes, nat, Bytes, Version, Bytes) -> Option<Bytes>,
    clientHello: Bytes -> Option<ClientHello>,
    serverHello: Bytes -> Option<ServerHello>,
    certificates: (Bytes, Option<Version>) -> Option<seq<Bytes>>,
    certificateVerify: (Bytes, seq<Bytes>, Option<nat>, Bytes) -> bool,
    keyShare: (Bytes, Option<Bytes>, Option<Bytes>, Bytes) -> bool,
    chain: (seq<Bytes>, Option<Bytes>) -> bool)

  /** What the messages read so far established. */
  datatype Context = Context(
    tlsVersion: Option<Version>,
    cipherSuite: Option<nat>,
    certificates: seq<Bytes>,
    serverRandom: Option<Bytes>,
    clientRandom: Option<Bytes>,
    hostname: Option<Bytes>,
    certVerified: bool,
    serverFinishedIdx: int,
    clientFinishedIdx: int,
    clientChangeCipherSpecMsgIdx: int,
    serverChangeCipherSpecMsgIdx: int)

  datatype State = State(currentPacketIdx: nat, readPacketIdx: nat, data: Bytes, raw: seq<Bytes>, ctx: Context)

  const INITIAL: State :=
    State(0, 0, [], [], Context(None, None, [], None, None, None, false, -1, -1, -1, -1))

  // record and message types, section 5.1 of RFC 8446 and section 4 of RFC 8446
  const CHANGE_CIPHER_SPEC: Byte := 20
  const WRAPPED_RECORD: Byte := 23
  const CLIENT_HELLO: Byte := 1
  const SERVER_HELLO: Byte := 2
  const CERTIFICATE: Byte := 11
  const SERVER_KEY_SHARE: Byte := 12
  const CERTIFICATE_VERIFY: Byte := 15
  const FINISHED: Byte := 20

  const RECORD_HEADER := 5
  const MESSAGE_HEADER := 4

  // ----- one record -----

  datatype Fetched = Skip | Data(bytes: Bytes) | Fails

  function Behind(text: Bytes, n: nat): Bytes {
    if n <= |text| then text[n..] else []
  }

  /** `slice(0, -1)`. */
  function WithoutLast(text: Bytes): Bytes {
    if text == [] then [] else text[..|text| - 1]
  }

  predicate IsType(r: Record, t: Byte) {
    r.message != [] && r.message[0] == t
  }

  predicate Encrypted(ctx: Context, r: Record) {
    || IsType(r, WRAPPED_RECORD)
    || (ctx.serverChangeCipherSpecMsgIdx > 0 && r.sender == Server)
    || (ctx.clientChangeCipherSpecMsgIdx > 0 && r.sender == Client)
  }

  /** The handshake bytes of a record; a change of cipher spec has none. */
  function Fetch(env: Env, ctx: Context, i: nat): Fetched
    requires i < |env.receipt|
  {
    var r := env.receipt[i];
    var content := Behind(r.message, RECORD_HEADER);
    if IsType(r, CHANGE_CIPHER_SPEC) then Skip
    else if Encrypted(ctx, r) then
      if ctx.tlsVersion == None || ctx.cipherSuite == None || r.key == None then Fails
      else
        var header := r.message[..Min(RECORD_HEADER, |r.message|)];
        match env.decrypt(r.key.value, ctx.cipherSuite.value, header, ctx.tlsVersion.value, content)
        case None => Fails
        case Some(plaintext) =>
          Data(if ctx.tlsVersion == Some(TLS1_3) then WithoutLast(plaintext) else plaintext)
    else Data(content)
  }

  function AfterChangeCipherSpec(env: Env, ctx: Context, i: nat): Context
    requires i < |env.receipt|
  {
    if env.receipt[i].sender == Client then ctx.(clientChangeCipherSpecMsgIdx := i)
    else ctx.(serverChangeCipherSpecMsgIdx := i)
  }

  // ----- one message -----

  datatype Outcome = Packet(kind: Byte, content: Bytes, s: State) | Done(s: State) | Threw

  predicate Stopped(ctx: Context) {
    ctx.certVerified && ctx.serverFinishedIdx > 0 && ctx.clientFinishedIdx > 0
  }

  /** The length that `readWithLength` reads: the low 16 of the 24 bits. */
  function LowLength(data: Bytes): nat
    requires |data| >= MESSAGE_HEADER
  {
    var high: int, low: int := data[2], data[3];
    high * 256 + low
  }

  /** Less is left to read than before. */
  predicate Less(after: State, before: State) {
    || after.currentPacketIdx > before.currentPacketIdx
    || (after.currentPacketIdx == before.currentPacketIdx && after.data != []
        && (before.data == [] || |after.data| < |before.data|))
  }

  function ReadPacket(env: Env, s: State, getMoreData: bool): (r: Outcome)
    ensures r.Packet? ==> r.s.currentPacketIdx <= |env.receipt| && s.currentPacketIdx <= r.s.currentPacketIdx
    ensures r.Packet? && !getMoreData ==> Less(r.s, s)
    decreases |env.receipt| - s.currentPacketIdx, 1
  {
    if s.currentPacketIdx >= |env.receipt| || Stopped(s.ctx) then Done(s)
    else
      var i, here := s.currentPacketIdx, s.(readPacketIdx := s.currentPacketIdx);
      if s.data == [] || getMoreData then
        match Fetch(env, s.ctx, i)
        case Skip =>
          ReadPacket(env, here.(currentPacketIdx := i + 1, ctx := AfterChangeCipherSpec(env, s.ctx, i)), false)
        case Fails => Threw
        case Data(bytes) => Look(env, here.(data := s.data + bytes))
      else Look(env, here)
  }

  /** The message in front of the data read, or more data for it. */
  function Look(env: Env, s: State): (r: Outcome)
    requires s.currentPacketIdx < |env.receipt|
    ensures r.Packet? ==> r.s.currentPacketIdx <= |env.receipt|
    ensures r.Packet? ==>
              || r.s.currentPacketIdx > s.currentPacketIdx
              || (r.s.currentPacketIdx == s.currentPacketIdx && r.s.data != [] && |r.s.data| < |s.data|)
    decreases |env.receipt| - s.currentPacketIdx, 0
  {
    if |s.data| < MESSAGE_HEADER then Threw
    else
      var total := MESSAGE_HEADER + LowLength(s.data);
      if |s.data| < total then ReadPacket(env, s.(currentPacketIdx := s.currentPacketIdx + 1), true)
      else
        var rest := s.data[total..];
        Packet(s.data[0], s.data[MESSAGE_HEADER..total],
               s.(raw := s.raw + [s.data[..total]], data := rest,
                  currentPacketIdx := s.currentPacketIdx + if rest == [] then 1 else 0))
  }

  // ----- what is done with a message -----

  /** The branches of the loop; None for a throw. */
  function Dispatch(env: Env, s: State, kind: Byte, content: Bytes): Option<Context>
    requires s.raw != [] && s.readPacketIdx < |env.receipt|
  {
    var ctx := s.ctx;
    if kind == CLIENT_HELLO then
      match env.clientHello(s.raw[0])
      case None => None
      case Some(hello) =>
        if hello.serverName == None || hello.serverName == Some([]) then None
        else Some(ctx.(clientRandom := Some(hello.random), hostname := hello.serverName))
    else if kind == SERVER_HELLO then
      match env.serverHello(content)
      case None => None
      case Some(hello) =>
        Some(ctx.(cipherSuite := Some(hello.suite), tlsVersion := Some(hello.version),
                  serverRandom := Some(hello.random)))
    else if kind == CERTIFICATE then
      match env.certificates(content, ctx.tlsVersion)
      case None => None
      case Some(certificates) => Some(ctx.(certificates := ctx.certificates + certificates))
    else if kind == CERTIFICATE_VERIFY then
      if ctx.certificates == [] then None
      else if env.certificateVerify(content, s.raw[..|s.raw| - 1], ctx.cipherSuite, ctx.certificates[0])
              && env.chain(ctx.certificates, ctx.hostname) then Some(ctx.(certVerified := true))
      else None
    else if kind == SERVER_KEY_SHARE then
      if ctx.certificates == [] then None
      else if env.keyShare(content, ctx.clientRandom, ctx.serverRandom, ctx.certificates[0])
              && env.chain(ctx.certificates, ctx.hostname) then Some(ctx.(certVerified := true))
      else None
    else if kind == FINISHED then
      if env.receipt[s.readPacketIdx].sender == Client then Some(ctx.(clientFinishedIdx := s.readPacketIdx))
      else Some(ctx.(serverFinishedIdx := s.readPacketIdx))
    else Some(ctx)
  }

  lemma {:induction false} ReadIdx(env: Env, s: State, getMoreData: bool)
    requires ReadPacket(env, s, getMoreData).Packet?
    ensures ReadPacket(env, s, getMoreData).s.readPacketIdx < |env.receipt|
    ensures ReadPacket(env, s, getMoreData).s.raw != []
    decreases |env.receipt| - s.currentPacketIdx, 1
  {
    var i, here := s.currentPacketIdx, s.(readPacketIdx := s.currentPacketIdx);
    if s.data == [] || getMoreData {
      match Fetch(env, s.ctx, i)
      case Skip =>
        ReadIdx(env, here.(currentPacketIdx := i + 1, ctx := AfterChangeCipherSpec(env, s.ctx, i)), false);
      case Data(bytes) => LookIdx(env, here.(data := s.data + bytes));
      case Fails =>
    } else {
      LookIdx(env, here);
    }
  }

  lemma {:induction false} LookIdx(env: Env, s: State)
    requires s.currentPacketIdx < |env.receipt| && s.readPacketIdx < |env.receipt| && Look(env, s).Packet?
    ensures Look(env, s).s.readPacketIdx < |env.receipt| && Look(env, s).s.raw != []
    decreases |env.receipt| - s.currentPacketIdx, 0
  {
    if |s.data| < MESSAGE_HEADER + LowLength(s.data) {
      ReadIdx(env, s.(currentPacketIdx := s.currentPacketIdx + 1), true);
    }
  }

  /** One turn of the loop: the state after a message has been read and handled. */
  function ReadOne(env: Env, s: State): (next: Option<State>)
    ensures next.Some? ==> Less(next.value, s) && next.value.currentPacketIdx <= |env.receipt|
  {
    match ReadPacket(env, s, false)
    case Packet(kind, content, after) =>
      ReadIdx(env, s, false);
      (match Dispatch(env, after, kind, content)
       case None => None
       case Some(ctx) => Some(after.(ctx := ctx)))
    case _ => None
  }

  datatype End = Ended(s: State) | Failed

  /** The whole loop. */
  function Run(env: Env, s: State): End
    decreases |env.receipt| - s.currentPacketIdx, if s.data == [] then 1 else 0, |s.data|
  {
    if s.currentPacketIdx > |env.receipt| then Ended(s)
    else
      match ReadPacket(env, s, false)
      case Done(after) => Ended(after)
      case Threw => Failed
      case Packet(_, _, _) =>
        match ReadOne(env, s)
        case None => Failed
        case Some(next) => Run(env, next)
  }

  /** What `processHandshake` returns. */
  datatype Processed = Processed(tlsVersion: Option<Version>, cipherSuite: Option<nat>, hostname: Option<Bytes>, nextMsgIndex: int)

  function Verdict(end: End): Option<Processed> {
    if end.Failed? || !end.s.ctx.certVerified then None
    else
      var ctx := end.s.ctx;
      if ctx.tlsVersion == Some(TLS1_3) && ctx.serverFinishedIdx < 0 then None
      else if ctx.tlsVersion == Some(TLS1_2)
              && (ctx.serverChangeCipherSpecMsgIdx < 0 || ctx.clientChangeCipherSpecMsgIdx < 0) then None
      else
        var last := if ctx.serverFinishedIdx >= ctx.clientFinishedIdx then ctx.serverFinishedIdx
                    else ctx.clientFinishedIdx;
        Some(Processed(ctx.tlsVersion, ctx.cipherSuite, ctx.hostname, last + 1))
  }

  // ----- the program -----

  datatype Answer = Read(kind: Byte, content: Bytes) | NoMore | Throws

  class HandshakeReader {
    const env: Env
    var currentPacketIdx: nat
    var readPacketIdx: nat
    var handshakeData: Bytes
    var handshakeRawMessages: seq<Bytes>
    var ctx: Context

    constructor (env: Env)
      ensures this.env == env && Here() == INITIAL
    {
      this.env := env;
      currentPacketIdx, readPacketIdx, handshakeData, handshakeRawMessages := 0, 0, [], [];
      ctx := INITIAL.ctx;
    }

    function Here(): State
      reads this
    {
      State(currentPacketIdx, readPacketIdx, handshakeData, handshakeRawMessages, ctx)
    }

    method ReadPacketAt(getMoreData: bool) returns (answer: Answer)
      modifies this
      ensures match ReadPacket(env, old(Here()), getMoreData)
              case Packet(kind, content, s) => answer == Read(kind, content) && Here() == s
              case Done(s) => answer == NoMore && Here() == s
              case Threw => answer == Throws
      decreases |env.receipt| - currentPacketIdx, 1
    {
      if currentPacketIdx >= |env.receipt| {
        return NoMore;
      }
      if ctx.certVerified && ctx.serverFinishedIdx > 0 && ctx.clientFinishedIdx > 0 {
        return NoMore;
      }
      readPacketIdx := currentPacketIdx;
      if handshakeData == [] || getMoreData {
        var fetched := Fetch(env, ctx, currentPacketIdx);
        if fetched.Skip? {
          ctx := AfterChangeCipherSpec(env, ctx, currentPacketIdx);
          currentPacketIdx := currentPacketIdx + 1;
          answer := ReadPacketAt(false);
          return;
        }
        if fetched.Fails? {
          return Throws;
        }
        handshakeData := handshakeData + fetched.bytes;
      }
      answer := LookAtData();
    }

    /** The part of `readPacket` behind the fetching of data. */
    method LookAtData() returns (answer: Answer)
      requires currentPacketIdx < |env.receipt|
      modifies this
      ensures match Look(env, old(Here()))
              case Packet(kind, content, s) => answer == Read(kind, content) && Here() == s
              case Done(s) => answer == NoMore && Here() == s
              case Threw => answer == Throws
      decreases |env.receipt| - currentPacketIdx, 0
    {
      if |handshakeData| < MESSAGE_HEADER {
        return Throws;  // reading the length is out of bounds
      }
      var length := LowLength(handshakeData);
      if |handshakeData| - 1 < 3 + length {
        currentPacketIdx := currentPacketIdx + 1;
        answer := ReadPacketAt(true);
        return;
      }
      answer := TakeMessage(length);
    }

    /** The message in front of the data, which holds all of it. */
    method TakeMessage(length: nat) returns (answer: Answer)
      requires currentPacketIdx < |env.receipt| && |handshakeData| >= MESSAGE_HEADER + length
      requires length == LowLength(handshakeData)
      modifies this
      ensures var r := Look(env, old(Here()));
              r.Packet? && answer == Read(r.kind, r.content) && Here() == r.s
    {
      var kind, content := handshakeData[0], handshakeData[1..][3..3 + length];
      SliceOfSlice(handshakeData, 1, |handshakeData|, 3, 3 + length);
      assert handshakeData[1..|handshakeData|] == handshakeData[1..];
      var totalLength := MESSAGE_HEADER + |content|;
      handshakeRawMessages := handshakeRawMessages + [handshakeData[..totalLength]];
      handshakeData := handshakeData[totalLength..];
      if handshakeData == [] {
        currentPacketIdx := currentPacketIdx + 1;
      }
      return Read(kind, content);
    }

    method ProcessHandshake() returns (result: Option<Processed>)
      requires Here() == INITIAL
      modifies this
      ensures result == Verdict(Run(env, INITIAL))
    {
      var answer := Throws;
      while true
        invariant currentPacketIdx <= |env.receipt|
        invariant Run(env, Here()) == Run(env, INITIAL)
        decreases |env.receipt| - currentPacketIdx, if handshakeData == [] then 1 else 0, |handshakeData|
      {
        ghost var before := Here();
        answer := ReadPacketAt(false);
        if answer.Throws? {
          return None;
        }
        if answer.NoMore? {
          break;
        }
        ReadIdx(env, before, false);
        var next := Dispatch(env, Here(), answer.kind, answer.content);
        if next == None {
          return None;
        }
        ctx := next.value;
        assert ReadOne(env, before) == Some(Here());
      }
      return Verdict(Ended(Here()));
    }
  }
}
