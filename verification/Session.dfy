/**
 An attestor's session with one client: the gate before initialisation, tunnels and
 their transcripts, and claims. Every `await` ends a step, so that the requests of a
 client, and what its tunnels carry, interleave in any way between steps.
 */
module Session {
  import opened ByteData

  datatype Party = Client | Server

  datatype Chunk = Chunk(sender: Party, message: Bytes)

  datatype TunnelRequest = TunnelRequest(host: Bytes, port: nat, geoLocation: Bytes)

  /** A tunnel; it is referred to by its position among all tunnels ever made. */
  datatype Tunnel = Tunnel(createRequest: TunnelRequest, transcript: seq<Chunk>, closed: bool)

  /** An empty whitelist allows every host. */
  datatype Metadata = Metadata(signatureType: nat, clientVersion: int, auth: Bytes, hostWhitelist: seq<Bytes>)

  // `TranscriptMessageSenderType`
  const SENDER_CLIENT := 1
  const SENDER_SERVER := 2

  datatype ClaimMessage = ClaimMessage(sender: int, message: Bytes)

  /** A request to sign a claim; `body` stands for its other fields. */
  datatype Claim = Claim(id: nat, request: TunnelRequest, timestampS: int, transcript: seq<ClaimMessage>, body: Bytes)

  const MAX_CLAIM_TIMESTAMP_DIFF_S := 10 * 60

  /** Checks whose results this model takes as given; `validate` is `assertValidClaimRequest`. */
  datatype Env = Env(
    supported: nat -> bool,
    authValid: (Bytes, nat) -> bool,
    validate: (Claim, Metadata) -> Option<Bytes>)

  /** A request in progress, by the `await` at which it stands. */
  datatype Task =
    | CheckingAuth(metadata: Metadata)
    | Connecting(id: nat, opts: TunnelRequest)
    | CheckingBgp(id: nat, tunnel: nat)
    | Closing(claim: Claim, tunnel: nat)
    | Validating(claim: Claim, tunnel: nat, metadata: Metadata)
    | Signing(claim: Claim, tunnel: nat, result: Option<Bytes>, signatureType: Option<nat>)

  /** A signed response: the claim itself is signed only with a result. */
  datatype Response = Response(claim: Claim, tunnel: nat, result: Option<Bytes>, signatureType: Option<nat>)

  datatype State = State(
    metadata: Option<Metadata>,
    isInitialised: bool,
    tunnels: map<nat, nat>,
    made: seq<Tunnel>,
    tasks: map<nat, Task>,
    responses: seq<Response>)

  const INITIAL: State := State(None, false, map[], [], map[], [])

  datatype Event =
    | InitRequest(task: nat, metadata: Metadata)
    | AuthChecked(task: nat)
    | CreateRequest(task: nat, id: nat, opts: TunnelRequest)
    | Connected(task: nat, ok: bool)
    | BgpChecked(task: nat)
    | ClaimRequest(task: nat, claim: Claim)
    | TunnelClosed(task: nat, now: int)
    | Validated(task: nat)
    | Signed(task: nat)
    | TunnelMessage(id: nat, message: Bytes)
    | SocketData(tunnel: nat, message: Bytes)
    | SocketClosed(tunnel: nat)

  // ----- transcripts -----

  function Said(transcript: seq<Chunk>, sender: Party): Bytes {
    if transcript == [] then []
    else
      var n := |transcript| - 1;
      Said(transcript[..n], sender) + if transcript[n].sender == sender then transcript[n].message else []
  }

  function Claimed(transcript: seq<ClaimMessage>, sender: int): Bytes {
    if transcript == [] then []
    else
      var n := |transcript| - 1;
      Claimed(transcript[..n], sender) + if transcript[n].sender == sender then transcript[n].message else []
  }

  /** `assertTranscriptsMatch`: all that was sent, and the beginning of what was received. */
  predicate TranscriptsMatch(claimed: seq<ClaimMessage>, transcript: seq<Chunk>) {
    && Claimed(claimed, SENDER_CLIENT) == Said(transcript, Client)
    && Claimed(claimed, SENDER_SERVER) <= Said(transcript, Server)
  }

  method AssertTranscriptsMatch(claimed: seq<ClaimMessage>, transcript: seq<Chunk>) returns (ok: bool)
    ensures ok <==> TranscriptsMatch(claimed, transcript)
  {
    var clientSends := ConcatClaimed(claimed, SENDER_CLIENT);
    var tunnelSends := ConcatSaid(transcript, Client);
    if clientSends != tunnelSends {
      return false;
    }
    var clientRecvs := ConcatClaimed(claimed, SENDER_SERVER);
    var tunnelRecvs := ConcatSaid(transcript, Server);
    return clientRecvs == tunnelRecvs[..Min(|clientRecvs|, |tunnelRecvs|)];
  }

  method ConcatClaimed(claimed: seq<ClaimMessage>, sender: int) returns (bytes: Bytes)
    ensures bytes == Claimed(claimed, sender)
  {
    bytes := [];
    for k := 0 to |claimed|
      invariant bytes == Claimed(claimed[..k], sender)
    {
      assert claimed[..k + 1][..k] == claimed[..k];
      if claimed[k].sender == sender {
        bytes := bytes + claimed[k].message;
      }
    }
    assert claimed[..|claimed|] == claimed;
  }

  method ConcatSaid(transcript: seq<Chunk>, sender: Party) returns (bytes: Bytes)
    ensures bytes == Said(transcript, sender)
  {
    bytes := [];
    for k := 0 to |transcript|
      invariant bytes == Said(transcript[..k], sender)
    {
      assert transcript[..k + 1][..k] == transcript[..k];
      if transcript[k].sender == sender {
        bytes := bytes + transcript[k].message;
      }
    }
    assert transcript[..|transcript|] == transcript;
  }

  // ----- steps -----

  predicate Fresh(s: State, task: nat) {
    task !in s.tasks
  }

  function With(s: State, task: nat, t: Task): State {
    s.(tasks := s.tasks[task := t])
  }

  function Done(s: State, task: nat): State {
    s.(tasks := s.tasks - {task})
  }

  /** `init`, up to the check of the authentication. */
  function StartInit(env: Env, s: State, task: nat, m: Metadata): State {
    if s.isInitialised || !env.supported(m.signatureType) || m.clientVersion <= 0 then s
    else With(s, task, CheckingAuth(m))
  }

  function FinishInit(env: Env, s: State, task: nat, m: Metadata): State {
    if env.authValid(m.auth, m.signatureType) then Done(s, task).(metadata := Some(m), isInitialised := true)
    else Done(s, task)
  }

  predicate HostAllowed(m: Metadata, host: Bytes) {
    m.hostWhitelist == [] || host in m.hostWhitelist
  }

  /** `createTunnel`, up to the connection; before `init` no request gets this far. */
  function StartCreate(s: State, task: nat, id: nat, opts: TunnelRequest): State {
    if !s.isInitialised || id in s.tunnels then s
    else if s.metadata.Some? && !HostAllowed(s.metadata.value, opts.host) then s
    else With(s, task, Connecting(id, opts))
  }

  /** `makeTcpTunnel` has connected. */
  function Connect(s: State, task: nat, id: nat, opts: TunnelRequest): State {
    With(s, task, CheckingBgp(id, |s.made|)).(made := s.made + [Tunnel(opts, [], false)])
  }

  function Register(s: State, task: nat, id: nat, tunnel: nat): State {
    Done(s, task).(tunnels := s.tunnels[id := tunnel])
  }

  /** `claimTunnel`, up to the closing of the tunnel. */
  function StartClaim(s: State, task: nat, claim: Claim): State {
    if !s.isInitialised || claim.id !in s.tunnels then s
    else With(s, task, Closing(claim, s.tunnels[claim.id]))
  }

  function SignatureType(s: State): Option<nat> {
    if s.metadata.Some? then Some(s.metadata.value.signatureType) else None
  }

  /** The comparison with the tunnel, and the beginning of the claim's validation. */
  function CheckClaim(s: State, task: nat, claim: Claim, tunnel: nat, now: int): State
    requires tunnel < |s.made|
  {
    var t := s.made[tunnel];
    if t.createRequest != claim.request || !TranscriptsMatch(claim.transcript, t.transcript) then Done(s, task)
    else if claim.timestampS - now > MAX_CLAIM_TIMESTAMP_DIFF_S || s.metadata == None then
      With(s, task, Signing(claim, tunnel, None, SignatureType(s)))
    else With(s, task, Validating(claim, tunnel, s.metadata.value))
  }

  function FinishValidation(env: Env, s: State, task: nat, claim: Claim, tunnel: nat, m: Metadata): State {
    With(s, task, Signing(claim, tunnel, env.validate(claim, m), SignatureType(s)))
  }

  function FinishClaim(s: State, task: nat, claim: Claim, tunnel: nat, result: Option<Bytes>, signer: Option<nat>): State {
    Done(s, task).(responses := s.responses + [Response(claim, tunnel, result, signer)],
                   tunnels := s.tunnels - {claim.id})
  }

  function Say(s: State, tunnel: nat, sender: Party, message: Bytes): State
    requires tunnel < |s.made|
  {
    var t := s.made[tunnel];
    s.(made := s.made[tunnel := t.(transcript := t.transcript + [Chunk(sender, message)])])
  }

  /** Tunnels referred to have been made. */
  predicate WellFormed(s: State) {
    && (forall id <- s.tunnels :: s.tunnels[id] < |s.made|)
    && (forall k <- s.tasks :: TaskFits(s, s.tasks[k]))
  }

  predicate TaskFits(s: State, t: Task) {
    match t
    case CheckingAuth(_) => true
    case Connecting(_, _) => true
    case CheckingBgp(_, tunnel) => tunnel < |s.made|
    case Closing(_, tunnel) => tunnel < |s.made|
    case Validating(_, tunnel, _) => tunnel < |s.made|
    case Signing(_, tunnel, _, _) => tunnel < |s.made|
  }

  /** One step; an event that does not apply changes nothing. */
  function Step(env: Env, s: State, e: Event): (t: State)
    requires WellFormed(s)
  {
    match e
    case InitRequest(task, m) => if Fresh(s, task) then StartInit(env, s, task, m) else s
    case CreateRequest(task, id, opts) => if Fresh(s, task) then StartCreate(s, task, id, opts) else s
    case ClaimRequest(task, claim) => if Fresh(s, task) then StartClaim(s, task, claim) else s
    case AuthChecked(task) =>
      if task in s.tasks && s.tasks[task].CheckingAuth? then FinishInit(env, s, task, s.tasks[task].metadata) else s
    case Connected(task, ok) =>
      if task in s.tasks && s.tasks[task].Connecting? then
        if ok then Connect(s, task, s.tasks[task].id, s.tasks[task].opts) else Done(s, task)
      else s
    case BgpChecked(task) =>
      if task in s.tasks && s.tasks[task].CheckingBgp? then Register(s, task, s.tasks[task].id, s.tasks[task].tunnel)
      else s
    case TunnelClosed(task, now) =>
      if task in s.tasks && s.tasks[task].Closing? then
        assert TaskFits(s, s.tasks[task]);
        CheckClaim(s, task, s.tasks[task].claim, s.tasks[task].tunnel, now)
      else s
    case Validated(task) =>
      if task in s.tasks && s.tasks[task].Validating? then
        FinishValidation(env, s, task, s.tasks[task].claim, s.tasks[task].tunnel, s.tasks[task].metadata)
      else s
    case Signed(task) =>
      if task in s.tasks && s.tasks[task].Signing? then
        var t := s.tasks[task];
        FinishClaim(s, task, t.claim, t.tunnel, t.result, t.signatureType)
      else s
    case TunnelMessage(id, message) =>
      if id in s.tunnels then Say(s, s.tunnels[id], Client, message) else s
    case SocketData(tunnel, message) =>
      if tunnel < |s.made| && !s.made[tunnel].closed then Say(s, tunnel, Server, message) else s
    case SocketClosed(tunnel) =>
      if tunnel < |s.made| then s.(made := s.made[tunnel := s.made[tunnel].(closed := true)]) else s
  }

  lemma StepFits(env: Env, s: State, e: Event)
    requires WellFormed(s)
    ensures WellFormed(Step(env, s, e))
    ensures |Step(env, s, e).made| >= |s.made|
  {
    var t := Step(env, s, e);
    forall k <- t.tasks
      ensures TaskFits(t, t.tasks[k])
    {
      if k in s.tasks {
        assert TaskFits(s, s.tasks[k]);
      }
    }
  }

  /** Where a response comes from: it was there, or a claim has just been signed. */
  lemma ResponseFrom(env: Env, s: State, e: Event, k: nat)
    requires WellFormed(s) && k < |Step(env, s, e).responses|
    ensures var r := Step(env, s, e).responses[k];
            if k < |s.responses| then r == s.responses[k]
            else e.Signed? && e.task in s.tasks && Answers(s.tasks[e.task], r)
  {
  }

  /** The response to a claim that is being signed. */
  predicate Answers(task: Task, r: Response) {
    task.Signing? && r.claim == task.claim && r.tunnel == task.tunnel && r.result == task.result
  }

  /** The request that a step takes further, or ends. */
  function TaskOf(e: Event): Option<nat> {
    match e
    case TunnelMessage(_, _) => None
    case SocketData(_, _) => None
    case SocketClosed(_) => None
    case _ => Some(e.task)
  }

  lemma OthersStay(env: Env, s: State, e: Event, k: nat)
    requires WellFormed(s) && TaskOf(e) != Some(k)
    ensures k in Step(env, s, e).tasks <==> k in s.tasks
    ensures k in s.tasks ==> Step(env, s, e).tasks[k] == s.tasks[k]
  {
  }

  /** The state after the events. */
  function Run(env: Env, s: State, events: seq<Event>): (t: State)
    requires WellFormed(s)
    ensures WellFormed(t)
  {
    if events == [] then s
    else
      var n := |events| - 1;
      StepFits(env, Run(env, s, events[..n]), events[n]);
      Step(env, Run(env, s, events[..n]), events[n])
  }

  // ----- the program -----

  class AttestorServerSocket {
    const env: Env
    var metadata: Option<Metadata>
    var isInitialised: bool
    var tunnels: map<nat, nat>
    var made: seq<Tunnel>
    var tasks: map<nat, Task>
    var responses: seq<Response>

    constructor (env: Env)
      ensures this.env == env && Here() == INITIAL
    {
      this.env := env;
      metadata, isInitialised, tunnels, made, tasks, responses := None, false, map[], [], map[], [];
    }

    function Here(): State
      reads this
    {
      State(metadata, isInitialised, tunnels, made, tasks, responses)
    }

    method Init(task: nat, initRequest: Metadata)
      modifies this
      ensures Here() == StartInit(env, old(Here()), task, initRequest)
    {
      if isInitialised || !env.supported(initRequest.signatureType) || initRequest.clientVersion <= 0 {
        return;
      }
      tasks := tasks[task := CheckingAuth(initRequest)];
    }

    method InitChecked(task: nat, initRequest: Metadata)
      modifies this
      ensures Here() == FinishInit(env, old(Here()), task, initRequest)
    {
      tasks := tasks - {task};
      if env.authValid(initRequest.auth, initRequest.signatureType) {
        metadata := Some(initRequest);
        isInitialised := true;
      }
    }

    method CreateTunnel(task: nat, id: nat, opts: TunnelRequest)
      modifies this
      ensures Here() == StartCreate(old(Here()), task, id, opts)
    {
      if !isInitialised {
        return;  // the message handler asks for initialisation first
      }
      if id in tunnels {
        return;
      }
      if metadata.Some? {
        var allowedHosts := metadata.value.hostWhitelist;
        if |allowedHosts| > 0 && opts.host !in allowedHosts {
          return;
        }
      }
      tasks := tasks[task := Connecting(id, opts)];
    }

    method ClaimClosed(task: nat, claim: Claim, tunnel: nat, now: int)
      requires tunnel < |made|
      modifies this
      ensures Here() == CheckClaim(old(Here()), task, claim, tunnel, now)
    {
      var createRequest := made[tunnel].createRequest;
      if createRequest.host != claim.request.host || createRequest.port != claim.request.port
         || createRequest.geoLocation != claim.request.geoLocation {
        tasks := tasks - {task};
        return;
      }
      var matches := AssertTranscriptsMatch(claim.transcript, made[tunnel].transcript);
      if !matches {
        tasks := tasks - {task};
      } else if claim.timestampS - now > MAX_CLAIM_TIMESTAMP_DIFF_S || metadata == None {
        tasks := tasks[task := Signing(claim, tunnel, None, SignatureType(Here()))];
      } else {
        tasks := tasks[task := Validating(claim, tunnel, metadata.value)];
      }
    }

    method ClaimSigned(task: nat, claim: Claim, tunnel: nat, result: Option<Bytes>, signer: Option<nat>)
      modifies this
      ensures Here() == FinishClaim(old(Here()), task, claim, tunnel, result, signer)
    {
      tasks := tasks - {task};
      responses := responses + [Response(claim, tunnel, result, signer)];
      tunnels := tunnels - {claim.id};
    }

    /** Everything that happens to the session, one step at a time. */
    method Handle(e: Event)
      requires WellFormed(Here())
      modifies this
      ensures Here() == Step(env, old(Here()), e) && WellFormed(Here())
    {
      StepFits(env, Here(), e);
      match e
      case InitRequest(task, m) =>
        if task !in tasks { Init(task, m); }
      case AuthChecked(task) =>
        if task in tasks && tasks[task].CheckingAuth? { InitChecked(task, tasks[task].metadata); }
      case CreateRequest(task, id, opts) =>
        if task !in tasks { CreateTunnel(task, id, opts); }
      case Connected(task, ok) =>
        if task in tasks && tasks[task].Connecting? {
          if ok {
            var t := tasks[task];
            tasks := tasks[task := CheckingBgp(t.id, |made|)];
            made := made + [Tunnel(t.opts, [], false)];
          } else {
            tasks := tasks - {task};
          }
        }
      case BgpChecked(task) =>
        if task in tasks && tasks[task].CheckingBgp? {
          var t := tasks[task];
          tasks := tasks - {task};
          tunnels := tunnels[t.id := t.tunnel];
        }
      case ClaimRequest(task, claim) =>
        if task !in tasks && isInitialised && claim.id in tunnels {
          tasks := tasks[task := Closing(claim, tunnels[claim.id])];
        }
      case TunnelClosed(task, now) =>
        if task in tasks && tasks[task].Closing? {
          assert TaskFits(Here(), tasks[task]);
          ClaimClosed(task, tasks[task].claim, tasks[task].tunnel, now);
        }
      case Validated(task) =>
        if task in tasks && tasks[task].Validating? {
          var t := tasks[task];
          tasks := tasks[task := Signing(t.claim, t.tunnel, env.validate(t.claim, t.metadata), SignatureType(Here()))];
        }
      case Signed(task) =>
        if task in tasks && tasks[task].Signing? {
          var t := tasks[task];
          ClaimSigned(task, t.claim, t.tunnel, t.result, t.signatureType);
        }
      case TunnelMessage(id, message) =>
        if id in tunnels {
          var t := tunnels[id];
          made := made[t := made[t].(transcript := made[t].transcript + [Chunk(Client, message)])];
        }
      case SocketData(tunnel, message) =>
        if tunnel < |made| && !made[tunnel].closed {
          made := made[tunnel := made[tunnel].(transcript := made[tunnel].transcript + [Chunk(Server, message)])];
        }
      case SocketClosed(tunnel) =>
        if tunnel < |made| {
          made := made[tunnel := made[tunnel].(closed := true)];
        }
    }
  }
}
