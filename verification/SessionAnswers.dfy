/**
 What becomes of a client's request, whatever other requests and traffic come between its
 steps: when an initialisation takes effect, a tunnel is registered, a claim is signed.
 */
module SessionAnswers {
  import opened ByteData
  import opened Session
  import opened SessionSafety

  /** None of the events takes the request further. */
  predicate Without(events: seq<Event>, task: nat) {
    forall k :: 0 <= k < |events| ==> TaskOf(events[k]) != Some(task)
  }

  /** A request stays where it is as long as it is not taken further. */
  lemma {:induction false} RequestStays(env: Env, s: State, events: seq<Event>, task: nat)
    requires WellFormed(s) && Without(events, task)
    ensures var t := Run(env, s, events);
            && (task in t.tasks <==> task in s.tasks)
            && (task in s.tasks ==> t.tasks[task] == s.tasks[task])
            && Grows(s, t)
    decreases |events|
  {
    if events != [] {
      var n := |events| - 1;
      RequestStays(env, s, events[..n], task);
      OthersStay(env, Run(env, s, events[..n]), events[n], task);
      StepGrows(env, Run(env, s, events[..n]), events[n]);
      GrowsOn(s, Run(env, s, events[..n]), Run(env, s, events));
    }
  }

  lemma GrowsOn(s: State, t: State, u: State)
    requires Grows(s, t) && Grows(t, u)
    ensures Grows(s, u)
  {
    forall i | 0 <= i < |s.made|
      ensures TunnelGrows(s.made[i], u.made[i])
    {
      assert TunnelGrows(s.made[i], t.made[i]) && TunnelGrows(t.made[i], u.made[i]);
    }
  }

  // ----- initialisation -----

  /** The client may initialise the session so. */
  predicate MayInitialise(env: Env, s: State, m: Metadata) {
    && !s.isInitialised && env.supported(m.signatureType) && m.clientVersion > 0
    && env.authValid(m.auth, m.signatureType)
  }

  /**
   A request to initialise the session takes effect, when its authentication has been
   checked, if and only if the session was not initialised when it came, its signature type is
   supported, its version above 0 and its authentication valid.
   */
  lemma InitAnswered(env: Env, s: State, task: nat, m: Metadata, others: seq<Event>)
    requires WellFormed(s) && task !in s.tasks && Without(others, task)
    ensures WellFormed(Step(env, s, InitRequest(task, m)))
    ensures var before := Run(env, Step(env, s, InitRequest(task, m)), others);
            var end := Step(env, before, AuthChecked(task));
            && task !in end.tasks
            && end.tunnels == before.tunnels && end.made == before.made && end.responses == before.responses
            && if MayInitialise(env, s, m) then end.isInitialised && end.metadata == Some(m)
               else end.isInitialised == before.isInitialised && end.metadata == before.metadata
  {
    StepFits(env, s, InitRequest(task, m));
    RequestStays(env, Step(env, s, InitRequest(task, m)), others, task);
  }

  // ----- tunnels -----

  /** The client may have a tunnel with this ID to this host. */
  predicate MayOpen(s: State, id: nat, host: Bytes) {
    && s.isInitialised && id !in s.tunnels
    && (s.metadata.Some? ==> s.metadata.value.hostWhitelist == [] || host in s.metadata.value.hostWhitelist)
  }

  /**
   A request for a tunnel makes one with an empty transcript, when its socket is connected,
   and its ID means this tunnel, when the check of the connection ends, if and only if the
   session was initialised when the request came, the ID was not in use, the host was
   allowed and the connection succeeds.
   */
  lemma TunnelAnswered(env: Env, s: State, task: nat, id: nat, opts: TunnelRequest, a: seq<Event>, ok: bool, b: seq<Event>)
    returns (connecting: State, connected: State, checked: State, end: State)
    requires WellFormed(s) && task !in s.tasks && Without(a, task) && Without(b, task)
    ensures WellFormed(Step(env, s, CreateRequest(task, id, opts)))
    ensures connecting == Run(env, Step(env, s, CreateRequest(task, id, opts)), a)
    ensures connected == Step(env, connecting, Connected(task, ok)) && WellFormed(connected)
    ensures checked == Run(env, connected, b) && end == Step(env, checked, BgpChecked(task))
    ensures task !in end.tasks && end.made == checked.made
    ensures if MayOpen(s, id, opts.host) && ok then
              && connected.made == connecting.made + [Tunnel(opts, [], false)]
              && end.tunnels == checked.tunnels[id := |connecting.made|]
            else connected.made == connecting.made && end.tunnels == checked.tunnels
  {
    var begun := Step(env, s, CreateRequest(task, id, opts));
    StepFits(env, s, CreateRequest(task, id, opts));
    connecting := Run(env, begun, a);
    RequestStays(env, begun, a, task);
    connected := Step(env, connecting, Connected(task, ok));
    StepFits(env, connecting, Connected(task, ok));
    checked := Run(env, connected, b);
    RequestStays(env, connected, b, task);
    end := Step(env, checked, BgpChecked(task));
  }

  // ----- claims -----

  /** The claim agrees with the tunnel: where it leads, all that was sent, and the beginning of what was received. */
  predicate MayClaim(s: State, claim: Claim, x: nat) {
    && x < |s.made| && s.made[x].createRequest == claim.request
    && Claimed(claim.transcript, 1) == Said(s.made[x].transcript, Client)
    && Claimed(claim.transcript, 2) <= Said(s.made[x].transcript, Server)
  }

  /** The claim's time is more than ten minutes ahead of the attestor's. */
  predicate TooFarAhead(claim: Claim, now: int) {
    claim.timestampS > now + 600
  }

  function Signer(s: State): Option<nat> {
    if s.metadata.Some? then Some(s.metadata.value.signatureType) else None
  }

  lemma ClaimCompared(env: Env, s: State, task: nat, now: int, claim: Claim, x: nat)
    requires WellFormed(s) && task in s.tasks && s.tasks[task] == Closing(claim, x)
    ensures var t := Step(env, s, TunnelClosed(task, now));
            if !MayClaim(s, claim, x) then t == s.(tasks := s.tasks - {task})
            else if TooFarAhead(claim, now) || s.metadata == None then
              t == s.(tasks := s.tasks[task := Signing(claim, x, None, Signer(s))])
            else t == s.(tasks := s.tasks[task := Validating(claim, x, s.metadata.value)])
  {
    assert TaskFits(s, s.tasks[task]);
  }

  /** A step of a request that is not in progress, or not at this step, does nothing. */
  lemma NothingToDo(env: Env, s: State, task: nat)
    requires WellFormed(s)
    ensures task !in s.tasks || !s.tasks[task].Validating? ==> Step(env, s, Validated(task)) == s
    ensures task !in s.tasks ==> Step(env, s, Signed(task)) == s
    ensures task !in s.tasks ==> forall now :: Step(env, s, TunnelClosed(task, now)) == s
  {
  }

  /**
   The claim of an initialised session for a tunnel in use is answered if and only if it
   agrees with this tunnel when that is closed. The answer then holds what validation gives
   under the session's metadata of that time, unless the claim's time is too far ahead;
   its ID means no tunnel any more. Other claims are not answered.
   */
  lemma ClaimAnswered(env: Env, s: State, task: nat, claim: Claim, a: seq<Event>, now: int, b: seq<Event>, c: seq<Event>)
    returns (closing: State, validating: State, signing: State, end: State)
    requires WellFormed(s) && task !in s.tasks && Without(a, task) && Without(b, task) && Without(c, task)
    ensures WellFormed(Step(env, s, ClaimRequest(task, claim)))
    ensures closing == Run(env, Step(env, s, ClaimRequest(task, claim)), a)
    ensures WellFormed(Step(env, closing, TunnelClosed(task, now)))
    ensures validating == Run(env, Step(env, closing, TunnelClosed(task, now)), b)
    ensures WellFormed(Step(env, validating, Validated(task)))
    ensures signing == Run(env, Step(env, validating, Validated(task)), c)
    ensures end == Step(env, signing, Signed(task)) && task !in end.tasks
    ensures if s.isInitialised && claim.id in s.tunnels && MayClaim(closing, claim, s.tunnels[claim.id]) then
              var m := closing.metadata;
              var late := TooFarAhead(claim, now) || m == None;
              && end.responses == signing.responses
                                  + [Response(claim, s.tunnels[claim.id], if late then None else env.validate(claim, m.value),
                                              Signer(if late then closing else validating))]
              && end.tunnels == signing.tunnels - {claim.id}
            else end.responses == signing.responses && end.tunnels == signing.tunnels
  {
    var begun := Step(env, s, ClaimRequest(task, claim));
    StepFits(env, s, ClaimRequest(task, claim));
    closing := Run(env, begun, a);
    RequestStays(env, begun, a, task);
    StepFits(env, closing, TunnelClosed(task, now));
    NothingToDo(env, closing, task);
    if s.isInitialised && claim.id in s.tunnels {
      ClaimCompared(env, closing, task, now, claim, s.tunnels[claim.id]);
    }
    var compared := Step(env, closing, TunnelClosed(task, now));
    validating, signing, end := ClaimFinished(env, compared, task, b, c);
  }

  /** From the comparison on. */
  lemma ClaimFinished(env: Env, s: State, task: nat, b: seq<Event>, c: seq<Event>)
    returns (validating: State, signing: State, end: State)
    requires WellFormed(s) && Without(b, task) && Without(c, task)
    requires task in s.tasks ==> s.tasks[task].Validating? || s.tasks[task].Signing?
    ensures validating == Run(env, s, b) && WellFormed(Step(env, validating, Validated(task)))
    ensures signing == Run(env, Step(env, validating, Validated(task)), c)
    ensures end == Step(env, signing, Signed(task)) && task !in end.tasks
    ensures if task in s.tasks then
              var t := s.tasks[task];
              var result := if t.Signing? then t.result else env.validate(t.claim, t.metadata);
              var signer := if t.Signing? then t.signatureType else Signer(validating);
              && end.responses == signing.responses + [Response(t.claim, t.tunnel, result, signer)]
              && end.tunnels == signing.tunnels - {t.claim.id}
            else end == signing
  {
    validating := Run(env, s, b);
    RequestStays(env, s, b, task);
    StepFits(env, validating, Validated(task));
    var validated := Step(env, validating, Validated(task));
    NothingToDo(env, validating, task);
    signing := Run(env, validated, c);
    RequestStays(env, validated, c, task);
    NothingToDo(env, signing, task);
    end := Step(env, signing, Signed(task));
  }
}
