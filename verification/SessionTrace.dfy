/**
 Where what a session holds comes from: for every run, the requests that led to its
 metadata, its tunnels and the results it signed.
 */
module SessionTrace {
  import opened ByteData
  import opened Session

  // ----- what was asked, and when -----

  /** An initialisation that may go ahead was asked for at the event. */
  predicate InitAt(env: Env, events: seq<Event>, i: nat, task: nat, m: Metadata)
    requires i < |events|
  {
    && events[i] == InitRequest(task, m) && !Run(env, INITIAL, events[..i]).isInitialised
    && env.supported(m.signatureType) && m.clientVersion > 0
  }

  ghost predicate InitAsked(env: Env, events: seq<Event>, task: nat, m: Metadata) {
    exists i: nat :: i < |events| && InitAt(env, events, i, task, m)
  }

  /** The authentication was found valid at the event, after the initialisation was asked for. */
  ghost predicate AdmittedAt(env: Env, events: seq<Event>, j: nat, m: Metadata)
    requires j < |events|
  {
    events[j].AuthChecked? && env.authValid(m.auth, m.signatureType) && InitAsked(env, events[..j], events[j].task, m)
  }

  ghost predicate Admitted(env: Env, events: seq<Event>, m: Metadata) {
    exists j: nat :: j < |events| && AdmittedAt(env, events, j, m)
  }

  /** A tunnel was asked for by an initialised client, with an ID not in use and an allowed host. */
  ghost predicate TunnelAt(env: Env, events: seq<Event>, i: nat, id: nat, opts: TunnelRequest)
    requires i < |events|
  {
    var s := Run(env, INITIAL, events[..i]);
    && events[i].CreateRequest? && events[i].id == id && events[i].opts == opts
    && s.isInitialised && id !in s.tunnels
    && s.metadata.Some? && HostAllowed(s.metadata.value, opts.host)
    && Admitted(env, events[..i], s.metadata.value)
  }

  ghost predicate TunnelAsked(env: Env, events: seq<Event>, id: nat, opts: TunnelRequest) {
    exists i: nat :: i < |events| && TunnelAt(env, events, i, id, opts)
  }

  /** A result is what validation gave under metadata that was admitted. */
  ghost predicate Validated(env: Env, events: seq<Event>, claim: Claim, result: Option<Bytes>) {
    result.Some? ==> exists m :: Admitted(env, events, m) && env.validate(claim, m) == result
  }

  // ----- later it is still so -----

  lemma Earlier(events: seq<Event>, e: Event)
    ensures forall i :: 0 <= i <= |events| ==> (events + [e])[..i] == events[..i]
  {
  }

  lemma InitAskedLater(env: Env, events: seq<Event>, e: Event, task: nat, m: Metadata)
    requires InitAsked(env, events, task, m)
    ensures InitAsked(env, events + [e], task, m)
  {
    var i: nat :| i < |events| && InitAt(env, events, i, task, m);
    Earlier(events, e);
    assert InitAt(env, events + [e], i, task, m);
  }

  lemma AdmittedLater(env: Env, events: seq<Event>, e: Event, m: Metadata)
    requires Admitted(env, events, m)
    ensures Admitted(env, events + [e], m)
  {
    var j: nat :| j < |events| && AdmittedAt(env, events, j, m);
    Earlier(events, e);
    assert AdmittedAt(env, events + [e], j, m);
  }

  lemma TunnelAskedLater(env: Env, events: seq<Event>, e: Event, id: nat, opts: TunnelRequest)
    requires TunnelAsked(env, events, id, opts)
    ensures TunnelAsked(env, events + [e], id, opts)
  {
    var i: nat :| i < |events| && TunnelAt(env, events, i, id, opts);
    Earlier(events, e);
    assert TunnelAt(env, events + [e], i, id, opts);
  }

  lemma ValidatedLater(env: Env, events: seq<Event>, e: Event, claim: Claim, result: Option<Bytes>)
    requires Validated(env, events, claim, result)
    ensures Validated(env, events + [e], claim, result)
  {
    if result.Some? {
      var m :| Admitted(env, events, m) && env.validate(claim, m) == result;
      AdmittedLater(env, events, e, m);
    }
  }

  // ----- every part of the state -----

  ghost predicate TaskTraced(env: Env, events: seq<Event>, s: State, k: nat, t: Task) {
    match t
    case CheckingAuth(m) => InitAsked(env, events, k, m)
    case Connecting(id, opts) => TunnelAsked(env, events, id, opts)
    case CheckingBgp(id, tunnel) => tunnel < |s.made| && TunnelAsked(env, events, id, s.made[tunnel].createRequest)
    case Closing(_, _) => true
    case Validating(_, _, m) => Admitted(env, events, m)
    case Signing(claim, _, result, _) => Validated(env, events, claim, result)
  }

  /** The metadata of a session, and that there is some once it is initialised. */
  ghost predicate MetadataTraced(env: Env, events: seq<Event>, s: State) {
    && (s.isInitialised ==> s.metadata.Some?)
    && (s.metadata.Some? ==> Admitted(env, events, s.metadata.value))
  }

  ghost predicate TasksTraced(env: Env, events: seq<Event>, s: State) {
    forall k <- s.tasks :: TaskTraced(env, events, s, k, s.tasks[k])
  }

  ghost predicate MadeTraced(env: Env, events: seq<Event>, s: State, x: nat)
    requires x < |s.made|
  {
    exists id :: TunnelAsked(env, events, id, s.made[x].createRequest)
  }

  ghost predicate TunnelsTraced(env: Env, events: seq<Event>, s: State) {
    && (forall x: nat :: x < |s.made| ==> MadeTraced(env, events, s, x))
    && (forall id <- s.tunnels ::
          s.tunnels[id] < |s.made| && TunnelAsked(env, events, id, s.made[s.tunnels[id]].createRequest))
  }

  ghost predicate ResponsesTraced(env: Env, events: seq<Event>, s: State) {
    forall k :: 0 <= k < |s.responses| ==> Validated(env, events, s.responses[k].claim, s.responses[k].result)
  }

  ghost predicate Traced(env: Env, events: seq<Event>) {
    var s := Run(env, INITIAL, events);
    && MetadataTraced(env, events, s) && TasksTraced(env, events, s)
    && TunnelsTraced(env, events, s) && ResponsesTraced(env, events, s)
  }

  lemma RunOn(env: Env, events: seq<Event>, e: Event)
    ensures Run(env, INITIAL, events + [e]) == Step(env, Run(env, INITIAL, events), e)
  {
    assert (events + [e])[..|events|] == events;
  }

  lemma SameRequests(env: Env, s: State, e: Event, x: nat)
    requires WellFormed(s) && x < |s.made|
    ensures x < |Step(env, s, e).made| && Step(env, s, e).made[x].createRequest == s.made[x].createRequest
  {
  }

  /** How the metadata comes about. */
  lemma MetadataFrom(env: Env, s: State, e: Event)
    requires WellFormed(s)
    ensures var t := Step(env, s, e);
            || (t.isInitialised == s.isInitialised && t.metadata == s.metadata)
            || (e.AuthChecked? && e.task in s.tasks && s.tasks[e.task].CheckingAuth?
                && t.metadata == Some(s.tasks[e.task].metadata)
                && env.authValid(t.metadata.value.auth, t.metadata.value.signatureType))
  {
  }

  lemma MetadataStep(env: Env, events: seq<Event>, e: Event, s: State)
    requires s == Run(env, INITIAL, events) && Traced(env, events)
    ensures MetadataTraced(env, events + [e], Step(env, s, e))
  {
    var t := Step(env, s, e);
    MetadataFrom(env, s, e);
    if t.isInitialised == s.isInitialised && t.metadata == s.metadata {
      if s.metadata.Some? {
        AdmittedLater(env, events, e, s.metadata.value);
      }
    } else {
      assert TaskTraced(env, events, s, e.task, s.tasks[e.task]);
      Earlier(events, e);
      assert AdmittedAt(env, events + [e], |events|, t.metadata.value);
    }
  }

  /** A task that the step leaves as it is. */
  lemma TaskLater(env: Env, events: seq<Event>, e: Event, s: State, k: nat)
    requires s == Run(env, INITIAL, events) && k in s.tasks && TaskTraced(env, events, s, k, s.tasks[k])
    ensures TaskTraced(env, events + [e], Step(env, s, e), k, s.tasks[k])
  {
    match s.tasks[k]
    case CheckingAuth(m) => InitAskedLater(env, events, e, k, m);
    case Connecting(id, opts) => TunnelAskedLater(env, events, e, id, opts);
    case CheckingBgp(id, tunnel) =>
      SameRequests(env, s, e, tunnel);
      TunnelAskedLater(env, events, e, id, s.made[tunnel].createRequest);
    case Closing(_, _) =>
    case Validating(_, _, m) => AdmittedLater(env, events, e, m);
    case Signing(claim, _, result, _) => ValidatedLater(env, events, e, claim, result);
  }

  /** How a task begins. */
  lemma Begins(env: Env, s: State, e: Event, k: nat)
    requires WellFormed(s) && k !in s.tasks && k in Step(env, s, e).tasks
    ensures var task := Step(env, s, e).tasks[k];
            || (task.Closing? && e.ClaimRequest?)
            || (task.CheckingAuth? && e == InitRequest(k, task.metadata) && !s.isInitialised
                && env.supported(task.metadata.signatureType) && task.metadata.clientVersion > 0)
            || (task.Connecting? && e == CreateRequest(k, task.id, task.opts)
                && s.isInitialised && task.id !in s.tunnels
                && (s.metadata.Some? ==> HostAllowed(s.metadata.value, task.opts.host)))
  {
  }

  /** How a task goes on. */
  lemma GoesOn(env: Env, s: State, e: Event, k: nat)
    requires WellFormed(s) && k in s.tasks && k in Step(env, s, e).tasks && Step(env, s, e).tasks[k] != s.tasks[k]
    ensures var before, task, t := s.tasks[k], Step(env, s, e).tasks[k], Step(env, s, e);
            || (before.Connecting? && task == CheckingBgp(before.id, |s.made|)
                && |t.made| == |s.made| + 1 && t.made[|s.made|].createRequest == before.opts)
            || (before.Closing? && (task.Validating? ==> Some(task.metadata) == s.metadata)
                && (task.Validating? || (task.Signing? && task.result == None)))
            || (before.Validating? && task.Signing? && task.result == env.validate(task.claim, before.metadata))
  {
    assert TaskFits(s, s.tasks[k]);
  }

  /** A task that the step begins. */
  lemma TaskBegins(env: Env, events: seq<Event>, e: Event, s: State, k: nat)
    requires s == Run(env, INITIAL, events) && MetadataTraced(env, events, s)
    requires k !in s.tasks && k in Step(env, s, e).tasks
    ensures TaskTraced(env, events + [e], Step(env, s, e), k, Step(env, s, e).tasks[k])
  {
    Begins(env, s, e, k);
    Earlier(events, e);
    var task := Step(env, s, e).tasks[k];
    if task.CheckingAuth? {
      assert InitAt(env, events + [e], |events|, k, task.metadata);
    } else if task.Connecting? {
      assert TunnelAt(env, events + [e], |events|, task.id, task.opts);
    }
  }

  /** A task that the step takes further. */
  lemma TaskGoesOn(env: Env, events: seq<Event>, e: Event, s: State, k: nat)
    requires s == Run(env, INITIAL, events) && MetadataTraced(env, events, s)
    requires k in s.tasks && k in Step(env, s, e).tasks && Step(env, s, e).tasks[k] != s.tasks[k]
    requires TaskTraced(env, events, s, k, s.tasks[k])
    ensures TaskTraced(env, events + [e], Step(env, s, e), k, Step(env, s, e).tasks[k])
  {
    GoesOn(env, s, e, k);
    match s.tasks[k]
    case Connecting(id, opts) => TunnelAskedLater(env, events, e, id, opts);
    case Closing(_, _) =>
      if s.metadata.Some? {
        AdmittedLater(env, events, e, s.metadata.value);
      }
    case Validating(_, _, m) => AdmittedLater(env, events, e, m);
    case _ =>
  }

  lemma TasksStep(env: Env, events: seq<Event>, e: Event, s: State)
    requires s == Run(env, INITIAL, events) && Traced(env, events)
    ensures TasksTraced(env, events + [e], Step(env, s, e))
  {
    var t := Step(env, s, e);
    forall k <- t.tasks
      ensures TaskTraced(env, events + [e], t, k, t.tasks[k])
    {
      if k !in s.tasks {
        TaskBegins(env, events, e, s, k);
      } else {
        assert TaskTraced(env, events, s, k, s.tasks[k]);
        if t.tasks[k] != s.tasks[k] {
          TaskGoesOn(env, events, e, s, k);
        } else {
          TaskLater(env, events, e, s, k);
        }
      }
    }
  }

  /** How a tunnel is made. */
  lemma Makes(env: Env, s: State, e: Event, x: nat)
    requires WellFormed(s) && |s.made| <= x < |Step(env, s, e).made|
    ensures e.Connected? && e.task in s.tasks && s.tasks[e.task].Connecting?
    ensures Step(env, s, e).made[x].createRequest == s.tasks[e.task].opts
  {
  }

  lemma MadeStep(env: Env, events: seq<Event>, e: Event, s: State, x: nat)
    requires s == Run(env, INITIAL, events) && TasksTraced(env, events, s) && TunnelsTraced(env, events, s)
    requires x < |Step(env, s, e).made|
    ensures MadeTraced(env, events + [e], Step(env, s, e), x)
  {
    if x < |s.made| {
      assert MadeTraced(env, events, s, x);
      var id :| TunnelAsked(env, events, id, s.made[x].createRequest);
      SameRequests(env, s, e, x);
      TunnelAskedLater(env, events, e, id, s.made[x].createRequest);
    } else {
      Makes(env, s, e, x);
      var task := s.tasks[e.task];
      assert TaskTraced(env, events, s, e.task, task);
      TunnelAskedLater(env, events, e, task.id, task.opts);
    }
  }

  /** How an ID comes to mean a tunnel. */
  lemma Registers(env: Env, s: State, e: Event, id: nat)
    requires WellFormed(s) && id in Step(env, s, e).tunnels
    requires !(id in s.tunnels && Step(env, s, e).tunnels[id] == s.tunnels[id])
    ensures e.BgpChecked? && e.task in s.tasks && s.tasks[e.task] == CheckingBgp(id, Step(env, s, e).tunnels[id])
    ensures Step(env, s, e).made == s.made
  {
  }

  lemma TunnelStep(env: Env, events: seq<Event>, e: Event, s: State, id: nat)
    requires s == Run(env, INITIAL, events) && TasksTraced(env, events, s) && TunnelsTraced(env, events, s)
    requires id in Step(env, s, e).tunnels
    ensures var t := Step(env, s, e);
            t.tunnels[id] < |t.made| && TunnelAsked(env, events + [e], id, t.made[t.tunnels[id]].createRequest)
  {
    var t := Step(env, s, e);
    if id in s.tunnels && t.tunnels[id] == s.tunnels[id] {
      SameRequests(env, s, e, s.tunnels[id]);
      TunnelAskedLater(env, events, e, id, s.made[s.tunnels[id]].createRequest);
    } else {
      Registers(env, s, e, id);
      assert TaskTraced(env, events, s, e.task, s.tasks[e.task]);
      TunnelAskedLater(env, events, e, id, s.made[t.tunnels[id]].createRequest);
    }
  }

  lemma ResponseStep(env: Env, events: seq<Event>, e: Event, s: State, k: nat)
    requires s == Run(env, INITIAL, events) && TasksTraced(env, events, s) && ResponsesTraced(env, events, s)
    requires k < |Step(env, s, e).responses|
    ensures Validated(env, events + [e], Step(env, s, e).responses[k].claim, Step(env, s, e).responses[k].result)
  {
    var r := Step(env, s, e).responses[k];
    ResponseFrom(env, s, e, k);
    if k >= |s.responses| {
      assert TaskTraced(env, events, s, e.task, s.tasks[e.task]);
    }
    ValidatedLater(env, events, e, r.claim, r.result);
  }

  lemma ResponsesStep(env: Env, events: seq<Event>, e: Event, s: State)
    requires s == Run(env, INITIAL, events) && Traced(env, events)
    ensures ResponsesTraced(env, events + [e], Step(env, s, e))
  {
    var t := Step(env, s, e);
    forall k | 0 <= k < |t.responses|
      ensures Validated(env, events + [e], t.responses[k].claim, t.responses[k].result)
    {
      ResponseStep(env, events, e, s, k);
    }
  }

  lemma {:induction false} AlwaysTraced(env: Env, events: seq<Event>)
    ensures Traced(env, events)
    decreases |events|
  {
    if events != [] {
      var n := |events| - 1;
      var before, e := events[..n], events[n];
      AlwaysTraced(env, before);
      TracedStep(env, before, e);
      assert before + [e] == events;
    }
  }

  lemma TracedStep(env: Env, events: seq<Event>, e: Event)
    requires Traced(env, events)
    ensures Traced(env, events + [e])
  {
    var s := Run(env, INITIAL, events);
    RunOn(env, events, e);
    var t := Step(env, s, e);
    MetadataStep(env, events, e, s);
    TasksStep(env, events, e, s);
    ResponsesStep(env, events, e, s);
    forall x: nat | x < |t.made|
      ensures MadeTraced(env, events + [e], t, x)
    {
      MadeStep(env, events, e, s, x);
    }
    forall id <- t.tunnels
      ensures t.tunnels[id] < |t.made| && TunnelAsked(env, events + [e], id, t.made[t.tunnels[id]].createRequest)
    {
      TunnelStep(env, events, e, s, id);
    }
  }

  // ----- what follows -----

  /**
   In every run an initialised session has the metadata of a request that came before
   initialisation, with a supported signature type and a version above 0, and whose
   authentication was found valid afterwards.
   */
  lemma InitialisedByValid(env: Env, events: seq<Event>) returns (m: Metadata, i: nat, j: nat)
    requires Run(env, INITIAL, events).isInitialised
    ensures Run(env, INITIAL, events).metadata == Some(m)
    ensures i < j < |events| && events[i].InitRequest? && events[i].metadata == m
    ensures !Run(env, INITIAL, events[..i]).isInitialised && env.supported(m.signatureType) && m.clientVersion > 0
    ensures events[j] == AuthChecked(events[i].task) && env.authValid(m.auth, m.signatureType)
  {
    AlwaysTraced(env, events);
    m := Run(env, INITIAL, events).metadata.value;
    i, j := AdmittedBy(env, events, m);
  }

  lemma AdmittedBy(env: Env, events: seq<Event>, m: Metadata) returns (i: nat, j: nat)
    requires Admitted(env, events, m)
    ensures i < j < |events| && events[i].InitRequest? && events[i].metadata == m
    ensures !Run(env, INITIAL, events[..i]).isInitialised && env.supported(m.signatureType) && m.clientVersion > 0
    ensures events[j] == AuthChecked(events[i].task) && env.authValid(m.auth, m.signatureType)
  {
    j :| j < |events| && AdmittedAt(env, events, j, m);
    i :| i < j && InitAt(env, events[..j], i, events[j].task, m);
    assert events[..j][..i] == events[..i];
  }

  /**
   In every run the tunnel that an ID means was asked for under this ID and with these
   options, by a session initialised by then, when the ID meant no tunnel and the
   session's metadata allowed the host.
   */
  lemma TunnelsAllowed(env: Env, events: seq<Event>, id: nat) returns (i: nat, m: Metadata)
    requires id in Run(env, INITIAL, events).tunnels
    ensures var s := Run(env, INITIAL, events);
            && s.tunnels[id] < |s.made| && i < |events| && events[i].CreateRequest?
            && events[i].id == id && events[i].opts == s.made[s.tunnels[id]].createRequest
            && HostAllowed(m, events[i].opts.host)
    ensures var before := Run(env, INITIAL, events[..i]);
            before.isInitialised && before.metadata == Some(m) && id !in before.tunnels
    ensures Admitted(env, events[..i], m)
  {
    AlwaysTraced(env, events);
    var s := Run(env, INITIAL, events);
    var opts := s.made[s.tunnels[id]].createRequest;
    i :| i < |events| && TunnelAt(env, events, i, id, opts);
    m := Run(env, INITIAL, events[..i]).metadata.value;
  }

  /** In every run each tunnel ever made, whether still in use or not, was asked for and allowed so. */
  lemma MadeAllowed(env: Env, events: seq<Event>, x: nat) returns (i: nat, m: Metadata)
    requires x < |Run(env, INITIAL, events).made|
    ensures i < |events| && events[i].CreateRequest?
    ensures events[i].opts == Run(env, INITIAL, events).made[x].createRequest && HostAllowed(m, events[i].opts.host)
    ensures var before := Run(env, INITIAL, events[..i]);
            before.isInitialised && before.metadata == Some(m) && events[i].id !in before.tunnels
    ensures Admitted(env, events[..i], m)
  {
    AlwaysTraced(env, events);
    assert MadeTraced(env, events, Run(env, INITIAL, events), x);
    var id :| TunnelAsked(env, events, id, Run(env, INITIAL, events).made[x].createRequest);
    i :| i < |events| && TunnelAt(env, events, i, id, Run(env, INITIAL, events).made[x].createRequest);
    m := Run(env, INITIAL, events[..i]).metadata.value;
  }

  /**
   In every run a claim that is signed in a response is the result of validating the
   client's claim under metadata that was admitted in this session.
   */
  lemma SignedOnlyValidated(env: Env, events: seq<Event>, k: nat) returns (m: Metadata, i: nat, j: nat)
    requires k < |Run(env, INITIAL, events).responses| && Run(env, INITIAL, events).responses[k].result.Some?
    ensures var r := Run(env, INITIAL, events).responses[k]; env.validate(r.claim, m) == r.result
    ensures i < j < |events| && events[i].InitRequest? && events[i].metadata == m
    ensures events[j] == AuthChecked(events[i].task) && env.authValid(m.auth, m.signatureType)
  {
    AlwaysTraced(env, events);
    var r := Run(env, INITIAL, events).responses[k];
    assert Validated(env, events, r.claim, r.result);
    m :| Admitted(env, events, m) && env.validate(r.claim, m) == r.result;
    i, j := AdmittedBy(env, events, m);
  }
}
