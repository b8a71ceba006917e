/**
 What holds of a session in every state it can reach, however requests and traffic
 interleave.
 */
module SessionSafety {
  import opened ByteData
  import opened Session

  // ----- what only grows -----

  predicate TunnelGrows(a: Tunnel, b: Tunnel) {
    a.createRequest == b.createRequest && a.transcript <= b.transcript && (a.closed ==> b.closed)
  }

  /** Tunnels stay, their transcripts only get longer, and responses are not taken back. */
  predicate Grows(s: State, t: State) {
    && |s.made| <= |t.made|
    && (forall i :: 0 <= i < |s.made| ==> TunnelGrows(s.made[i], t.made[i]))
    && s.responses <= t.responses
    && (s.isInitialised ==> t.isInitialised)
  }

  lemma StepGrows(env: Env, s: State, e: Event)
    requires WellFormed(s)
    ensures Grows(s, Step(env, s, e))
  {
    if TaskOf(e) == None {
      TrafficGrows(env, s, e);
    } else {
      TaskGrows(env, s, e);
    }
  }

  lemma TrafficGrows(env: Env, s: State, e: Event)
    requires WellFormed(s) && TaskOf(e) == None
    ensures Grows(s, Step(env, s, e))
  {
  }

  lemma TaskGrows(env: Env, s: State, e: Event)
    requires WellFormed(s) && TaskOf(e).Some?
    ensures Grows(s, Step(env, s, e))
  {
  }

  lemma {:induction false} RunGrows(env: Env, s: State, events: seq<Event>, n: nat)
    requires WellFormed(s) && n <= |events|
    ensures Grows(Run(env, s, events[..n]), Run(env, s, events))
    decreases |events|
  {
    if n == |events| {
      assert events[..n] == events;
    } else {
      var m := |events| - 1;
      assert events[..m][..n] == events[..n];
      RunGrows(env, s, events[..m], n);
      StepGrows(env, Run(env, s, events[..m]), events[m]);
    }
  }

  lemma {:induction false} SaidGrows(a: seq<Chunk>, b: seq<Chunk>, sender: Party)
    requires a <= b
    ensures Said(a, sender) <= Said(b, sender)
    decreases |b|
  {
    if a != b {
      SaidGrows(a, b[..|b| - 1], sender);
    }
  }

  // ----- claims -----

  /** The claim is for this tunnel, and its transcript begins the tunnel's. */
  predicate Backed(s: State, claim: Claim, tunnel: nat) {
    && tunnel < |s.made| && s.made[tunnel].createRequest == claim.request
    && Claimed(claim.transcript, SENDER_CLIENT) <= Said(s.made[tunnel].transcript, Client)
    && Claimed(claim.transcript, SENDER_SERVER) <= Said(s.made[tunnel].transcript, Server)
  }

  lemma BackedLater(s: State, t: State, claim: Claim, tunnel: nat)
    requires Backed(s, claim, tunnel) && Grows(s, t)
    ensures Backed(t, claim, tunnel)
  {
    assert TunnelGrows(s.made[tunnel], t.made[tunnel]);
    SaidGrows(s.made[tunnel].transcript, t.made[tunnel].transcript, Client);
    SaidGrows(s.made[tunnel].transcript, t.made[tunnel].transcript, Server);
  }

  /** The result is what validation of the claim gave, under the metadata of some time. */
  ghost predicate ValidFor(env: Env, claim: Claim, result: Option<Bytes>) {
    result.Some? ==> exists m :: env.validate(claim, m) == result
  }

  /** What a task that is past the check of its claim stands for. */
  ghost predicate TaskSafe(env: Env, s: State, t: Task) {
    match t
    case CheckingAuth(_) => true
    case Connecting(_, _) => s.isInitialised
    case CheckingBgp(_, _) => s.isInitialised
    case Closing(_, _) => s.isInitialised
    case Validating(claim, tunnel, _) => s.isInitialised && Backed(s, claim, tunnel)
    case Signing(claim, tunnel, result, _) =>
      s.isInitialised && Backed(s, claim, tunnel) && ValidFor(env, claim, result)
  }

  ghost predicate ResponseSafe(env: Env, s: State, r: Response) {
    Backed(s, r.claim, r.tunnel) && ValidFor(env, r.claim, r.result)
  }

  ghost predicate Safe(env: Env, s: State) {
    && WellFormed(s)
    && (!s.isInitialised ==> s.tunnels == map[] && s.made == [] && s.responses == [] && s.metadata == None)
    && (s.isInitialised ==> s.metadata.Some?)
    && (forall k <- s.tasks :: TaskSafe(env, s, s.tasks[k]))
    && (forall k :: 0 <= k < |s.responses| ==> ResponseSafe(env, s, s.responses[k]))
  }

  lemma TaskSafeLater(env: Env, s: State, t: State, task: Task)
    requires TaskSafe(env, s, task) && Grows(s, t)
    ensures TaskSafe(env, t, task)
  {
    match task
    case Validating(claim, tunnel, _) => BackedLater(s, t, claim, tunnel);
    case Signing(claim, tunnel, _, _) => BackedLater(s, t, claim, tunnel);
    case _ =>
  }

  /** Whatever a step leaves under way is safe. */
  lemma StepTask(env: Env, s: State, e: Event, k: nat)
    requires Safe(env, s) && k in Step(env, s, e).tasks
    ensures TaskSafe(env, Step(env, s, e), Step(env, s, e).tasks[k])
  {
    StepGrows(env, s, e);
    if TaskOf(e) != Some(k) {
      OthersStay(env, s, e, k);
      TaskSafeLater(env, s, Step(env, s, e), s.tasks[k]);
    } else if k in s.tasks && Step(env, s, e).tasks[k] == s.tasks[k] {
      TaskSafeLater(env, s, Step(env, s, e), s.tasks[k]);
    } else {
      OwnTaskSafe(env, s, e, k);
    }
  }

  /** The step's own request, where the step changes it. */
  lemma OwnTaskSafe(env: Env, s: State, e: Event, own: nat)
    requires Safe(env, s) && TaskOf(e) == Some(own) && own in Step(env, s, e).tasks
    requires !(own in s.tasks && Step(env, s, e).tasks[own] == s.tasks[own])
    ensures TaskSafe(env, Step(env, s, e), Step(env, s, e).tasks[own])
  {
    if own in s.tasks {
      assert TaskSafe(env, s, s.tasks[own]);
      assert TaskFits(s, s.tasks[own]);
    }
  }

  lemma StepResponses(env: Env, s: State, e: Event, k: nat)
    requires Safe(env, s) && k < |Step(env, s, e).responses|
    ensures ResponseSafe(env, Step(env, s, e), Step(env, s, e).responses[k])
  {
    var t := Step(env, s, e);
    StepGrows(env, s, e);
    ResponseFrom(env, s, e, k);
    if k < |s.responses| {
      BackedLater(s, t, s.responses[k].claim, s.responses[k].tunnel);
    } else {
      var task := s.tasks[e.task];
      assert TaskSafe(env, s, task);
      BackedLater(s, t, task.claim, task.tunnel);
    }
  }

  /** Before initialisation nothing but the check of an initialisation is under way. */
  lemma StepGate(env: Env, s: State, e: Event)
    requires Safe(env, s)
    ensures var t := Step(env, s, e);
            && (!t.isInitialised ==> t.tunnels == map[] && t.made == [] && t.responses == [] && t.metadata == None)
            && (t.isInitialised ==> t.metadata.Some?)
  {
    match e
    case Connected(task, _) => assert task in s.tasks ==> TaskSafe(env, s, s.tasks[task]);
    case BgpChecked(task) => assert task in s.tasks ==> TaskSafe(env, s, s.tasks[task]);
    case Signed(task) => assert task in s.tasks ==> TaskSafe(env, s, s.tasks[task]);
    case _ =>
  }

  lemma StepSafe(env: Env, s: State, e: Event)
    requires Safe(env, s)
    ensures Safe(env, Step(env, s, e))
  {
    var t := Step(env, s, e);
    StepFits(env, s, e);
    StepGrows(env, s, e);
    StepGate(env, s, e);
    forall k <- t.tasks
      ensures TaskSafe(env, t, t.tasks[k])
    {
      StepTask(env, s, e, k);
    }
    forall k | 0 <= k < |t.responses|
      ensures ResponseSafe(env, t, t.responses[k])
    {
      StepResponses(env, s, e, k);
    }
  }

  /**
   In every state that a session reaches: there are tunnels only after initialisation;
   and every signed response is for a tunnel with the claim's host, port and location,
   whose transcript begins with what the claim says was sent and received, both ways,
   with a result only if the claim was validated.
   */
  lemma {:induction false} AlwaysSafe(env: Env, events: seq<Event>)
    ensures Safe(env, Run(env, INITIAL, events))
  {
    if events != [] {
      var n := |events| - 1;
      AlwaysSafe(env, events[..n]);
      StepSafe(env, Run(env, INITIAL, events[..n]), events[n]);
    }
  }

  // ----- what was compared -----

  /** The claim agrees with the tunnel as it is: all that was sent, and no more. */
  predicate Agrees(s: State, claim: Claim, tunnel: nat) {
    && tunnel < |s.made| && s.made[tunnel].createRequest == claim.request
    && TranscriptsMatch(claim.transcript, s.made[tunnel].transcript)
  }

  /** The comparison was made at the event. */
  predicate ComparedAt(env: Env, events: seq<Event>, n: nat, claim: Claim, tunnel: nat)
    requires n < |events|
  {
    events[n].TunnelClosed? && Agrees(Run(env, INITIAL, events[..n]), claim, tunnel)
  }

  ghost predicate Compared(env: Env, events: seq<Event>, claim: Claim, tunnel: nat) {
    exists n :: 0 <= n < |events| && ComparedAt(env, events, n, claim, tunnel)
  }

  lemma ComparedLater(env: Env, events: seq<Event>, e: Event, claim: Claim, tunnel: nat)
    requires Compared(env, events, claim, tunnel)
    ensures Compared(env, events + [e], claim, tunnel)
  {
    var n :| 0 <= n < |events| && ComparedAt(env, events, n, claim, tunnel);
    assert (events + [e])[..n] == events[..n];
    assert ComparedAt(env, events + [e], n, claim, tunnel);
  }

  /** Claims past their check, and answered ones, have been compared. */
  ghost predicate AllCompared(env: Env, events: seq<Event>) {
    var s := Run(env, INITIAL, events);
    && (forall k <- s.tasks :: Checked(s.tasks[k]) ==>
          Compared(env, events, s.tasks[k].claim, s.tasks[k].tunnel))
    && (forall k :: 0 <= k < |s.responses| ==> Compared(env, events, s.responses[k].claim, s.responses[k].tunnel))
  }

  /** A claim past its check. */
  predicate Checked(t: Task) {
    t.Validating? || t.Signing?
  }

  /** Where a claim past its check comes from. */
  lemma TaskFrom(env: Env, s: State, e: Event, k: nat)
    requires WellFormed(s) && k in Step(env, s, e).tasks && Checked(Step(env, s, e).tasks[k])
    ensures var task := Step(env, s, e).tasks[k];
            || (k in s.tasks && Checked(s.tasks[k]) && s.tasks[k].claim == task.claim && s.tasks[k].tunnel == task.tunnel)
            || (e.TunnelClosed? && Agrees(s, task.claim, task.tunnel))
  {
    if TaskOf(e) != Some(k) {
      OthersStay(env, s, e, k);
    } else if k in s.tasks {
      OwnTaskFrom(env, s, e, s.tasks[k]);
    }
  }

  lemma OwnTaskFrom(env: Env, s: State, e: Event, before: Task)
    requires WellFormed(s) && TaskOf(e).Some? && TaskOf(e).value in s.tasks && s.tasks[TaskOf(e).value] == before
    requires TaskOf(e).value in Step(env, s, e).tasks && Checked(Step(env, s, e).tasks[TaskOf(e).value])
    ensures var task := Step(env, s, e).tasks[TaskOf(e).value];
            || (Checked(before) && before.claim == task.claim && before.tunnel == task.tunnel)
            || (e.TunnelClosed? && Agrees(s, task.claim, task.tunnel))
  {
    assert TaskFits(s, before);
  }

  lemma ComparedNow(env: Env, events: seq<Event>, e: Event, claim: Claim, tunnel: nat)
    requires e.TunnelClosed? && Agrees(Run(env, INITIAL, events), claim, tunnel)
    ensures Compared(env, events + [e], claim, tunnel)
  {
    assert (events + [e])[..|events|] == events;
    assert ComparedAt(env, events + [e], |events|, claim, tunnel);
  }

  lemma ComparedTask(env: Env, events: seq<Event>, e: Event, s: State, k: nat)
    requires AllCompared(env, events) && s == Run(env, INITIAL, events)
    requires k in Step(env, s, e).tasks && Checked(Step(env, s, e).tasks[k])
    ensures Compared(env, events + [e], Step(env, s, e).tasks[k].claim, Step(env, s, e).tasks[k].tunnel)
  {
    var task := Step(env, s, e).tasks[k];
    TaskFrom(env, s, e, k);
    if e.TunnelClosed? && Agrees(s, task.claim, task.tunnel) {
      ComparedNow(env, events, e, task.claim, task.tunnel);
    } else {
      ComparedLater(env, events, e, task.claim, task.tunnel);
    }
  }

  lemma ComparedResponse(env: Env, events: seq<Event>, e: Event, s: State, k: nat)
    requires AllCompared(env, events) && s == Run(env, INITIAL, events) && k < |Step(env, s, e).responses|
    ensures Compared(env, events + [e], Step(env, s, e).responses[k].claim, Step(env, s, e).responses[k].tunnel)
  {
    var r := Step(env, s, e).responses[k];
    ResponseFrom(env, s, e, k);
    ComparedLater(env, events, e, r.claim, r.tunnel);
  }

  lemma ComparedStep(env: Env, events: seq<Event>, e: Event)
    requires AllCompared(env, events)
    ensures AllCompared(env, events + [e])
  {
    var s := Run(env, INITIAL, events);
    RunNext(env, INITIAL, events, e);
    var t := Step(env, s, e);
    forall k <- t.tasks | Checked(t.tasks[k])
      ensures Compared(env, events + [e], t.tasks[k].claim, t.tasks[k].tunnel)
    {
      ComparedTask(env, events, e, s, k);
    }
    forall k | 0 <= k < |t.responses|
      ensures Compared(env, events + [e], t.responses[k].claim, t.responses[k].tunnel)
    {
      ComparedResponse(env, events, e, s, k);
    }
  }

  lemma {:induction false} EveryClaimCompared(env: Env, events: seq<Event>)
    ensures AllCompared(env, events)
  {
    if events != [] {
      var n := |events| - 1;
      EveryClaimCompared(env, events[..n]);
      ComparedStep(env, events[..n], events[n]);
      assert events[..n] + [events[n]] == events;
    }
  }

  /**
   Every signed response was issued for a tunnel which, at some point of the run, had
   sent exactly the bytes the claim says and received at least those; and in every
   later state both are still the beginning of what that tunnel sent and received.
   */
  lemma ResponsesCompared(env: Env, events: seq<Event>, n: nat, k: nat) returns (checked: nat)
    requires n <= |events| && k < |Run(env, INITIAL, events[..n]).responses|
    ensures var r := Run(env, INITIAL, events[..n]).responses[k];
            && checked < n && ComparedAt(env, events, checked, r.claim, r.tunnel)
            && Backed(Run(env, INITIAL, events), r.claim, r.tunnel)
            && k < |Run(env, INITIAL, events).responses| && Run(env, INITIAL, events).responses[k] == r
  {
    var s := Run(env, INITIAL, events[..n]);
    var r := s.responses[k];
    EveryClaimCompared(env, events[..n]);
    checked :| 0 <= checked < n && ComparedAt(env, events[..n], checked, r.claim, r.tunnel);
    assert events[..n][..checked] == events[..checked];
    AlwaysSafe(env, events[..n]);
    RunGrows(env, INITIAL, events, n);
    BackedLater(s, Run(env, INITIAL, events), r.claim, r.tunnel);
  }

  // ----- initialisation -----

  /** Initialisations that would still change the metadata. */
  predicate WouldChange(env: Env, s: State, t: Task) {
    t.CheckingAuth? && env.authValid(t.metadata.auth, t.metadata.signatureType) && Some(t.metadata) != s.metadata
  }

  predicate Settled(env: Env, s: State) {
    s.isInitialised && forall k <- s.tasks :: !WouldChange(env, s, s.tasks[k])
  }

  lemma StepSettled(env: Env, s: State, e: Event)
    requires WellFormed(s) && Settled(env, s)
    ensures Settled(env, Step(env, s, e)) && Step(env, s, e).metadata == s.metadata
  {
    var t := Step(env, s, e);
    if e.AuthChecked? && e.task in s.tasks {
      assert !WouldChange(env, s, s.tasks[e.task]);
    }
    forall k <- t.tasks
      ensures !WouldChange(env, t, t.tasks[k])
    {
      if k in s.tasks {
        assert !WouldChange(env, s, s.tasks[k]);
      }
    }
  }

  lemma {:induction false} RunSettled(env: Env, s: State, events: seq<Event>)
    requires WellFormed(s) && Settled(env, s)
    ensures Settled(env, Run(env, s, events)) && Run(env, s, events).metadata == s.metadata
  {
    if events != [] {
      var n := |events| - 1;
      RunSettled(env, s, events[..n]);
      StepSettled(env, Run(env, s, events[..n]), events[n]);
    }
  }

  /** The metadata of the session is the same in every state to come. */
  ghost predicate MetadataFixed(env: Env, s: State)
    requires WellFormed(s)
  {
    forall events :: Run(env, s, events).metadata == s.metadata
  }

  /**
   The metadata of an initialised session is fixed exactly when no other valid
   initialisation is still being checked: one that began before the first ended
   replaces what the first one set.
   */
  lemma MetadataFixedExactlyWhen(env: Env, s: State)
    requires WellFormed(s) && s.isInitialised
    ensures MetadataFixed(env, s) <==> Settled(env, s)
  {
    if Settled(env, s) {
      forall events
        ensures Run(env, s, events).metadata == s.metadata
      {
        RunSettled(env, s, events);
      }
    } else {
      var k :| k in s.tasks && WouldChange(env, s, s.tasks[k]);
      var events := [AuthChecked(k)];
      assert events[..0] == [];
      assert Run(env, s, []) == s;
      assert Run(env, s, events).metadata == Some(s.tasks[k].metadata);
    }
  }

  lemma RunNext(env: Env, s: State, events: seq<Event>, e: Event)
    requires WellFormed(s)
    ensures Run(env, s, events + [e]) == Step(env, Run(env, s, events), e)
  {
    assert (events + [e])[..|events|] == events;
  }

  /** Two initialisations that overlap both succeed, and the later one counts. */
  lemma OverlappingInits(env: Env, a: Metadata, b: Metadata)
    requires env.supported(a.signatureType) && a.clientVersion > 0 && env.authValid(a.auth, a.signatureType)
    requires env.supported(b.signatureType) && b.clientVersion > 0 && env.authValid(b.auth, b.signatureType)
    ensures var events := [InitRequest(0, a), InitRequest(1, b), AuthChecked(0)];
            && Run(env, INITIAL, events).isInitialised && Run(env, INITIAL, events).metadata == Some(a)
            && Run(env, INITIAL, events + [AuthChecked(1)]).metadata == Some(b)
  {
    RunNext(env, INITIAL, [], InitRequest(0, a));
    RunNext(env, INITIAL, [InitRequest(0, a)], InitRequest(1, b));
    RunNext(env, INITIAL, [InitRequest(0, a), InitRequest(1, b)], AuthChecked(0));
    RunNext(env, INITIAL, [InitRequest(0, a), InitRequest(1, b), AuthChecked(0)], AuthChecked(1));
    assert [] + [InitRequest(0, a)] == [InitRequest(0, a)];
    assert [InitRequest(0, a)] + [InitRequest(1, b)] == [InitRequest(0, a), InitRequest(1, b)];
    assert [InitRequest(0, a), InitRequest(1, b)] + [AuthChecked(0)] == [InitRequest(0, a), InitRequest(1, b), AuthChecked(0)];
  }

  // ----- which tunnel an ID means -----

  /** A tunnel under way that would take the ID. */
  predicate WouldTake(s: State, t: Task, id: nat) {
    match t
    case Connecting(i, _) => i == id
    case CheckingBgp(i, tunnel) => i == id && (id in s.tunnels ==> s.tunnels[id] != tunnel)
    case _ => false
  }

  /** No step gives an ID in use another tunnel, unless that tunnel was already under way. */
  lemma TunnelReplaced(env: Env, s: State, e: Event, id: nat)
    requires WellFormed(s) && id in s.tunnels
    requires id in Step(env, s, e).tunnels && Step(env, s, e).tunnels[id] != s.tunnels[id]
    ensures e.BgpChecked? && e.task in s.tasks && WouldTake(s, s.tasks[e.task], id)
  {
  }

  /** While an ID is in use no tunnel for it gets under way. */
  lemma NoneStarts(env: Env, s: State, e: Event, id: nat)
    requires WellFormed(s) && id in s.tunnels && forall k <- s.tasks :: !WouldTake(s, s.tasks[k], id)
    requires id in Step(env, s, e).tunnels
    ensures Step(env, s, e).tunnels[id] == s.tunnels[id]
    ensures forall k <- Step(env, s, e).tasks :: !WouldTake(Step(env, s, e), Step(env, s, e).tasks[k], id)
  {
    var t := Step(env, s, e);
    if t.tunnels[id] != s.tunnels[id] {
      TunnelReplaced(env, s, e, id);
      assert false;
    }
    forall k <- t.tasks
      ensures !WouldTake(t, t.tasks[k], id)
    {
      if k in s.tasks {
        assert !WouldTake(s, s.tasks[k], id);
      }
    }
  }

  predicate InUse(env: Env, s: State, events: seq<Event>, id: nat)
    requires WellFormed(s)
  {
    forall n :: 0 <= n <= |events| ==> id in Run(env, s, events[..n]).tunnels
  }

  lemma {:induction false} KeepsTunnel(env: Env, s: State, events: seq<Event>, id: nat)
    requires WellFormed(s) && InUse(env, s, events, id) && forall k <- s.tasks :: !WouldTake(s, s.tasks[k], id)
    ensures id in s.tunnels && id in Run(env, s, events).tunnels
    ensures var t := Run(env, s, events);
            t.tunnels[id] == s.tunnels[id] && forall k <- t.tasks :: !WouldTake(t, t.tasks[k], id)
  {
    assert events[..0] == [] && events[..|events|] == events;
    assert id in Run(env, s, events[..0]).tunnels && id in Run(env, s, events[..|events|]).tunnels;
    if events != [] {
      var n := |events| - 1;
      assert InUse(env, s, events[..n], id) by {
        forall i | 0 <= i <= n
          ensures id in Run(env, s, events[..n][..i]).tunnels
        {
          assert events[..n][..i] == events[..i];
        }
      }
      KeepsTunnel(env, s, events[..n], id);
      NoneStarts(env, Run(env, s, events[..n]), events[n], id);
    }
  }

  /** As long as the ID is in use it means the same tunnel. */
  ghost predicate TunnelFixed(env: Env, s: State, id: nat)
    requires WellFormed(s) && id in s.tunnels
  {
    forall events | InUse(env, s, events, id) ::
      id in Run(env, s, events).tunnels && Run(env, s, events).tunnels[id] == s.tunnels[id]
  }

  lemma TakesOver(env: Env, s: State, id: nat, k: nat) returns (events: seq<Event>)
    requires WellFormed(s) && id in s.tunnels && k in s.tasks && WouldTake(s, s.tasks[k], id)
    ensures InUse(env, s, events, id)
    ensures id in Run(env, s, events).tunnels && Run(env, s, events).tunnels[id] != s.tunnels[id]
  {
    if s.tasks[k].Connecting? {
      var t := RunConnect(env, s, id, k);
      events := [Connected(k, true), BgpChecked(k)];
      assert [Connected(k, true)] + [BgpChecked(k)] == events;
      RunNext(env, s, [Connected(k, true)], BgpChecked(k));
      assert events[..0] == [] && events[..1] == [Connected(k, true)] && events[..2] == events;
    } else {
      events := [BgpChecked(k)];
      assert [] + [BgpChecked(k)] == events;
      RunNext(env, s, [], BgpChecked(k));
      assert events[..0] == [] && events[..1] == events;
    }
  }

  lemma RunConnect(env: Env, s: State, id: nat, k: nat) returns (t: State)
    requires WellFormed(s) && id in s.tunnels && k in s.tasks && s.tasks[k].Connecting? && s.tasks[k].id == id
    ensures t == Run(env, s, [Connected(k, true)]) && t.tunnels == s.tunnels
    ensures k in t.tasks && t.tasks[k] == CheckingBgp(id, |s.made|)
  {
    assert [] + [Connected(k, true)] == [Connected(k, true)];
    RunNext(env, s, [], Connected(k, true));
    t := Run(env, s, [Connected(k, true)]);
  }

  /**
   An ID in use means the same tunnel in all runs exactly when no other tunnel for it is
   under way: a request for the ID that began before the tunnel was registered
   replaces it.
   */
  lemma TunnelFixedExactlyWhen(env: Env, s: State, id: nat)
    requires WellFormed(s) && id in s.tunnels
    ensures TunnelFixed(env, s, id) <==> forall k <- s.tasks :: !WouldTake(s, s.tasks[k], id)
  {
    if forall k <- s.tasks :: !WouldTake(s, s.tasks[k], id) {
      forall events | InUse(env, s, events, id)
        ensures id in Run(env, s, events).tunnels && Run(env, s, events).tunnels[id] == s.tunnels[id]
      {
        KeepsTunnel(env, s, events, id);
      }
    } else {
      var k :| k in s.tasks && WouldTake(s, s.tasks[k], id);
      var events := TakesOver(env, s, id, k);
      assert !(id in Run(env, s, events).tunnels && Run(env, s, events).tunnels[id] == s.tunnels[id]);
    }
  }
}
