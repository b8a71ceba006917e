/**
 What tunnels record: for every run, the bytes that went through a tunnel, told from the
 events alone and the tunnel that an ID means when a message comes.
 */
module SessionTraffic {
  import opened ByteData
  import opened Session
  import opened SessionSafety

  /** At the event, a message of the client for the tunnel comes. */
  predicate ClientSends(env: Env, events: seq<Event>, n: nat, x: nat)
    requires n < |events|
  {
    var tunnels := Run(env, INITIAL, events[..n]).tunnels;
    events[n].TunnelMessage? && events[n].id in tunnels && tunnels[events[n].id] == x
  }

  /** The tunnel's socket has been closed at one of the events. */
  predicate SocketEnded(env: Env, events: seq<Event>, x: nat) {
    exists n :: 0 <= n < |events| && Ends(env, events, n, x)
  }

  predicate Ends(env: Env, events: seq<Event>, n: nat, x: nat)
    requires n < |events|
  {
    events[n] == SocketClosed(x) && x < |Run(env, INITIAL, events[..n]).made|
  }

  /** At the event, data of the server comes through the tunnel's open socket. */
  predicate ServerSends(env: Env, events: seq<Event>, n: nat, x: nat)
    requires n < |events|
  {
    && events[n].SocketData? && events[n].tunnel == x
    && x < |Run(env, INITIAL, events[..n]).made| && !SocketEnded(env, events[..n], x)
  }

  /** All that the client sent through the tunnel. */
  function SentBytes(env: Env, events: seq<Event>, x: nat): Bytes {
    if events == [] then []
    else
      var n := |events| - 1;
      SentBytes(env, events[..n], x) + if ClientSends(env, events, n, x) then events[n].message else []
  }

  /** All that the server sent through the tunnel, until its socket closed. */
  function ReceivedBytes(env: Env, events: seq<Event>, x: nat): Bytes {
    if events == [] then []
    else
      var n := |events| - 1;
      ReceivedBytes(env, events[..n], x) + if ServerSends(env, events, n, x) then events[n].message else []
  }

  // ----- one step -----

  lemma SaidSnoc(transcript: seq<Chunk>, c: Chunk, sender: Party)
    ensures Said(transcript + [c], sender) == Said(transcript, sender) + if c.sender == sender then c.message else []
  {
    assert (transcript + [c])[..|transcript|] == transcript;
  }

  /** What a step adds to a tunnel's transcript. */
  function Added(s: State, e: Event, x: nat): seq<Chunk>
    requires x < |s.made|
  {
    if e.TunnelMessage? && e.id in s.tunnels && s.tunnels[e.id] == x then [Chunk(Client, e.message)]
    else if e.SocketData? && e.tunnel == x && !s.made[x].closed then [Chunk(Server, e.message)]
    else []
  }

  lemma StepAdds(env: Env, s: State, e: Event, x: nat)
    requires WellFormed(s) && x < |Step(env, s, e).made|
    ensures x < |s.made| ==> Step(env, s, e).made[x].transcript == s.made[x].transcript + Added(s, e, x)
    ensures x < |s.made| ==> (Step(env, s, e).made[x].closed <==> s.made[x].closed || e == SocketClosed(x))
    ensures x >= |s.made| ==> Step(env, s, e).made[x].transcript == [] && !Step(env, s, e).made[x].closed
  {
    if x < |s.made| {
      assert s.made[x].transcript + [] == s.made[x].transcript;
    }
  }

  lemma EndedSnoc(env: Env, events: seq<Event>, e: Event, x: nat)
    ensures SocketEnded(env, events + [e], x)
       <==> SocketEnded(env, events, x) || (e == SocketClosed(x) && x < |Run(env, INITIAL, events).made|)
  {
    var all := events + [e];
    assert all[..|events|] == events;
    if n :| 0 <= n < |all| && Ends(env, all, n, x) {
      if n < |events| {
        assert all[..n] == events[..n] && Ends(env, events, n, x);
      }
    }
    if n :| 0 <= n < |events| && Ends(env, events, n, x) {
      assert all[..n] == events[..n] && Ends(env, all, n, x);
    }
    if e == SocketClosed(x) && x < |Run(env, INITIAL, events).made| {
      assert Ends(env, all, |events|, x);
    }
  }

  /** The tunnel holds what went through it. */
  predicate Recorded(env: Env, events: seq<Event>, x: nat) {
    Holds(Run(env, INITIAL, events), x, SentBytes(env, events, x), ReceivedBytes(env, events, x), SocketEnded(env, events, x))
  }

  lemma TrafficSnoc(env: Env, events: seq<Event>, e: Event, x: nat)
    ensures var s := Run(env, INITIAL, events);
            && SentBytes(env, events + [e], x)
               == SentBytes(env, events, x)
                  + (if e.TunnelMessage? && e.id in s.tunnels && s.tunnels[e.id] == x then e.message else [])
            && ReceivedBytes(env, events + [e], x)
               == ReceivedBytes(env, events, x)
                  + if e.SocketData? && e.tunnel == x && x < |s.made| && !SocketEnded(env, events, x) then e.message else []
  {
    assert (events + [e])[..|events|] == events;
  }

  /** The tunnel holds these bytes, or has not been made, and then there are none. */
  predicate Holds(s: State, x: nat, sent: Bytes, received: Bytes, ended: bool) {
    if x < |s.made| then
      && Said(s.made[x].transcript, Client) == sent && Said(s.made[x].transcript, Server) == received
      && (s.made[x].closed <==> ended)
    else sent == [] && received == [] && !ended
  }

  lemma HoldsNext(env: Env, s: State, e: Event, x: nat, sent: Bytes, received: Bytes, ended: bool)
    requires WellFormed(s) && Holds(s, x, sent, received, ended)
    ensures Holds(Step(env, s, e), x,
                  sent + (if e.TunnelMessage? && e.id in s.tunnels && s.tunnels[e.id] == x then e.message else []),
                  received + (if e.SocketData? && e.tunnel == x && x < |s.made| && !ended then e.message else []),
                  ended || (e == SocketClosed(x) && x < |s.made|))
  {
    StepGrows(env, s, e);
    if x < |Step(env, s, e).made| {
      StepAdds(env, s, e, x);
    }
    if x < |s.made| {
      var transcript, more := s.made[x].transcript, Added(s, e, x);
      if more == [] {
        assert transcript + [] == transcript;
      } else {
        SaidSnoc(transcript, more[0], Client);
        SaidSnoc(transcript, more[0], Server);
      }
    }
  }

  lemma RecordedStep(env: Env, events: seq<Event>, e: Event, x: nat)
    requires Recorded(env, events, x)
    ensures Recorded(env, events + [e], x)
  {
    var s := Run(env, INITIAL, events);
    RunNext(env, INITIAL, events, e);
    TrafficSnoc(env, events, e, x);
    EndedSnoc(env, events, e, x);
    HoldsNext(env, s, e, x, SentBytes(env, events, x), ReceivedBytes(env, events, x), SocketEnded(env, events, x));
  }

  /**
   In every run a tunnel's transcript holds of the client exactly the messages that came for
   an ID while it meant this tunnel, and of the server exactly the data that came from its
   socket before that was closed, each in the order of the events.
   */
  lemma TranscriptIsTraffic(env: Env, events: seq<Event>, x: nat)
    requires x < |Run(env, INITIAL, events).made|
    ensures var transcript := Run(env, INITIAL, events).made[x].transcript;
            Said(transcript, Client) == SentBytes(env, events, x) && Said(transcript, Server) == ReceivedBytes(env, events, x)
  {
    AllRecorded(env, events, x);
  }

  lemma {:induction false} AllRecorded(env: Env, events: seq<Event>, x: nat)
    ensures Recorded(env, events, x)
    decreases |events|
  {
    if events != [] {
      var n := |events| - 1;
      var before, e := events[..n], events[n];
      AllRecorded(env, before, x);
      RecordedStep(env, before, e, x);
      assert before + [e] == events;
    }
  }

  // ----- claims, over the events -----

  /** What the claim says was sent is all that was, and what it says was received came first. */
  predicate ClaimsTraffic(env: Env, events: seq<Event>, claim: Claim, x: nat) {
    && Claimed(claim.transcript, 1) == SentBytes(env, events, x)
    && Claimed(claim.transcript, 2) <= ReceivedBytes(env, events, x)
  }

  lemma MatchIsTraffic(env: Env, events: seq<Event>, claim: Claim, x: nat)
    requires x < |Run(env, INITIAL, events).made|
    ensures TranscriptsMatch(claim.transcript, Run(env, INITIAL, events).made[x].transcript)
       <==> ClaimsTraffic(env, events, claim, x)
  {
    TranscriptIsTraffic(env, events, x);
  }

  /**
   Every signed response was issued for a tunnel with the host, port and location of the
   claim. When it was compared, the claim said exactly what had been sent through this tunnel
   by then, and the beginning of what had been received; in every later state of the run
   both are still the beginning of what went through it.
   */
  lemma ResponsesEndure(env: Env, events: seq<Event>, n: nat, k: nat) returns (checked: nat)
    requires n <= |events| && k < |Run(env, INITIAL, events[..n]).responses|
    ensures k < |Run(env, INITIAL, events).responses|
    ensures Run(env, INITIAL, events).responses[k] == Run(env, INITIAL, events[..n]).responses[k]
    ensures checked < n && events[checked].TunnelClosed?
    ensures var r := Run(env, INITIAL, events).responses[k];
            && r.tunnel < |Run(env, INITIAL, events).made|
            && Run(env, INITIAL, events).made[r.tunnel].createRequest == r.claim.request
            && ClaimsTraffic(env, events[..checked], r.claim, r.tunnel)
            && Claimed(r.claim.transcript, 1) <= SentBytes(env, events, r.tunnel)
            && Claimed(r.claim.transcript, 2) <= ReceivedBytes(env, events, r.tunnel)
  {
    checked := ResponsesCompared(env, events, n, k);
    var r := Run(env, INITIAL, events[..n]).responses[k];
    MatchIsTraffic(env, events[..checked], r.claim, r.tunnel);
    TranscriptIsTraffic(env, events, r.tunnel);
  }
}
