/**
 Which packets of a request end up revealed, whatever the server sends meanwhile: each
 write marks the last client packets, as many as the transcript grew by, so a packet of the
 server that arrives during a write makes it reach back behind its own records.
 */
module KeyMarks {
  import opened ByteData
  import opened Redaction
  import opened KeyUpdate

  /** The packets that arrive are the server's. */
  ghost predicate Served(arriving: nat -> Arrivals) {
    forall k :: FromServer(arriving(k).before) && FromServer(arriving(k).during)
  }

  // ----- how far a write reaches -----

  /** How many packets of the client stand behind the position. */
  function ClientBehind(transcript: seq<Packet>, i: nat): nat
    requires i < |transcript|
    decreases |transcript|
  {
    var last := |transcript| - 1;
    if i == last then 0
    else ClientBehind(transcript[..last], i) + if transcript[last].sender == Client then 1 else 0
  }

  lemma {:induction false} LastBlocksAre(transcript: seq<Packet>, n: int, i: nat)
    ensures i in LastBlocks(transcript, Client, n)
       <==> IsClient(transcript, i) && (n <= 0 || ClientBehind(transcript, i) < n)
    decreases |transcript|
  {
    if transcript != [] {
      var last := |transcript| - 1;
      LastBlocksAre(transcript[..last], if transcript[last].sender == Client then n - 1 else n, i);
    }
  }

  /** One of the last `n` packets of the client; none means all. */
  predicate AmongLast(transcript: seq<Packet>, n: int, i: nat) {
    IsClient(transcript, i) && (n <= 0 || ClientBehind(transcript, i) < n)
  }

  /** What the transcript grows by in a write. */
  function Sending(tls: Tls, s: Session, part: Part, a: Arrivals): seq<Packet> {
    Records(Ready(tls, s, part.open, a).epoch, tls.split(part.data)) + a.during
  }

  /** The session behind a write whose packets are not marked yet. */
  function Unmarked(tls: Tls, s: Session, part: Part, a: Arrivals): Session {
    var ready := Ready(tls, s, part.open, a);
    ready.(transcript := ready.transcript + Sending(tls, s, part, a), lastMsgRevealed := part.open)
  }

  /** The write counts the records it sends and the packets of the server that arrive during it. */
  predicate Reaches(tls: Tls, s: Session, part: Part, a: Arrivals, i: nat) {
    AmongLast(Unmarked(tls, s, part, a).transcript, |tls.split(part.data)| + |a.during|, i)
  }

  lemma SendingCount(tls: Tls, s: Session, part: Part, a: Arrivals)
    ensures |Sending(tls, s, part, a)| == |tls.split(part.data)| + |a.during|
  {
  }

  lemma WriteUnmarked(tls: Tls, s: Session, part: Part, a: Arrivals, t: Session, n: nat)
    requires t == Unmarked(tls, s, part, a) && n == |Sending(tls, s, part, a)|
    ensures Write(tls, s, part.data, part.open, a) == SetReveal(t, part.open, LastBlocks(t.transcript, Client, n))
  {
  }

  lemma SetMarks(t: Session, open: bool, n: int, i: nat)
    ensures i in SetReveal(t, open, LastBlocks(t.transcript, Client, n)).revealed
       <==> if AmongLast(t.transcript, n, i) then open else i in t.revealed
  {
    LastBlocksAre(t.transcript, n, i);
  }

  lemma WriteMarks(tls: Tls, s: Session, part: Part, a: Arrivals, i: nat)
    ensures i in Write(tls, s, part.data, part.open, a).revealed
       <==> if Reaches(tls, s, part, a, i) then part.open else i in s.revealed
  {
    var t, n := Unmarked(tls, s, part, a), |Sending(tls, s, part, a)|;
    SendingCount(tls, s, part, a);
    WriteUnmarked(tls, s, part, a, t, n);
    SetMarks(t, part.open, n, i);
  }

  /** The last of the writes that reaches the packet, or -1. */
  function LastReach(tls: Tls, s: Session, parts: seq<Part>, arriving: nat -> Arrivals, i: nat): (k: int)
    ensures k < |parts|
  {
    if parts == [] then -1
    else
      var n := |parts| - 1;
      if Reaches(tls, WriteAll(tls, s, parts[..n], arriving), parts[n], arriving(n), i) then n
      else LastReach(tls, s, parts[..n], arriving, i)
  }

  /** The last write that reaches the packet is of a piece to be revealed. */
  predicate LastOpen(tls: Tls, s: Session, parts: seq<Part>, arriving: nat -> Arrivals, i: nat) {
    var k := LastReach(tls, s, parts, arriving, i);
    if k < 0 then i in s.revealed else parts[k].open
  }

  /** In every run, whatever arrives, the last write that reaches a packet decides whether it is revealed. */
  lemma {:induction false} MarkedByLast(tls: Tls, s: Session, parts: seq<Part>, arriving: nat -> Arrivals, i: nat)
    ensures i in WriteAll(tls, s, parts, arriving).revealed <==> LastOpen(tls, s, parts, arriving, i)
    decreases |parts|
  {
    if parts != [] {
      var n := |parts| - 1;
      MarkedByLast(tls, s, parts[..n], arriving, i);
      WriteMarks(tls, WriteAll(tls, s, parts[..n], arriving), parts[n], arriving(n), i);
    }
  }

  // ----- keys -----

  /** The key is one for what is to be revealed: the keys change with each change of kind. */
  predicate KeyOpen(s: Session, epoch: nat) {
    (epoch - s.epoch) % 2 == 1
  }

  /** What holds of the keys of the transcript, however its packets are marked. */
  ghost predicate Keyed(s: Session, t: Session) {
    && (t.lastMsgRevealed <==> KeyOpen(s, t.epoch))
    && DataFirst(t.transcript)
    && forall i :: IsClient(t.transcript, i) ==> Current(t, i)
  }

  /** Nothing but data has gone out under the current keys. */
  predicate Current(t: Session, i: nat)
    requires i < |t.transcript|
  {
    t.transcript[i].epoch <= t.epoch && (t.transcript[i].epoch == t.epoch ==> t.transcript[i].appData)
  }

  lemma ServerKeeps(s: Session, t: Session, packets: seq<Packet>)
    requires Keyed(s, t) && FromServer(packets)
    ensures Keyed(s, t.(transcript := t.transcript + packets))
  {
    var longer := t.transcript + packets;
    assert forall i :: |t.transcript| <= i < |longer| ==> longer[i] == packets[i - |t.transcript|];
    assert forall i :: IsClient(longer, i) ==> IsClient(t.transcript, i);
    assert forall i, j :: (IsClient(longer, i) && IsClient(longer, j) && SameEpoch(longer, i, j)) ==>
                            SameEpoch(t.transcript, i, j);
  }

  lemma UpdateKeyed(tls: Tls, s: Session, t: Session, open: bool)
    requires Keyed(s, t) && open != t.lastMsgRevealed
    ensures Keyed(s, UpdateKeys(tls, t).(lastMsgRevealed := open))
  {
    var next := UpdateKeys(tls, t);
    var n := |t.transcript|;
    assert forall i :: IsClient(next.transcript, i) ==> i == n || IsClient(t.transcript, i);
    assert forall i, j :: i < n && j < n && SameEpoch(next.transcript, i, j) ==> SameEpoch(t.transcript, i, j);
  }

  lemma RecordsKeyed(s: Session, t: Session, texts: seq<Bytes>)
    requires Keyed(s, t)
    ensures Keyed(s, t.(transcript := t.transcript + Records(t.epoch, texts)))
  {
    var longer := t.transcript + Records(t.epoch, texts);
    var n := |t.transcript|;
    assert forall i :: n <= i < |longer| ==> longer[i] == Packet(Client, true, true, t.epoch, texts[i - n]);
    assert forall i :: i < n && IsClient(longer, i) ==> IsClient(t.transcript, i);
    assert forall i, j :: i < n && j < n && SameEpoch(longer, i, j) ==> SameEpoch(t.transcript, i, j);
  }

  lemma WriteKeyed(tls: Tls, s: Session, t: Session, part: Part, a: Arrivals)
    requires Keyed(s, t) && FromServer(a.before) && FromServer(a.during)
    ensures Keyed(s, Write(tls, t, part.data, part.open, a))
    ensures Ready(tls, t, part.open, a).epoch == Write(tls, t, part.data, part.open, a).epoch
  {
    var ready := Ready(tls, t, part.open, a).(lastMsgRevealed := part.open);
    ReadyKeyed(tls, s, t, part.open, a);
    var records := Records(ready.epoch, tls.split(part.data));
    RecordsKeyed(s, ready, tls.split(part.data));
    ServerKeeps(s, ready.(transcript := ready.transcript + records), a.during);
    Reassociate(ready.transcript, records, a.during);
    SameKeys(s, ready.(transcript := ready.transcript + (records + a.during)), Write(tls, t, part.data, part.open, a));
  }

  lemma ReadyKeyed(tls: Tls, s: Session, t: Session, open: bool, a: Arrivals)
    requires Keyed(s, t) && FromServer(a.before)
    ensures Keyed(s, Ready(tls, t, open, a).(lastMsgRevealed := open))
  {
    var here := t.(transcript := t.transcript + a.before);
    ServerKeeps(s, t, a.before);
    if open != here.lastMsgRevealed {
      UpdateKeyed(tls, s, here, open);
    }
  }

  /** The marks do not matter. */
  lemma SameKeys(s: Session, t: Session, u: Session)
    requires Keyed(s, t) && u == t.(revealed := u.revealed)
    ensures Keyed(s, u)
  {
  }

  lemma {:induction false} RunKeyed(tls: Tls, s: Session, parts: seq<Part>, arriving: nat -> Arrivals)
    requires Fresh(s) && Served(arriving)
    ensures Keyed(s, WriteAll(tls, s, parts, arriving))
    decreases |parts|
  {
    if parts != [] {
      var n := |parts| - 1;
      RunKeyed(tls, s, parts[..n], arriving);
      WriteKeyed(tls, s, WriteAll(tls, s, parts[..n], arriving), parts[n], arriving(n));
    }
  }

  // ----- what is meant to be revealed -----

  /** The same packets, with exactly the data under keys of the open kind revealed. */
  function Meant(s: Session, t: Session): Session {
    t.(revealed := set i: nat | i < |t.transcript| && IsClientData(t.transcript, i) && KeyOpen(s, t.transcript[i].epoch))
  }

  lemma MeantWithout(s: Session, t: Session, u: Session, packets: seq<Packet>)
    requires u.transcript == t.transcript + packets
    requires forall k :: 0 <= k < |packets| ==> packets[k].sender == Server || !packets[k].appData
    ensures Sent(Meant(s, u)) == Sent(Meant(s, t)) && Data(Meant(s, u)) == Data(Meant(s, t))
  {
    assert forall i :: |t.transcript| <= i < |u.transcript| ==> u.transcript[i] == packets[i - |t.transcript|];
    assert forall i: nat :: i < |t.transcript| ==> u.transcript[i] == t.transcript[i];
    assert Meant(s, u).revealed == Meant(s, t).revealed;
    NoDataAppended(Meant(s, t), Meant(s, u), packets);
  }

  lemma MeantRecords(s: Session, t: Session, u: Session, texts: seq<Bytes>)
    requires u.transcript == t.transcript + Records(t.epoch, texts)
    ensures Data(Meant(s, u)) == Data(Meant(s, t)) + Concat(texts)
    ensures Sent(Meant(s, u)) == Sent(Meant(s, t)) + Veiled(Concat(texts), KeyOpen(s, t.epoch))
  {
    var n, records := |t.transcript|, Records(t.epoch, texts);
    assert forall i :: n <= i < |u.transcript| ==> u.transcript[i] == records[i - n];
    assert u.transcript[..n] == t.transcript == t.transcript[..n];
    assert SameFront(Meant(s, t), Meant(s, u), n);
    assert RecordsAt(Meant(s, u), n, texts, KeyOpen(s, t.epoch));
    SentWith(Meant(s, t), Meant(s, u), texts, KeyOpen(s, t.epoch));
  }

  lemma MeantReady(tls: Tls, s: Session, t: Session, open: bool, a: Arrivals)
    requires FromServer(a.before)
    ensures Sent(Meant(s, Ready(tls, t, open, a))) == Sent(Meant(s, t))
    ensures Data(Meant(s, Ready(tls, t, open, a))) == Data(Meant(s, t))
  {
    var here := t.(transcript := t.transcript + a.before);
    MeantWithout(s, t, here, a.before);
    if open != here.lastMsgRevealed {
      MeantWithout(s, here, UpdateKeys(tls, here), [Packet(Client, true, false, here.epoch, tls.update)]);
    }
  }

  lemma MeantWrite(tls: Tls, s: Session, t: Session, part: Part, a: Arrivals)
    requires Keyed(s, t) && FromServer(a.before) && FromServer(a.during)
    ensures var after := Write(tls, t, part.data, part.open, a);
            && Data(Meant(s, after)) == Data(Meant(s, t)) + part.data
            && Sent(Meant(s, after)) == Sent(Meant(s, t)) + Seen(part)
  {
    var ready, texts := Ready(tls, t, part.open, a), tls.split(part.data);
    var sent := ready.(transcript := ready.transcript + Records(ready.epoch, texts));
    ReadyKeyed(tls, s, t, part.open, a);
    MeantReady(tls, s, t, part.open, a);
    MeantRecords(s, ready, sent, texts);
    assert SplitsWhole(tls, part.data);
    Reassociate(ready.transcript, Records(ready.epoch, texts), a.during);
    MeantWithout(s, sent, Write(tls, t, part.data, part.open, a), a.during);
  }

  /** Each part, with stars if it is not to be revealed. */
  function PartsMeant(parts: seq<Part>): Bytes {
    if parts == [] then [] else PartsMeant(parts[..|parts| - 1]) + Seen(parts[|parts| - 1])
  }

  lemma {:induction false} RunMeant(tls: Tls, s: Session, parts: seq<Part>, arriving: nat -> Arrivals)
    requires Fresh(s) && Served(arriving)
    ensures Data(Meant(s, WriteAll(tls, s, parts, arriving))) == PartsData(parts)
    ensures Sent(Meant(s, WriteAll(tls, s, parts, arriving))) == PartsMeant(parts)
    decreases |parts|
  {
    if parts == [] {
      NoDataBehind(Meant(s, s), 0, |s.transcript|);
    } else {
      var n := |parts| - 1;
      RunKeyed(tls, s, parts[..n], arriving);
      RunMeant(tls, s, parts[..n], arriving);
      MeantWrite(tls, s, WriteAll(tls, s, parts[..n], arriving), parts[n], arriving(n));
    }
  }

  lemma {:induction false} MeantIsSeen(parts: seq<Part>)
    ensures PartsMeant(parts) == PartsSeen(Tls(Whole, []), parts)
    decreases |parts|
  {
    if parts != [] {
      MeantIsSeen(parts[..|parts| - 1]);
    }
  }

  /** What is meant of a request is the request with stars over its sections. */
  lemma RequestMeant(data: Bytes, sections: seq<Redaction>)
    requires Sections(data, sections)
    ensures PartsData(Parts(data, sections)) == data && PartsMeant(Parts(data, sections)) == Starred(data, sections)
  {
    PartsWhole(Tls(Whole, []), data, sections);
    MeantIsSeen(Parts(data, sections));
    assert Tls(Whole, []).split([]) != [];
  }

  // ----- a whole run -----

  /** The packet looks the same whether it is revealed or not. */
  predicate OnlyStars(transcript: seq<Packet>, i: nat)
    requires i < |transcript|
  {
    transcript[i].plaintext == Fill(STAR, |transcript[i].plaintext|)
  }

  /** Of the first `n` packets, those that hold the client's data look the same in both. */
  ghost predicate LookSame(t: Session, u: Session, n: nat)
    requires n <= |t.transcript|
  {
    forall i: nat :: i < n ==> LooksSame(t, u, i)
  }

  lemma {:induction false} SentLength(t: Session, n: nat)
    requires n <= |t.transcript|
    ensures |SentTo(t, n)| == |DataTo(t.transcript, n)|
    decreases n
  {
    if n > 0 {
      SentLength(t, n - 1);
    }
  }

  lemma SameEnds(a: Bytes, x: Bytes, b: Bytes, y: Bytes)
    requires |a| == |b|
    ensures a + x == b + y <==> a == b && x == y
  {
    if a + x == b + y {
      assert a == (a + x)[..|a|] && b == (b + y)[..|b|];
      assert x == (a + x)[|a|..] && y == (b + y)[|b|..];
    }
  }

  lemma {:induction false} SentSame(t: Session, u: Session, n: nat)
    requires t.transcript == u.transcript && n <= |t.transcript|
    ensures SentTo(t, n) == SentTo(u, n) <==> LookSame(t, u, n)
    decreases n
  {
    if n > 0 {
      SentSame(t, u, n - 1);
      SentNext(t, u, n - 1);
      LookNext(t, u, n - 1);
    }
  }

  predicate LooksSame(t: Session, u: Session, n: nat)
    requires n < |t.transcript|
  {
    IsClientData(t.transcript, n) ==> (n in t.revealed <==> n in u.revealed) || OnlyStars(t.transcript, n)
  }

  lemma SentNext(t: Session, u: Session, n: nat)
    requires t.transcript == u.transcript && n < |t.transcript|
    ensures SentTo(t, n + 1) == SentTo(u, n + 1) <==> SentTo(t, n) == SentTo(u, n) && LooksSame(t, u, n)
  {
    SentLength(t, n);
    SentLength(u, n);
    var text := t.transcript[n].plaintext;
    if IsClientData(t.transcript, n) {
      SameEnds(SentTo(t, n), Veiled(text, n in t.revealed), SentTo(u, n), Veiled(text, n in u.revealed));
    } else {
      assert SentTo(t, n + 1) == SentTo(t, n) && SentTo(u, n + 1) == SentTo(u, n);
    }
  }

  lemma LookNext(t: Session, u: Session, n: nat)
    requires n < |t.transcript|
    ensures LookSame(t, u, n + 1) <==> LookSame(t, u, n) && LooksSame(t, u, n)
  {
  }

  /** The data is revealed if its key is of the open kind, and else not. */
  ghost predicate MarkedAsMeant(s: Session, t: Session) {
    forall i :: IsClientData(t.transcript, i) ==> (i in t.revealed <==> KeyOpen(s, t.transcript[i].epoch))
  }

  lemma HandshakeKeepsMarks(s: Session, t: Session)
    requires Keyed(s, t)
    ensures Separated(RevealHandshake(t)) <==> Separated(t)
    ensures MarkedAsMeant(s, RevealHandshake(t)) <==> MarkedAsMeant(s, t)
    ensures Sent(RevealHandshake(t)) == Sent(t) && Data(RevealHandshake(t)) == Data(t)
  {
    HandshakeKeeps(t);
    FrontSame(t, RevealHandshake(t), |t.transcript|);
  }

  /**
   Of two packets under one key, the second of them data: it is revealed if the key is of
   the open kind, and else the first one is not.
   */
  predicate KeptApart(s: Session, transcript: seq<Packet>, i: nat, j: nat, iOpen: bool, jOpen: bool) {
    IsClient(transcript, i) && IsClientData(transcript, j) && SameEpoch(transcript, i, j) ==>
      if KeyOpen(s, transcript[j].epoch) then jOpen else !iOpen
  }

  lemma ApartExactlyWhen(s: Session, t: Session)
    ensures Separated(t) && MarkedAsMeant(s, t) <==>
            forall i: nat, j: nat :: KeptApart(s, t.transcript, i, j, i in t.revealed, j in t.revealed)
  {
    if forall i: nat, j: nat :: KeptApart(s, t.transcript, i, j, i in t.revealed, j in t.revealed) {
      forall j | IsClientData(t.transcript, j)
        ensures j in t.revealed <==> KeyOpen(s, t.transcript[j].epoch)
      {
        assert KeptApart(s, t.transcript, j, j, j in t.revealed, j in t.revealed);
      }
      forall i, j | i in t.revealed && IsClient(t.transcript, i) && IsClientData(t.transcript, j) && SameEpoch(t.transcript, i, j)
        ensures j in t.revealed
      {
        assert KeptApart(s, t.transcript, i, j, i in t.revealed, j in t.revealed);
      }
    }
  }

  /**
   Under each key that encrypts data, the last write to reach a packet is of the kind of
   the key: for an open key each packet of data, for another every packet.
   */
  ghost predicate Undisturbed(tls: Tls, s: Session, parts: seq<Part>, arriving: nat -> Arrivals) {
    var transcript := WriteAll(tls, s, parts, arriving).transcript;
    forall i: nat, j: nat ::
      KeptApart(s, transcript, i, j, LastOpen(tls, s, parts, arriving, i), LastOpen(tls, s, parts, arriving, j))
  }

  lemma UndisturbedMarks(tls: Tls, s: Session, parts: seq<Part>, arriving: nat -> Arrivals, t: Session)
    requires t == WriteAll(tls, s, parts, arriving)
    ensures Undisturbed(tls, s, parts, arriving) <==>
            forall i: nat, j: nat :: KeptApart(s, t.transcript, i, j, i in t.revealed, j in t.revealed)
  {
    forall i: nat
      ensures i in t.revealed <==> LastOpen(tls, s, parts, arriving, i)
    {
      MarkedByLast(tls, s, parts, arriving, i);
    }
  }

  /**
   For every run, whatever the server sends and when: the data is revealed as meant and no
   key encrypts both what is revealed and data that is not, the handshake included, if and
   only if under each key of data the last write to reach a packet is of the key's kind.
   */
  lemma RunSeparatesExactlyWhen(tls: Tls, s: Session, parts: seq<Part>, arriving: nat -> Arrivals)
    requires Fresh(s) && Served(arriving)
    ensures var end := RevealHandshake(WriteAll(tls, s, parts, arriving));
            Separated(end) && MarkedAsMeant(s, end) <==> Undisturbed(tls, s, parts, arriving)
  {
    var t := WriteAll(tls, s, parts, arriving);
    RunKeyed(tls, s, parts, arriving);
    HandshakeKeepsMarks(s, t);
    ApartExactlyWhen(s, t);
    UndisturbedMarks(tls, s, parts, arriving, t);
  }

  /** The last write that reaches the record is of the kind of its key, or it is all stars. */
  predicate ShownAsMeant(s: Session, transcript: seq<Packet>, i: nat, open: bool) {
    IsClientData(transcript, i) ==> (open <==> KeyOpen(s, transcript[i].epoch)) || OnlyStars(transcript, i)
  }

  lemma SameLooks(s: Session, t: Session)
    ensures LookSame(t, Meant(s, t), |t.transcript|) <==>
            forall i: nat :: ShownAsMeant(s, t.transcript, i, i in t.revealed)
  {
    var u := Meant(s, t);
    forall i: nat | i < |t.transcript|
      ensures LooksSame(t, u, i) <==> ShownAsMeant(s, t.transcript, i, i in t.revealed)
    {
    }
    forall i: nat | i >= |t.transcript|
      ensures ShownAsMeant(s, t.transcript, i, i in t.revealed)
    {
    }
  }

  /** In a run the records all end up shown as meant. */
  ghost predicate AllAsMeant(tls: Tls, s: Session, parts: seq<Part>, arriving: nat -> Arrivals) {
    var transcript := WriteAll(tls, s, parts, arriving).transcript;
    forall i: nat :: ShownAsMeant(s, transcript, i, LastOpen(tls, s, parts, arriving, i))
  }

  lemma AllMarked(tls: Tls, s: Session, parts: seq<Part>, arriving: nat -> Arrivals, t: Session)
    requires t == WriteAll(tls, s, parts, arriving)
    ensures AllAsMeant(tls, s, parts, arriving) <==> forall i: nat :: ShownAsMeant(s, t.transcript, i, i in t.revealed)
  {
    forall i: nat
      ensures i in t.revealed <==> LastOpen(tls, s, parts, arriving, i)
    {
      MarkedByLast(tls, s, parts, arriving, i);
    }
  }

  /**
   For every request and every run: the data sent is the request, and it is shown with
   stars over exactly its sections if and only if for each record, unless it is all stars,
   the last write to reach it is of the kind of its key.
   */
  lemma RunShowsExactlyWhen(tls: Tls, s: Session, data: Bytes, sections: seq<Redaction>, arriving: nat -> Arrivals)
    requires Fresh(s) && Served(arriving) && Sections(data, sections)
    ensures var end := RevealHandshake(WriteAll(tls, s, Parts(data, sections), arriving));
            && Data(end) == data
            && (Sent(end) == Starred(data, sections) <==> AllAsMeant(tls, s, Parts(data, sections), arriving))
  {
    var parts := Parts(data, sections);
    var t := WriteAll(tls, s, parts, arriving);
    RunKeyed(tls, s, parts, arriving);
    RunMeant(tls, s, parts, arriving);
    RequestMeant(data, sections);
    HandshakeKeepsMarks(s, t);
    SentSame(t, Meant(s, t), |t.transcript|);
    SameLooks(s, t);
    AllMarked(tls, s, parts, arriving, t);
  }

  lemma UndisturbedShows(tls: Tls, s: Session, parts: seq<Part>, arriving: nat -> Arrivals)
    requires Undisturbed(tls, s, parts, arriving)
    ensures AllAsMeant(tls, s, parts, arriving)
  {
    var transcript := WriteAll(tls, s, parts, arriving).transcript;
    forall i: nat
      ensures ShownAsMeant(s, transcript, i, LastOpen(tls, s, parts, arriving, i))
    {
      assert KeptApart(s, transcript, i, i, LastOpen(tls, s, parts, arriving, i), LastOpen(tls, s, parts, arriving, i));
    }
  }

  // ----- when nothing arrives during a write -----

  predicate AllEmpty(parts: seq<Part>) {
    forall k :: 0 <= k < |parts| ==> parts[k].data == []
  }

  /** Parts without bytes stand in front of all others. */
  predicate EmptyFirst(parts: seq<Part>) {
    forall k :: 0 <= k < |parts| && parts[k].data == [] ==> AllEmpty(parts[..k])
  }

  ghost predicate NoData(t: Session) {
    forall i :: !IsClientData(t.transcript, i)
  }

  lemma RecordsAsMeant(tls: Tls, s: Session, t: Session, part: Part, a: Arrivals)
    requires Keyed(s, t) && MarkedAsMeant(s, t) && FromServer(a.before) && a.during == [] && tls.split(part.data) != []
    requires forall i :: i in t.revealed ==> i < |t.transcript|
    ensures MarkedAsMeant(s, Write(tls, t, part.data, part.open, a))
  {
    var ready, texts := Ready(tls, t, part.open, a), tls.split(part.data);
    var sent := ready.(transcript := ready.transcript + Records(ready.epoch, texts));
    ReadyKeyed(tls, s, t, part.open, a);
    ReadyAsMeant(tls, s, t, part.open, a);
    WriteFromReady(tls, t, part.data, part.open, a);
    RecordsMarked(ready, sent, texts, part.open);
    FrontAsMeant(s, ready, SetReveal(sent, part.open, LastBlocks(sent.transcript, Client, |texts|)), texts, part.open);
  }

  /** The client's data is that which was there before. */
  ghost predicate OldData(t: Session, ready: Session) {
    forall i :: IsClientData(ready.transcript, i) ==>
      IsClientData(t.transcript, i) && ready.transcript[i].epoch == t.transcript[i].epoch
  }

  lemma NoMoreData(t: Session, ready: Session, more: seq<Packet>)
    requires ready.transcript == t.transcript + more
    requires forall k :: 0 <= k < |more| ==> more[k].sender == Server || !more[k].appData
    ensures OldData(t, ready)
  {
    var n := |t.transcript|;
    assert forall i :: n <= i < |ready.transcript| ==> ready.transcript[i] == more[i - n];
  }

  lemma ReadyData(tls: Tls, t: Session, open: bool, a: Arrivals, ready: Session)
    requires FromServer(a.before) && ready == Ready(tls, t, open, a)
    ensures OldData(t, ready) && ready.revealed == t.revealed && |t.transcript| <= |ready.transcript|
  {
    if open != t.lastMsgRevealed {
      var update := Packet(Client, true, false, t.epoch, tls.update);
      Appended(t.transcript, a.before, update);
      NoMoreData(t, ready, a.before + [update]);
    } else {
      NoMoreData(t, ready, a.before);
    }
  }

  lemma Appended(xs: seq<Packet>, ys: seq<Packet>, y: Packet)
    ensures xs + ys + [y] == xs + (ys + [y])
  {
  }

  lemma ReadyAsMeant(tls: Tls, s: Session, t: Session, open: bool, a: Arrivals)
    requires MarkedAsMeant(s, t) && FromServer(a.before)
    ensures MarkedAsMeant(s, Ready(tls, t, open, a)) && Ready(tls, t, open, a).revealed == t.revealed
    ensures NoData(t) ==> NoData(Ready(tls, t, open, a))
    ensures |t.transcript| <= |Ready(tls, t, open, a).transcript|
  {
    ReadyData(tls, t, open, a, Ready(tls, t, open, a));
  }

  lemma FrontAsMeant(s: Session, t: Session, after: Session, texts: seq<Bytes>, open: bool)
    requires MarkedAsMeant(s, t) && open == KeyOpen(s, t.epoch)
    requires SameFront(t, after, |t.transcript|) && after.transcript == t.transcript + Records(t.epoch, texts)
    requires RecordsAt(after, |t.transcript|, texts, open)
    ensures MarkedAsMeant(s, after)
  {
    var n := |t.transcript|;
    forall i | IsClientData(after.transcript, i)
      ensures i in after.revealed <==> KeyOpen(s, after.transcript[i].epoch)
    {
      if i < n {
        assert IsClientData(t.transcript, i);
      } else {
        assert after.transcript[i] == Records(t.epoch, texts)[i - n];
      }
    }
  }

  lemma NothingAsMeant(tls: Tls, s: Session, t: Session, part: Part, a: Arrivals)
    requires MarkedAsMeant(s, t) && FromServer(a.before) && a.during == [] && tls.split(part.data) == [] && NoData(t)
    requires forall i :: i in t.revealed ==> i < |t.transcript|
    ensures NoData(Write(tls, t, part.data, part.open, a))
  {
    ReadyAsMeant(tls, s, t, part.open, a);
    WriteFromReady(tls, t, part.data, part.open, a);
    var ready := Ready(tls, t, part.open, a);
    assert ready.transcript + [] == ready.transcript;
  }

  lemma {:induction false} CalmAsMeant(tls: Tls, s: Session, parts: seq<Part>, arriving: nat -> Arrivals)
    requires Fresh(s) && Calm(arriving) && (tls.split([]) != [] || EmptyFirst(parts))
    ensures MarkedAsMeant(s, WriteAll(tls, s, parts, arriving))
    ensures tls.split([]) == [] && AllEmpty(parts) ==> NoData(WriteAll(tls, s, parts, arriving))
    decreases |parts|
  {
    if parts != [] {
      var n := |parts| - 1;
      var prior := parts[..n];
      assert forall k :: 0 <= k < n ==> parts[..k] == prior[..k];
      CalmAsMeant(tls, s, prior, arriving);
      RunKeyed(tls, s, prior, arriving);
      WriteAllKeeps(tls, s, prior, arriving);
      CalmNext(tls, s, WriteAll(tls, s, prior, arriving), parts[n], arriving(n));
      if parts[n].data != [] {
        NotEmpty(tls, parts[n].data);
      }
    }
  }

  lemma CalmNext(tls: Tls, s: Session, t: Session, part: Part, a: Arrivals)
    requires Keyed(s, t) && MarkedAsMeant(s, t) && FromServer(a.before) && a.during == []
    requires forall i :: i in t.revealed ==> i < |t.transcript|
    requires tls.split(part.data) == [] ==> NoData(t)
    ensures MarkedAsMeant(s, Write(tls, t, part.data, part.open, a))
    ensures tls.split(part.data) == [] ==> NoData(Write(tls, t, part.data, part.open, a))
  {
    if tls.split(part.data) == [] {
      NothingAsMeant(tls, s, t, part, a);
    } else {
      RecordsAsMeant(tls, s, t, part, a);
    }
  }

  /** When no packet arrives during a write, and no empty part stands behind another, nothing disturbs the run. */
  lemma CalmUndisturbed(tls: Tls, s: Session, parts: seq<Part>, arriving: nat -> Arrivals)
    requires Fresh(s) && Calm(arriving) && (tls.split([]) != [] || EmptyFirst(parts))
    ensures Undisturbed(tls, s, parts, arriving)
  {
    CalmAsMeant(tls, s, parts, arriving);
    WriteAllKeeps(tls, s, parts, arriving);
    RunKeyed(tls, s, parts, arriving);
    HandshakeKeepsMarks(s, WriteAll(tls, s, parts, arriving));
    assert Served(arriving);
    RunSeparatesExactlyWhen(tls, s, parts, arriving);
  }

  lemma SnocEmptyFirst(parts: seq<Part>, part: Part)
    requires EmptyFirst(parts) && (part.data == [] ==> AllEmpty(parts))
    ensures EmptyFirst(parts + [part])
  {
    forall k | 0 <= k < |parts| + 1 && (parts + [part])[k].data == []
      ensures AllEmpty((parts + [part])[..k])
    {
      assert (parts + [part])[..k] == parts[..k];
    }
  }

  lemma ShownEmptyFirst(parts: seq<Part>, data: Bytes, from: nat, until: nat)
    requires EmptyFirst(parts)
    ensures EmptyFirst(parts + Shown(data, from, until))
  {
    if Take(data, from, until) != [] {
      SnocEmptyFirst(parts, Part(Take(data, from, until), true));
    } else {
      assert parts + [] == parts;
    }
  }

  /** An empty section behind which no other is, and which stands at the beginning. */
  lemma {:induction false} EmptyAtStart(data: Bytes, sections: seq<Redaction>, n: nat, k: nat)
    requires Sections(data, sections) && k < n <= |sections| && LastEmpty(sections, n) == 0
    requires sections[k].fromIndex == sections[k].toIndex
    ensures sections[k].toIndex == 0
    decreases n
  {
    if sections[n - 1].fromIndex != sections[n - 1].toIndex {
      EmptyAtStart(data, sections, n - 1, k);
    } else if k < n - 1 {
      assert sections[k].toIndex <= sections[n - 1].fromIndex;
    }
  }

  lemma SectionEmptyFirst(data: Bytes, parts: seq<Part>, from: nat, a: nat, b: nat)
    requires from <= a <= b <= |data| && (a == b ==> b == 0)
    requires EmptyFirst(parts) && (from == 0 ==> AllEmpty(parts))
    ensures var longer := parts + Shown(data, from, a) + [Part(Take(data, a, b), false)];
            EmptyFirst(longer) && (b == 0 ==> AllEmpty(longer))
  {
    ShownEmptyFirst(parts, data, from, a);
    if a < b {
      assert Take(data, a, b) != [];
    } else {
      assert parts + Shown(data, from, a) == parts;
    }
    SnocEmptyFirst(parts + Shown(data, from, a), Part(Take(data, a, b), false));
  }

  lemma PartsEmptyFirst(data: Bytes, sections: seq<Redaction>)
    requires Sections(data, sections) && LastEmpty(sections, |sections|) == 0
    ensures EmptyFirst(Parts(data, sections))
  {
    var parts := [];
    for n := 0 to |sections|
      invariant parts == PartsTo(data, sections, n)
      invariant EmptyFirst(parts) && (Reached(sections, n) == 0 ==> AllEmpty(parts))
    {
      ReachedRises(data, sections, n, n);
      if sections[n].fromIndex == sections[n].toIndex {
        EmptyAtStart(data, sections, |sections|, n);
      }
      SectionEmptyFirst(data, parts, Reached(sections, n), sections[n].fromIndex, sections[n].toIndex);
      parts := PartsTo(data, sections, n + 1);
    }
    ShownEmptyFirst(parts, data, Reached(sections, |sections|), |data|);
  }
}
