/**
 A request written with `writeRedactedWithKeyUpdate`: what is to be revealed and what is
 not go out under different traffic keys, since revealing a key open all it encrypts.
 */
module KeyUpdate {
  import opened ByteData
  import opened Redaction

  datatype Sender = Client | Server

  /**
   A packet of the transcript; the epoch counts the traffic keys of its sender, and
   `appData` is `isApplicationData`, which is true of ciphertext only.
   */
  datatype PacketBase = Packet(sender: Sender, ciphertext: bool, appData: bool, epoch: nat, plaintext: Bytes)

  type Packet = p: PacketBase | p.appData ==> p.ciphertext witness Packet(Client, false, false, 0, [])

  /** `split` cuts what is written into records; a key update goes out as `update`. */
  datatype TlsBase = Tls(split: Bytes -> seq<Bytes>, update: Bytes)

  type Tls = t: TlsBase | forall data :: SplitsWhole(t, data) ghost witness Tls(Whole, [])

  function Whole(data: Bytes): (texts: seq<Bytes>)
    ensures Concat(texts) == data
  {
    assert Concat([data]) == data + Concat([]);
    [data]
  }

  ghost predicate SplitsWhole(t: TlsBase, data: Bytes) {
    Concat(t.split(data)) == data
  }

  datatype Session = Session(transcript: seq<Packet>, revealed: set<nat>, epoch: nat, lastMsgRevealed: bool)

  // ----- the steps -----

  /** `getLastBlocks`: it stops once it has found exactly `n`, so for none it finds all. */
  function LastBlocks(transcript: seq<Packet>, sender: Sender, n: int): set<nat> {
    if transcript == [] then {}
    else
      var last := |transcript| - 1;
      if transcript[last].sender != sender then LastBlocks(transcript[..last], sender, n)
      else if n == 1 then {last}
      else {last} + LastBlocks(transcript[..last], sender, n - 1)
  }

  function SetReveal(s: Session, open: bool, blocks: set<nat>): Session {
    s.(revealed := if open then s.revealed + blocks else s.revealed - blocks)
  }

  /** `updateTrafficKeys`: announced under the old keys. */
  function UpdateKeys(tls: Tls, s: Session): Session {
    s.(transcript := s.transcript + [Packet(Client, true, false, s.epoch, tls.update)], epoch := s.epoch + 1)
  }

  function Records(epoch: nat, texts: seq<Bytes>): (ps: seq<Packet>)
    ensures |ps| == |texts|
    ensures forall k :: 0 <= k < |ps| ==> ps[k] == Packet(Client, true, true, epoch, texts[k])
  {
    seq(|texts|, k requires 0 <= k < |texts| => Packet(Client, true, true, epoch, texts[k]))
  }

  /** Packets of the server that arrive before a write, and while it goes on. */
  datatype Arrivals = Arrivals(before: seq<Packet>, during: seq<Packet>)

  /** `writeWithReveal`. */
  function Write(tls: Tls, s: Session, data: Bytes, open: bool, a: Arrivals): Session {
    var here := s.(transcript := s.transcript + a.before);
    var ready := if open != here.lastMsgRevealed then UpdateKeys(tls, here) else here;
    var sent := Records(ready.epoch, tls.split(data)) + a.during;
    var written := ready.(transcript := ready.transcript + sent);
    SetReveal(written, open, LastBlocks(written.transcript, Client, |sent|)).(lastMsgRevealed := open)
  }

  /** A piece of the request, and whether it is to be revealed. */
  datatype Part = Part(data: Bytes, open: bool)

  function Shown(data: Bytes, from: nat, until: nat): seq<Part> {
    var block := Take(data, from, until);
    if block == [] then [] else [Part(block, true)]
  }

  /** Where the text behind the first `n` sections begins. */
  function Reached(sections: seq<Redaction>, n: nat): nat
    requires n <= |sections|
  {
    if n == 0 then 0 else sections[n - 1].toIndex
  }

  /** What is written for the first `n` sections and the text in front of them. */
  function PartsTo(data: Bytes, sections: seq<Redaction>, n: nat): seq<Part>
    requires n <= |sections|
  {
    if n == 0 then []
    else
      var section := sections[n - 1];
      PartsTo(data, sections, n - 1)
      + Shown(data, Reached(sections, n - 1), section.fromIndex)
      + [Part(Take(data, section.fromIndex, section.toIndex), false)]
  }

  function Parts(data: Bytes, sections: seq<Redaction>): seq<Part> {
    PartsTo(data, sections, |sections|) + Shown(data, Reached(sections, |sections|), |data|)
  }

  /** All writes, one after the other; `arriving` tells what the server sends meanwhile. */
  function WriteAll(tls: Tls, s: Session, parts: seq<Part>, arriving: nat -> Arrivals): Session {
    if parts == [] then s
    else
      var n := |parts| - 1;
      Write(tls, WriteAll(tls, s, parts[..n], arriving), parts[n].data, parts[n].open, arriving(n))
  }

  /** Ciphertext in front of all application data. */
  predicate IsHandshake(transcript: seq<Packet>, i: int) {
    0 <= i < |transcript| && transcript[i].ciphertext
    && forall k :: 0 <= k <= i ==> !(transcript[k].ciphertext && transcript[k].appData)
  }

  /** The last loop of `addServerSideReveals`. */
  function RevealHandshake(s: Session): Session {
    s.(revealed := s.revealed + set i: nat | i < |s.transcript| && IsHandshake(s.transcript, i))
  }

  // ----- the program -----

  class RequestWriter {
    const tls: Tls
    var transcript: seq<Packet>
    var revealed: set<nat>
    var epoch: nat
    var lastMsgRevealed: bool

    constructor (tls: Tls, transcript: seq<Packet>, epoch: nat)
      ensures this.tls == tls && Here() == Session(transcript, {}, epoch, false)
      ensures (forall i :: IsClient(transcript, i) ==> transcript[i].epoch < epoch && !transcript[i].appData) ==> Fresh(Here())
    {
      this.tls, this.transcript, this.epoch := tls, transcript, epoch;
      revealed, lastMsgRevealed := {}, false;
    }

    function Here(): Session
      reads this
    {
      Session(transcript, revealed, epoch, lastMsgRevealed)
    }

    method GetLastBlocks(sender: Sender, nBlocks: nat) returns (lastBlocks: seq<nat>)
      ensures (set b | b in lastBlocks) == LastBlocks(transcript, sender, nBlocks)
    {
      lastBlocks := [];
      var i := |transcript| - 1;
      assert transcript[..i + 1] == transcript;
      while i >= 0
        invariant -1 <= i < |transcript|
        invariant LastBlocks(transcript, sender, nBlocks)
               == (set b | b in lastBlocks) + LastBlocks(transcript[..i + 1], sender, nBlocks - |lastBlocks|)
        invariant nBlocks == 0 || |lastBlocks| < nBlocks
      {
        assert transcript[..i + 1][..i] == transcript[..i];
        if transcript[i].sender == sender {
          ghost var prior := lastBlocks;
          lastBlocks := lastBlocks + [i];
          assert (set b | b in lastBlocks) == (set b | b in prior) + {i};
          if |lastBlocks| == nBlocks {
            return;
          }
        }
        i := i - 1;
      }
    }

    method SetRevealOfLastSentBlocks(open: bool, nBlocks: nat)
      modifies `revealed
      ensures Here() == SetReveal(old(Here()), open, LastBlocks(transcript, Client, nBlocks))
    {
      var lastBlocks := GetLastBlocks(Client, nBlocks);
      for k := 0 to |lastBlocks|
        invariant revealed == if open then old(revealed) + (set b | b in lastBlocks[..k])
                              else old(revealed) - (set b | b in lastBlocks[..k])
      {
        ghost var prior, next := lastBlocks[..k], lastBlocks[..k + 1];
        assert next == prior + [lastBlocks[k]];
        assert (set b | b in next) == (set b | b in prior) + {lastBlocks[k]};
        if open {
          revealed := revealed + {lastBlocks[k]};
        } else {
          revealed := revealed - {lastBlocks[k]};
        }
      }
      assert lastBlocks[..|lastBlocks|] == lastBlocks;
    }

    method WriteWithReveal(data: Bytes, open: bool, a: Arrivals)
      modifies this
      ensures Here() == Write(tls, old(Here()), data, open, a)
    {
      transcript := transcript + a.before;
      ghost var here := Here();
      if open != lastMsgRevealed {
        transcript := transcript + [Packet(Client, true, false, epoch, tls.update)];
        epoch := epoch + 1;
      }
      ghost var ready := Here();
      assert ready == if open != here.lastMsgRevealed then UpdateKeys(tls, here) else here;
      var blocksWritten := |transcript|;
      transcript := transcript + (Records(epoch, tls.split(data)) + a.during);
      blocksWritten := |transcript| - blocksWritten;
      assert blocksWritten == |Records(epoch, tls.split(data)) + a.during|;
      SetRevealOfLastSentBlocks(open, blocksWritten);
      lastMsgRevealed := open;
    }

    /** One of the parts, unless there is nothing to show. */
    method WriteShown(start: Session, parts: seq<Part>, data: Bytes, from: nat, until: nat, arriving: nat -> Arrivals)
      requires Here() == WriteAll(tls, start, parts, arriving)
      modifies this
      ensures Here() == WriteAll(tls, start, parts + Shown(data, from, until), arriving)
    {
      var block := Take(data, from, until);
      if block != [] {
        WriteAllNext(tls, start, parts, Part(block, true), arriving);
        WriteWithReveal(block, true, arriving(|parts|));
      } else {
        assert parts + [] == parts;
      }
    }

    method WriteRedactedWithKeyUpdate(requestData: Bytes, redactions: seq<Redaction>, arriving: nat -> Arrivals)
      modifies this
      ensures Here() == WriteAll(tls, old(Here()), Parts(requestData, redactions), arriving)
    {
      var currentIndex := 0;
      var start, parts := Here(), [];
      for k := 0 to |redactions|
        invariant currentIndex == Reached(redactions, k) && parts == PartsTo(requestData, redactions, k)
        invariant Here() == WriteAll(tls, start, parts, arriving)
      {
        var section := redactions[k];
        WriteShown(start, parts, requestData, currentIndex, section.fromIndex, arriving);
        parts := parts + Shown(requestData, currentIndex, section.fromIndex);
        var redacted := Part(Take(requestData, section.fromIndex, section.toIndex), false);
        WriteAllNext(tls, start, parts, redacted, arriving);
        WriteWithReveal(redacted.data, false, arriving(|parts|));
        parts := parts + [redacted];
        currentIndex := section.toIndex;
      }
      var lastBlockStart := if redactions == [] then 0 else redactions[|redactions| - 1].toIndex;
      WriteShown(start, parts, requestData, lastBlockStart, |requestData|, arriving);
    }

    /** The last loop of `addServerSideReveals`. */
    method AddHandshakeReveals()
      modifies `revealed
      ensures Here() == RevealHandshake(old(Here()))
    {
      var i := 0;
      while i < |transcript| && !(transcript[i].ciphertext && transcript[i].appData)
        invariant i <= |transcript| && forall k :: 0 <= k < i ==> !(transcript[k].ciphertext && transcript[k].appData)
        invariant revealed == old(revealed) + set k: nat | k < i && transcript[k].ciphertext
      {
        if transcript[i].ciphertext {
          revealed := revealed + {i};
        }
        i := i + 1;
      }
      assert forall k: nat :: k < |transcript| && IsHandshake(transcript, k) <==> k < i && transcript[k].ciphertext;
    }
  }

  lemma WriteAllNext(tls: Tls, s: Session, parts: seq<Part>, part: Part, arriving: nat -> Arrivals)
    ensures WriteAll(tls, s, parts + [part], arriving)
         == Write(tls, WriteAll(tls, s, parts, arriving), part.data, part.open, arriving(|parts|))
  {
    assert (parts + [part])[..|parts|] == parts;
  }

  // ----- separation -----

  predicate IsClient(transcript: seq<Packet>, i: int) {
    0 <= i < |transcript| && transcript[i].sender == Client
  }

  predicate IsClientData(transcript: seq<Packet>, i: int) {
    IsClient(transcript, i) && transcript[i].appData
  }

  predicate SameEpoch(transcript: seq<Packet>, i: int, j: int) {
    0 <= i < |transcript| && 0 <= j < |transcript| && transcript[i].epoch == transcript[j].epoch
  }

  /** No key encrypts both a revealed packet and data that is not revealed. */
  ghost predicate Separated(s: Session) {
    forall i, j ::
      (i in s.revealed && IsClient(s.transcript, i) && IsClientData(s.transcript, j) && SameEpoch(s.transcript, i, j))
      ==> j in s.revealed
  }

  /** Under one key, data goes out before anything else does. */
  ghost predicate DataFirst(transcript: seq<Packet>) {
    forall i, j ::
      (IsClient(transcript, i) && !transcript[i].appData && IsClientData(transcript, j) && SameEpoch(transcript, i, j))
      ==> j < i
  }

  /** The client's packets under the current keys are all revealed, or none is. */
  ghost predicate CurrentUniform(s: Session) {
    forall i :: IsClient(s.transcript, i) && s.transcript[i].epoch == s.epoch ==>
      s.transcript[i].appData && (i in s.revealed <==> s.lastMsgRevealed)
  }

  ghost predicate Kept(s: Session) {
    && (forall i :: i in s.revealed ==> i < |s.transcript|)
    && (forall i :: IsClient(s.transcript, i) ==> s.transcript[i].epoch <= s.epoch)
    && Separated(s) && DataFirst(s.transcript) && CurrentUniform(s)
  }

  predicate FromServer(packets: seq<Packet>) {
    forall k :: 0 <= k < |packets| ==> packets[k].sender == Server
  }

  lemma ArrivalsKeep(s: Session, packets: seq<Packet>)
    requires Kept(s) && FromServer(packets)
    ensures Kept(s.(transcript := s.transcript + packets))
  {
    var t := s.transcript + packets;
    assert forall i :: |s.transcript| <= i < |t| ==> t[i] == packets[i - |s.transcript|];
    assert forall i :: IsClient(t, i) ==> IsClient(s.transcript, i);
    assert forall i :: IsClientData(t, i) ==> IsClientData(s.transcript, i);
    assert forall i, j ::
      (IsClient(t, i) && IsClient(t, j) && SameEpoch(t, i, j))
      ==> SameEpoch(s.transcript, i, j);
  }

  /** Under new keys there is no packet yet. */
  lemma UpdateKeeps(tls: Tls, s: Session, open: bool)
    requires Kept(s)
    ensures Kept(UpdateKeys(tls, s).(lastMsgRevealed := open))
  {
    var t := UpdateKeys(tls, s);
    var n := |s.transcript|;
    assert forall i :: IsClient(t.transcript, i) ==> i == n || IsClient(s.transcript, i);
    assert forall i :: IsClientData(t.transcript, i) ==> IsClientData(s.transcript, i);
    assert forall i, j :: i < n && j < n && SameEpoch(t.transcript, i, j) ==> SameEpoch(s.transcript, i, j);
    forall i, j | i in t.revealed && IsClient(t.transcript, i) && IsClientData(t.transcript, j)
                  && SameEpoch(t.transcript, i, j)
      ensures j in t.revealed
    {
      assert i < n && IsClient(s.transcript, i) && SameEpoch(s.transcript, i, j);
    }
  }

  /** The last `n` client packets, where `n` are at the end and all from the client. */
  lemma {:induction false} LastAre(transcript: seq<Packet>, n: nat)
    requires 0 < n <= |transcript|
    requires forall k :: |transcript| - n <= k < |transcript| ==> transcript[k].sender == Client
    ensures forall i :: i in LastBlocks(transcript, Client, n) <==> |transcript| - n <= i < |transcript|
  {
    if n > 1 {
      LastAre(transcript[..|transcript| - 1], n - 1);
    }
  }

  lemma RecordsKeep(s: Session, texts: seq<Bytes>)
    requires Kept(s) && texts != []
    ensures var records := Records(s.epoch, texts);
            var t := s.(transcript := s.transcript + records);
            Kept(SetReveal(t, s.lastMsgRevealed, LastBlocks(t.transcript, Client, |records|)))
  {
    var records := Records(s.epoch, texts);
    var n := |s.transcript|;
    var t := s.(transcript := s.transcript + records);
    LastAre(t.transcript, |records|);
    var after := SetReveal(t, s.lastMsgRevealed, LastBlocks(t.transcript, Client, |records|));
    assert forall i :: 0 <= i < n ==> t.transcript[i] == s.transcript[i];
    assert forall i :: n <= i < |t.transcript| ==> t.transcript[i] == records[i - n];
    assert forall i :: 0 <= i < n && IsClient(t.transcript, i) ==> IsClient(s.transcript, i);
    assert forall i :: 0 <= i < n && IsClientData(t.transcript, i) ==> IsClientData(s.transcript, i);
    assert forall i, j :: i < n && j < n && SameEpoch(t.transcript, i, j) ==> SameEpoch(s.transcript, i, j);
    assert forall i :: i in after.revealed <==> if i < n then i in s.revealed else i < |t.transcript| && s.lastMsgRevealed;
  }

  lemma {:induction false} AllOfThem(transcript: seq<Packet>, n: int)
    requires n <= 0
    ensures forall i :: i in LastBlocks(transcript, Client, n) <==> IsClient(transcript, i)
    decreases |transcript|
  {
    if transcript != [] {
      var last := |transcript| - 1;
      AllOfThem(transcript[..last], if transcript[last].sender == Client then n - 1 else n);
      assert forall i :: 0 <= i < last ==> (IsClient(transcript, i) <==> IsClient(transcript[..last], i));
    }
  }

  /** A write of no record marks all that the client sent. */
  lemma NothingWrittenKeeps(s: Session)
    requires Kept(s)
    ensures Kept(SetReveal(s, s.lastMsgRevealed, LastBlocks(s.transcript, Client, 0)))
  {
    AllOfThem(s.transcript, 0);
  }

  /** A write with no packet of the server arriving keeps all that. */
  lemma WriteKeeps(tls: Tls, s: Session, data: Bytes, open: bool, a: Arrivals)
    requires Kept(s) && FromServer(a.before) && a.during == []
    ensures Kept(Write(tls, s, data, open, a))
  {
    var here := s.(transcript := s.transcript + a.before);
    ArrivalsKeep(s, a.before);
    var ready := if open != here.lastMsgRevealed then UpdateKeys(tls, here) else here;
    if open != here.lastMsgRevealed {
      UpdateKeeps(tls, here, open);
    }
    var records := Records(ready.epoch, tls.split(data));
    assert records + a.during == records;
    if records == [] {
      assert ready.transcript + records == ready.transcript;
      NothingWrittenKeeps(ready.(lastMsgRevealed := open));
    } else {
      RecordsKeep(ready.(lastMsgRevealed := open), tls.split(data));
    }
  }

  lemma NotEmpty(tls: Tls, data: Bytes)
    requires data != []
    ensures tls.split(data) != []
  {
    assert SplitsWhole(tls, data);
  }

  ghost predicate Calm(arriving: nat -> Arrivals) {
    forall k :: FromServer(arriving(k).before) && arriving(k).during == []
  }

  /** The transcript of the handshake: no data yet, and nothing under the current keys. */
  ghost predicate Fresh(s: Session) {
    && s.revealed == {} && !s.lastMsgRevealed
    && forall i :: IsClient(s.transcript, i) ==> s.transcript[i].epoch < s.epoch && !s.transcript[i].appData
  }

  lemma {:induction false} WriteAllKeeps(tls: Tls, s: Session, parts: seq<Part>, arriving: nat -> Arrivals)
    requires Fresh(s) && Calm(arriving)
    ensures Kept(WriteAll(tls, s, parts, arriving))
  {
    if parts != [] {
      var n := |parts| - 1;
      WriteAllKeeps(tls, s, parts[..n], arriving);
      WriteKeeps(tls, WriteAll(tls, s, parts[..n], arriving), parts[n].data, parts[n].open, arriving(n));
    }
  }

  /**
   What is revealed of the handshake: the ciphertext in front of the first application data,
   or all of it if there is none, whoever sent it.
   */
  lemma HandshakeRevealed(s: Session) returns (n: nat)
    ensures n <= |s.transcript| && (n < |s.transcript| ==> s.transcript[n].ciphertext && s.transcript[n].appData)
    ensures forall k :: 0 <= k < n ==> !s.transcript[k].ciphertext || !s.transcript[k].appData
    ensures var t := RevealHandshake(s);
            && t == s.(revealed := t.revealed)
            && forall i: nat :: i in t.revealed <==> i in s.revealed || (i < n && s.transcript[i].ciphertext)
  {
    n := 0;
    while n < |s.transcript| && !(s.transcript[n].ciphertext && s.transcript[n].appData)
      invariant n <= |s.transcript|
      invariant forall k :: 0 <= k < n ==> !s.transcript[k].ciphertext || !s.transcript[k].appData
    {
      n := n + 1;
    }
  }

  lemma HandshakeKeeps(s: Session)
    requires DataFirst(s.transcript)
    ensures Separated(RevealHandshake(s)) <==> Separated(s)
    ensures forall j :: IsClientData(s.transcript, j) ==> (j in RevealHandshake(s).revealed <==> j in s.revealed)
  {
    var t := RevealHandshake(s);
    assert forall j :: IsClientData(s.transcript, j) ==> !IsHandshake(s.transcript, j);
    forall i, j | Separated(s) && i in t.revealed && IsClient(t.transcript, i) && IsClientData(t.transcript, j)
                  && SameEpoch(t.transcript, i, j)
      ensures j in t.revealed
    {
      assert i in s.revealed || IsHandshake(s.transcript, i);
    }
  }

  // ----- what is sent, and what of it is shown -----

  /** The client's data, with stars for what is not revealed. */
  function SentTo(s: Session, n: nat): Bytes
    requires n <= |s.transcript|
  {
    if n == 0 then []
    else
      var p := s.transcript[n - 1];
      SentTo(s, n - 1)
      + if p.sender == Client && p.appData
        then if n - 1 in s.revealed then p.plaintext else Fill(STAR, |p.plaintext|)
        else []
  }

  function DataTo(transcript: seq<Packet>, n: nat): Bytes
    requires n <= |transcript|
  {
    if n == 0 then []
    else
      var p := transcript[n - 1];
      DataTo(transcript, n - 1) + if p.sender == Client && p.appData then p.plaintext else []
  }

  /** The first packets, with the same ones of the client's data revealed. */
  ghost predicate SameFront(s: Session, t: Session, n: nat) {
    && n <= |s.transcript| && n <= |t.transcript| && s.transcript[..n] == t.transcript[..n]
    && forall i :: 0 <= i < n && IsClientData(s.transcript, i) ==> (i in s.revealed <==> i in t.revealed)
  }

  lemma {:induction false} FrontSame(s: Session, t: Session, n: nat)
    requires SameFront(s, t, n)
    ensures SentTo(s, n) == SentTo(t, n) && DataTo(s.transcript, n) == DataTo(t.transcript, n)
  {
    if n > 0 {
      assert s.transcript[..n][n - 1] == t.transcript[..n][n - 1];
      assert s.transcript[..n - 1] == s.transcript[..n][..n - 1] == t.transcript[..n][..n - 1] == t.transcript[..n - 1];
      FrontSame(s, t, n - 1);
    }
  }

  /** Packets without the client's data. */
  lemma {:induction false} NoDataBehind(s: Session, from: nat, n: nat)
    requires from <= n <= |s.transcript| && forall i :: from <= i < n ==> !IsClientData(s.transcript, i)
    ensures SentTo(s, n) == SentTo(s, from) && DataTo(s.transcript, n) == DataTo(s.transcript, from)
  {
    if from < n {
      assert !IsClientData(s.transcript, n - 1);
      NoDataBehind(s, from, n - 1);
    }
  }

  predicate RecordAt(s: Session, i: nat, text: Bytes, open: bool) {
    IsClientData(s.transcript, i) && s.transcript[i].plaintext == text && (i in s.revealed <==> open)
  }

  lemma FillMore(a: nat, b: nat)
    ensures Fill(STAR, a) + Fill(STAR, b) == Fill(STAR, a + b)
  {
  }

  /** The text as the attestor sees it. */
  function Veiled(text: Bytes, open: bool): Bytes {
    if open then text else Fill(STAR, |text|)
  }

  lemma VeiledMore(a: Bytes, b: Bytes, open: bool)
    ensures Veiled(a, open) + Veiled(b, open) == Veiled(a + b, open)
  {
    FillMore(|a|, |b|);
  }

  lemma OneRecord(s: Session, i: nat, text: Bytes, open: bool)
    requires RecordAt(s, i, text, open)
    ensures DataTo(s.transcript, i + 1) == DataTo(s.transcript, i) + text
    ensures SentTo(s, i + 1) == SentTo(s, i) + Veiled(text, open)
  {
  }

  /** The records of the texts, from position `from` on. */
  predicate RecordsAt(s: Session, from: nat, texts: seq<Bytes>, open: bool) {
    && from + |texts| <= |s.transcript|
    && forall i :: from <= i < from + |texts| ==>
         && s.transcript[i].sender == Client && s.transcript[i].appData
         && s.transcript[i].plaintext == texts[i - from] && (i in s.revealed <==> open)
  }

  lemma RecordOf(s: Session, from: nat, texts: seq<Bytes>, k: nat, open: bool)
    requires RecordsAt(s, from, texts, open) && k < |texts|
    ensures RecordAt(s, from + k, texts[k], open)
  {
  }

  lemma DataStep(s: Session, from: nat, texts: seq<Bytes>, text: Bytes, open: bool)
    requires RecordAt(s, from + |texts|, text, open) && SentBehind(s, from, texts, open)
    ensures SentBehind(s, from, texts + [text], open)
  {
    OneRecord(s, from + |texts|, text, open);
    ConcatSnoc(texts, text);
    MoreVeiled(DataTo(s.transcript, from), SentTo(s, from), Concat(texts), text, open);
  }

  lemma MoreVeiled(data: Bytes, sent: Bytes, a: Bytes, b: Bytes, open: bool)
    ensures (data + a) + b == data + (a + b)
    ensures (sent + Veiled(a, open)) + Veiled(b, open) == sent + Veiled(a + b, open)
  {
    VeiledMore(a, b, open);
    Regroup(data, a, b);
    Regroup(sent, Veiled(a, open), Veiled(b, open));
  }

  /** What was sent, for the records of the texts from `from` on. */
  ghost predicate SentBehind(s: Session, from: nat, texts: seq<Bytes>, open: bool) {
    && from + |texts| <= |s.transcript|
    && DataTo(s.transcript, from + |texts|) == DataTo(s.transcript, from) + Concat(texts)
    && SentTo(s, from + |texts|) == SentTo(s, from) + Veiled(Concat(texts), open)
  }

  lemma DataBehind(s: Session, from: nat, texts: seq<Bytes>, n: nat, open: bool)
    requires RecordsAt(s, from, texts, open) && n <= |texts|
    ensures SentBehind(s, from, texts[..n], open)
  {
    NoneBehind(s, from, open);
    var prior := [];
    for k := 0 to n
      invariant prior == texts[..k] && SentBehind(s, from, prior, open)
    {
      RecordOf(s, from, texts, k, open);
      DataStep(s, from, prior, texts[k], open);
      prior := prior + [texts[k]];
    }
  }

  lemma NoneBehind(s: Session, from: nat, open: bool)
    requires from <= |s.transcript|
    ensures SentBehind(s, from, [], open)
  {
    assert Veiled([], open) == [];
  }

  function Sent(s: Session): Bytes {
    SentTo(s, |s.transcript|)
  }

  function Data(s: Session): Bytes {
    DataTo(s.transcript, |s.transcript|)
  }

  /** The part as the attestor sees it. */
  function Seen(part: Part): Bytes {
    Veiled(part.data, part.open)
  }

  /** Packets without the client's data, appended. */
  lemma NoDataAppended(s: Session, t: Session, packets: seq<Packet>)
    requires t.transcript == s.transcript + packets && t.revealed == s.revealed
    requires forall k :: 0 <= k < |packets| ==> packets[k].sender == Server || !packets[k].appData
    ensures Sent(t) == Sent(s) && Data(t) == Data(s)
  {
    var n := |s.transcript|;
    assert t.transcript[..n] == s.transcript[..n];
    FrontSame(s, t, n);
    forall i | n <= i < |t.transcript|
      ensures !IsClientData(t.transcript, i)
    {
      assert t.transcript[i] == packets[i - n];
    }
    NoDataBehind(t, n, |t.transcript|);
  }

  lemma RecordsMarked(s: Session, t: Session, texts: seq<Bytes>, open: bool)
    requires texts != [] && forall i :: i in s.revealed ==> i < |s.transcript|
    requires t.transcript == s.transcript + Records(s.epoch, texts) && t.revealed == s.revealed
    ensures var after := SetReveal(t, open, LastBlocks(t.transcript, Client, |texts|));
            && SameFront(s, after, |s.transcript|)
            && RecordsAt(after, |s.transcript|, texts, open)
            && |after.transcript| == |s.transcript| + |texts|
  {
    RecordsBehind(s.transcript, Records(s.epoch, texts), texts);
    LastAre(t.transcript, |texts|);
    RecordsRevealed(s, t, texts, open, LastBlocks(t.transcript, Client, |texts|));
  }

  lemma RecordsBehind(front: seq<Packet>, records: seq<Packet>, texts: seq<Bytes>)
    requires |records| == |texts|
    requires forall k :: 0 <= k < |texts| ==>
               records[k].sender == Client && records[k].appData && records[k].plaintext == texts[k]
    ensures (front + records)[..|front|] == front
    ensures forall i :: |front| <= i < |front| + |texts| ==>
              && (front + records)[i].sender == Client && (front + records)[i].appData
              && (front + records)[i].plaintext == texts[i - |front|]
  {
    assert forall i :: |front| <= i < |front| + |texts| ==> (front + records)[i] == records[i - |front|];
  }

  lemma RecordsRevealed(s: Session, t: Session, texts: seq<Bytes>, open: bool, blocks: set<nat>)
    requires |s.transcript| + |texts| == |t.transcript| && t.transcript[..|s.transcript|] == s.transcript
    requires t.revealed == s.revealed && forall i :: i in s.revealed ==> i < |s.transcript|
    requires forall i :: |s.transcript| <= i < |t.transcript| ==>
               && t.transcript[i].sender == Client && t.transcript[i].appData
               && t.transcript[i].plaintext == texts[i - |s.transcript|]
    requires forall i :: i in blocks <==> |s.transcript| <= i < |t.transcript|
    ensures SameFront(s, SetReveal(t, open, blocks), |s.transcript|)
    ensures RecordsAt(SetReveal(t, open, blocks), |s.transcript|, texts, open)
  {
    assert s.transcript[..|s.transcript|] == s.transcript;
  }

  lemma SentUpToEnd(s: Session, after: Session, n: nat, texts: seq<Bytes>, open: bool)
    requires SentBehind(after, n, texts, open) && |after.transcript| == n + |texts|
    requires n == |s.transcript| && SentTo(s, n) == SentTo(after, n)
    requires DataTo(s.transcript, n) == DataTo(after.transcript, n)
    ensures Data(after) == Data(s) + Concat(texts)
    ensures Sent(after) == Sent(s) + Seen(Part(Concat(texts), open))
  {
  }

  lemma SentWith(s: Session, after: Session, texts: seq<Bytes>, open: bool)
    requires SameFront(s, after, |s.transcript|) && RecordsAt(after, |s.transcript|, texts, open)
    requires |after.transcript| == |s.transcript| + |texts|
    ensures Data(after) == Data(s) + Concat(texts)
    ensures Sent(after) == Sent(s) + Seen(Part(Concat(texts), open))
  {
    var n := |s.transcript|;
    FrontSame(s, after, n);
    assert SentBehind(after, n, texts, open) by {
      DataBehind(after, n, texts, |texts|, open);
      assert texts[..|texts|] == texts;
    }
    SentUpToEnd(s, after, n, texts, open);
  }

  lemma RecordsSent(s: Session, t: Session, texts: seq<Bytes>, open: bool)
    requires texts != [] && forall i :: i in s.revealed ==> i < |s.transcript|
    requires t.transcript == s.transcript + Records(s.epoch, texts) && t.revealed == s.revealed
    ensures var after := SetReveal(t, open, LastBlocks(t.transcript, Client, |texts|));
            && Data(after) == Data(s) + Concat(texts)
            && Sent(after) == Sent(s) + Seen(Part(Concat(texts), open))
  {
    RecordsMarked(s, t, texts, open);
    SentWith(s, SetReveal(t, open, LastBlocks(t.transcript, Client, |texts|)), texts, open);
  }

  /** The session with the keys under which a write goes out. */
  function Ready(tls: Tls, s: Session, open: bool, a: Arrivals): Session {
    var here := s.(transcript := s.transcript + a.before);
    if open != here.lastMsgRevealed then UpdateKeys(tls, here) else here
  }

  lemma ReadySent(tls: Tls, s: Session, open: bool, a: Arrivals)
    requires Kept(s) && FromServer(a.before)
    ensures var ready := Ready(tls, s, open, a);
            && Data(ready) == Data(s) && Sent(ready) == Sent(s)
            && forall i :: i in ready.revealed ==> i < |ready.transcript|
  {
    var here := s.(transcript := s.transcript + a.before);
    NoDataAppended(s, here, a.before);
    if open != here.lastMsgRevealed {
      NoDataAppended(here, UpdateKeys(tls, here), [Packet(Client, true, false, here.epoch, tls.update)]);
    }
  }

  lemma WriteFromReady(tls: Tls, s: Session, data: Bytes, open: bool, a: Arrivals)
    requires a.during == []
    ensures var ready := Ready(tls, s, open, a);
            var t := ready.(transcript := ready.transcript + Records(ready.epoch, tls.split(data)));
            Write(tls, s, data, open, a)
            == SetReveal(t, open, LastBlocks(t.transcript, Client, |tls.split(data)|)).(lastMsgRevealed := open)
  {
    var ready := Ready(tls, s, open, a);
    assert Records(ready.epoch, tls.split(data)) + [] == Records(ready.epoch, tls.split(data));
  }

  lemma {:induction false} AllVeiled(s: Session, open: bool, n: nat)
    requires n <= |s.transcript|
    requires forall i :: IsClientData(s.transcript, i) ==> (i in s.revealed <==> open)
    ensures SentTo(s, n) == Veiled(DataTo(s.transcript, n), open)
  {
    if n > 0 {
      AllVeiled(s, open, n - 1);
      if IsClientData(s.transcript, n - 1) {
        VeiledMore(DataTo(s.transcript, n - 1), s.transcript[n - 1].plaintext, open);
      }
    }
  }

  lemma NothingSent(s: Session, open: bool)
    ensures var after := SetReveal(s, open, LastBlocks(s.transcript, Client, 0));
            Data(after) == Data(s) && Sent(after) == Veiled(Data(s), open)
  {
    AllOfThem(s.transcript, 0);
    AllVeiled(SetReveal(s, open, LastBlocks(s.transcript, Client, 0)), open, |s.transcript|);
  }

  /** What is seen after one more part: a part without records marks all in front of it. */
  function SeenAfter(tls: Tls, before: Bytes, seen: Bytes, part: Part): Bytes {
    if tls.split(part.data) == [] then Veiled(before, part.open) else seen + Seen(part)
  }

  lemma WriteSent(tls: Tls, s: Session, part: Part, a: Arrivals)
    requires Kept(s) && FromServer(a.before) && a.during == []
    ensures Data(Write(tls, s, part.data, part.open, a)) == Data(s) + part.data
    ensures Sent(Write(tls, s, part.data, part.open, a)) == SeenAfter(tls, Data(s), Sent(s), part)
  {
    var data, open := part.data, part.open;
    var ready := Ready(tls, s, open, a);
    ReadySent(tls, s, open, a);
    var t := ready.(transcript := ready.transcript + Records(ready.epoch, tls.split(data)));
    assert SplitsWhole(tls, data);
    WriteFromReady(tls, s, data, open, a);
    LastChanged(SetReveal(t, open, LastBlocks(t.transcript, Client, |tls.split(data)|)), open);
    if tls.split(data) == [] {
      assert ready.transcript + [] == ready.transcript;
      NothingSent(ready, open);
    } else {
      RecordsSent(ready, t, tls.split(data), open);
    }
  }

  lemma LastChanged(s: Session, open: bool)
    ensures Sent(s.(lastMsgRevealed := open)) == Sent(s) && Data(s.(lastMsgRevealed := open)) == Data(s)
  {
    FrontSame(s, s.(lastMsgRevealed := open), |s.transcript|);
  }

  function PartsData(parts: seq<Part>): Bytes {
    if parts == [] then [] else PartsData(parts[..|parts| - 1]) + parts[|parts| - 1].data
  }

  function PartsSeen(tls: Tls, parts: seq<Part>): Bytes {
    if parts == [] then []
    else
      var n := |parts| - 1;
      SeenAfter(tls, PartsData(parts[..n]), PartsSeen(tls, parts[..n]), parts[n])
  }

  lemma {:induction false} WriteAllSent(tls: Tls, s: Session, parts: seq<Part>, arriving: nat -> Arrivals)
    requires Fresh(s) && Calm(arriving)
    ensures Data(WriteAll(tls, s, parts, arriving)) == PartsData(parts)
    ensures Sent(WriteAll(tls, s, parts, arriving)) == PartsSeen(tls, parts)
  {
    if parts == [] {
      NoDataBehind(s, 0, |s.transcript|);
    } else {
      var n := |parts| - 1;
      WriteAllSent(tls, s, parts[..n], arriving);
      WriteAllKeeps(tls, s, parts[..n], arriving);
      WriteSent(tls, WriteAll(tls, s, parts[..n], arriving), parts[n], arriving(n));
    }
  }

  // ----- the parts of a request -----

  /** Sections of the request in order, not overlapping; they may be empty. */
  predicate Sections(data: Bytes, sections: seq<Redaction>) {
    && (forall k :: 0 <= k < |sections| ==> sections[k].fromIndex <= sections[k].toIndex <= |data|)
    && (forall i, k :: 0 <= i < k < |sections| ==> sections[i].toIndex <= sections[k].fromIndex)
  }

  /** Where the last empty one of the first `n` sections is: all in front of it is hidden. */
  function LastEmpty(sections: seq<Redaction>, n: nat): nat
    requires n <= |sections|
  {
    if n == 0 then 0
    else if sections[n - 1].fromIndex == sections[n - 1].toIndex then sections[n - 1].fromIndex
    else LastEmpty(sections, n - 1)
  }

  /** Up to where the empty sections hide the request; nothing, if writing no bytes sends a record. */
  function HiddenTo(tls: Tls, sections: seq<Redaction>, n: nat): nat
    requires n <= |sections|
  {
    if tls.split([]) == [] then LastEmpty(sections, n) else 0
  }

  /** The text with stars up to the position. */
  function StarredTo(text: Bytes, h: nat): Bytes
    requires h <= |text|
  {
    Fill(STAR, h) + text[h..]
  }

  lemma PartsSnoc(tls: Tls, parts: seq<Part>, p: Part)
    ensures PartsData(parts + [p]) == PartsData(parts) + p.data
    ensures PartsSeen(tls, parts + [p]) == SeenAfter(tls, PartsData(parts), PartsSeen(tls, parts), p)
  {
    assert (parts + [p])[..|parts|] == parts;
  }

  lemma ShownSnoc(tls: Tls, parts: seq<Part>, data: Bytes, from: nat, until: nat)
    ensures PartsData(parts + Shown(data, from, until)) == PartsData(parts) + Take(data, from, until)
    ensures PartsSeen(tls, parts + Shown(data, from, until)) == PartsSeen(tls, parts) + Take(data, from, until)
  {
    var block := Take(data, from, until);
    if block == [] {
      assert parts + Shown(data, from, until) == parts;
    } else {
      NotEmpty(tls, block);
      PartsSnoc(tls, parts, Part(block, true));
    }
  }

  lemma StarredRange(data: Bytes, sections: seq<Redaction>, k: nat)
    requires Sections(data, sections) && k < |sections|
    ensures Starred(data, sections)[Reached(sections, k)..sections[k].fromIndex]
         == data[Reached(sections, k)..sections[k].fromIndex]
    ensures Starred(data, sections)[sections[k].fromIndex..sections[k].toIndex]
         == Fill(STAR, sections[k].toIndex - sections[k].fromIndex)
  {
    assert forall j :: 0 <= j < k ==> sections[j].toIndex <= Reached(sections, k);
    forall p | Reached(sections, k) <= p < sections[k].fromIndex
      ensures Starred(data, sections)[p] == data[p]
    {
      if Covered(sections, p) {
        var j :| 0 <= j < |sections| && Covers(sections[j], p);
      }
    }
    var stars := Starred(data, sections)[sections[k].fromIndex..sections[k].toIndex];
    forall i | 0 <= i < |stars|
      ensures stars[i] == STAR
    {
      assert Covers(sections[k], sections[k].fromIndex + i);
    }
    assert stars == Fill(STAR, |stars|);
  }

  lemma StarredEnd(data: Bytes, sections: seq<Redaction>)
    requires Sections(data, sections)
    ensures Reached(sections, |sections|) <= |data|
    ensures Starred(data, sections)[Reached(sections, |sections|)..] == data[Reached(sections, |sections|)..]
  {
    assert forall j :: 0 <= j < |sections| ==> sections[j].toIndex <= Reached(sections, |sections|);
    forall p | Reached(sections, |sections|) <= p < |data|
      ensures Starred(data, sections)[p] == data[p]
    {
    }
  }

  // ----- what is seen of a request, section by section -----

  /** What is seen of the first `n` sections and the text in front of them. */
  function SeenTo(tls: Tls, data: Bytes, sections: seq<Redaction>, n: nat): Bytes
    requires n <= |sections|
  {
    if n == 0 then []
    else
      var section := sections[n - 1];
      SeenSection(tls, SeenTo(tls, data, sections, n - 1), data, Reached(sections, n - 1), section.fromIndex, section.toIndex)
  }

  /** What is seen after one section more, from `a` to `b`, and the text in front of it. */
  function SeenSection(tls: Tls, seen: Bytes, data: Bytes, from: nat, a: nat, b: nat): Bytes {
    if tls.split(Take(data, a, b)) == [] then Fill(STAR, Min(a, |data|))
    else seen + Take(data, from, a) + Fill(STAR, |Take(data, a, b)|)
  }

  /** The parts make up the data up to a position, and are seen like this. */
  predicate MakeUp(tls: Tls, parts: seq<Part>, data: Bytes, until: nat, seen: Bytes) {
    until <= |data| && PartsData(parts) == data[..until] && PartsSeen(tls, parts) == seen
  }

  lemma Joined(data: Bytes, a: nat, b: nat)
    requires a <= b <= |data|
    ensures data[..a] + data[a..b] == data[..b] && Take(data, a, b) == data[a..b]
  {
  }

  lemma MakeUpShown(tls: Tls, parts: seq<Part>, data: Bytes, a: nat, b: nat, seen: Bytes)
    requires MakeUp(tls, parts, data, a, seen) && a <= b <= |data|
    ensures MakeUp(tls, parts + Shown(data, a, b), data, b, seen + Take(data, a, b))
  {
    ShownSnoc(tls, parts, data, a, b);
    Joined(data, a, b);
  }

  lemma MakeUpSection(tls: Tls, parts: seq<Part>, data: Bytes, seen: Bytes, from: nat, a: nat, b: nat)
    requires MakeUp(tls, parts, data, from, seen) && from <= a <= b <= |data|
    ensures MakeUp(tls, parts + Shown(data, from, a) + [Part(Take(data, a, b), false)], data, b,
                   SeenSection(tls, seen, data, from, a, b))
  {
    MakeUpShown(tls, parts, data, from, a, seen);
    PartsSnoc(tls, parts + Shown(data, from, a), Part(Take(data, a, b), false));
    Joined(data, a, b);
    assert SplitsWhole(tls, Take(data, a, b));
  }

  lemma PartsMakeUp(tls: Tls, data: Bytes, sections: seq<Redaction>, n: nat)
    requires Sections(data, sections) && n <= |sections|
    ensures MakeUp(tls, PartsTo(data, sections, n), data, Reached(sections, n), SeenTo(tls, data, sections, n))
  {
    var parts, seen := [], [];
    for k := 0 to n
      invariant parts == PartsTo(data, sections, k) && seen == SeenTo(tls, data, sections, k)
      invariant MakeUp(tls, parts, data, Reached(sections, k), seen)
    {
      NextMakesUp(tls, data, sections, k, parts, seen);
      parts, seen := PartsTo(data, sections, k + 1), SeenTo(tls, data, sections, k + 1);
    }
  }

  lemma NextMakesUp(tls: Tls, data: Bytes, sections: seq<Redaction>, n: nat, parts: seq<Part>, seen: Bytes)
    requires Sections(data, sections) && n < |sections|
    requires parts == PartsTo(data, sections, n) && seen == SeenTo(tls, data, sections, n)
    requires MakeUp(tls, parts, data, Reached(sections, n), seen)
    ensures MakeUp(tls, PartsTo(data, sections, n + 1), data, Reached(sections, n + 1), SeenTo(tls, data, sections, n + 1))
  {
    ReachedRises(data, sections, n, n);
    MakeUpSection(tls, parts, data, seen, Reached(sections, n), sections[n].fromIndex, sections[n].toIndex);
  }

  lemma {:induction false} LastEmptyBefore(data: Bytes, sections: seq<Redaction>, n: nat)
    requires Sections(data, sections) && n <= |sections|
    ensures LastEmpty(sections, n) <= Reached(sections, n) <= |data|
  {
    if n > 0 {
      LastEmptyBefore(data, sections, n - 1);
      assert n > 1 ==> sections[n - 2].toIndex <= sections[n - 1].fromIndex;
    }
  }

  /** What is seen of the request after the first `n` sections. */
  function SeenWith(tls: Tls, data: Bytes, sections: seq<Redaction>, n: nat): (seen: Bytes)
    requires Sections(data, sections) && n <= |sections|
    ensures |seen| == |data|
  {
    LastEmptyBefore(data, sections, n);
    StarredTo(Starred(data, sections), HiddenTo(tls, sections, n))
  }

  lemma StarredBehind(text: Bytes, h: nat, a: nat, b: nat)
    requires h <= a <= b <= |text|
    ensures StarredTo(text, h)[a..b] == text[a..b]
  {
  }

  lemma SeenRange(tls: Tls, data: Bytes, sections: seq<Redaction>, n: nat, k: nat)
    requires Sections(data, sections) && n <= k < |sections|
    ensures Reached(sections, k) <= sections[k].fromIndex
    ensures SeenWith(tls, data, sections, n)[Reached(sections, k)..sections[k].fromIndex]
         == data[Reached(sections, k)..sections[k].fromIndex]
    ensures SeenWith(tls, data, sections, n)[sections[k].fromIndex..sections[k].toIndex]
         == Fill(STAR, sections[k].toIndex - sections[k].fromIndex)
  {
    LastEmptyBefore(data, sections, n);
    ReachedRises(data, sections, n, k);
    StarredRange(data, sections, k);
    var text, h := Starred(data, sections), HiddenTo(tls, sections, n);
    StarredBehind(text, h, Reached(sections, k), sections[k].fromIndex);
    StarredBehind(text, h, sections[k].fromIndex, sections[k].toIndex);
  }

  lemma ReachedRises(data: Bytes, sections: seq<Redaction>, n: nat, k: nat)
    requires Sections(data, sections) && n <= k <= |sections|
    ensures Reached(sections, n) <= Reached(sections, k)
    ensures k < |sections| ==> Reached(sections, k) <= sections[k].fromIndex
  {
    if 0 < n < k {
      assert sections[n - 1].toIndex <= sections[k - 1].fromIndex;
    }
  }

  lemma SeenNext(tls: Tls, data: Bytes, sections: seq<Redaction>, n: nat)
    requires Sections(data, sections) && n < |sections|
    ensures var a, b := sections[n].fromIndex, sections[n].toIndex;
            var next := SeenWith(tls, data, sections, n + 1);
            if a == b && tls.split([]) == [] then next[..a] == Fill(STAR, a) else next == SeenWith(tls, data, sections, n)
  {
  }

  /** From what is seen up to one section to what is seen up to the next. */
  lemma SectionSeen(tls: Tls, data: Bytes, seen: Bytes, next: Bytes, from: nat, a: nat, b: nat)
    requires from <= a <= b <= |data| == |seen| == |next|
    requires seen[from..a] == data[from..a] && seen[a..b] == Fill(STAR, b - a)
    requires if a == b && tls.split([]) == [] then next[..a] == Fill(STAR, a) else next == seen
    ensures SeenSection(tls, seen[..from], data, from, a, b) == next[..b]
  {
    Joined(seen, from, a);
    Joined(seen, a, b);
    if a < b {
      NotEmpty(tls, Take(data, a, b));
    } else {
      assert Take(data, a, b) == [];
    }
  }

  lemma NextSeen(tls: Tls, data: Bytes, sections: seq<Redaction>, n: nat, seen: Bytes)
    requires Sections(data, sections) && n < |sections| && Reached(sections, n) <= |data|
    requires seen == SeenWith(tls, data, sections, n)
    requires SeenTo(tls, data, sections, n) == seen[..Reached(sections, n)]
    ensures Reached(sections, n + 1) <= |data|
    ensures SeenTo(tls, data, sections, n + 1) == SeenWith(tls, data, sections, n + 1)[..Reached(sections, n + 1)]
  {
    SeenRange(tls, data, sections, n, n);
    SeenNext(tls, data, sections, n);
    SectionSeen(tls, data, seen, SeenWith(tls, data, sections, n + 1),
                Reached(sections, n), sections[n].fromIndex, sections[n].toIndex);
  }

  lemma SeenToWith(tls: Tls, data: Bytes, sections: seq<Redaction>, n: nat)
    requires Sections(data, sections) && n <= |sections|
    ensures Reached(sections, n) <= |data|
    ensures SeenTo(tls, data, sections, n) == SeenWith(tls, data, sections, n)[..Reached(sections, n)]
  {
    var seen := SeenWith(tls, data, sections, 0);
    for k := 0 to n
      invariant Reached(sections, k) <= |data| && seen == SeenWith(tls, data, sections, k)
      invariant SeenTo(tls, data, sections, k) == seen[..Reached(sections, k)]
    {
      NextSeen(tls, data, sections, k, seen);
      seen := SeenWith(tls, data, sections, k + 1);
    }
  }

  lemma SeenEnd(tls: Tls, data: Bytes, sections: seq<Redaction>, seen: Bytes, from: nat)
    requires Sections(data, sections) && from == Reached(sections, |sections|)
    requires seen == SeenWith(tls, data, sections, |sections|)
    ensures from <= |data| && seen[from..|data|] == data[from..|data|]
  {
    var text := Starred(data, sections);
    StarredEnd(data, sections);
    LastEmptyBefore(data, sections, |sections|);
    StarredBehind(text, HiddenTo(tls, sections, |sections|), from, |data|);
    UpToEnd(text, data, from);
  }

  lemma UpToEnd(a: Bytes, b: Bytes, from: nat)
    requires |a| == |b| && from <= |a| && a[from..] == b[from..]
    ensures a[from..|b|] == b[from..|b|]
  {
    assert a[from..|b|] == a[from..] && b[from..|b|] == b[from..];
  }

  lemma PartsWhole(tls: Tls, data: Bytes, sections: seq<Redaction>)
    requires Sections(data, sections)
    ensures PartsData(Parts(data, sections)) == data
    ensures PartsSeen(tls, Parts(data, sections)) == SeenWith(tls, data, sections, |sections|)
  {
    var n, from, seen := |sections|, Reached(sections, |sections|), SeenWith(tls, data, sections, |sections|);
    PartsMakeUp(tls, data, sections, n);
    SeenToWith(tls, data, sections, n);
    SeenEnd(tls, data, sections, seen, from);
    MakeUpShown(tls, PartsTo(data, sections, n), data, from, |data|, SeenTo(tls, data, sections, n));
    Joined(data, from, |data|);
    Joined(seen, from, |data|);
    assert data[..|data|] == data && seen[..|data|] == seen;
  }

  /**
   For every request and its redacted sections, empty ones included: with the handshake
   revealed as well, no key of the client encrypts both a revealed record and application
   data that is not revealed, and the data sent is the request. What is revealed of it
   is the request with stars over exactly the sections and over all in front of the last
   empty one, if writing no bytes sends no record.
   */
  lemma KeysSeparate(tls: Tls, s: Session, data: Bytes, sections: seq<Redaction>, arriving: nat -> Arrivals)
    requires Fresh(s) && Sections(data, sections) && Calm(arriving)
    ensures var end := RevealHandshake(WriteAll(tls, s, Parts(data, sections), arriving));
            Separated(end) && Data(end) == data && Sent(end) == SeenWith(tls, data, sections, |sections|)
  {
    var parts := Parts(data, sections);
    var written := WriteAll(tls, s, parts, arriving);
    PartsWhole(tls, data, sections);
    WriteAllKeeps(tls, s, parts, arriving);
    WriteAllSent(tls, s, parts, arriving);
    HandshakeKeeps(written);
    FrontSame(written, RevealHandshake(written), |written.transcript|);
  }

  /**
   What is revealed is the request with stars over exactly its sections if and only if
   every byte in front of the last empty section is in a section or is a star itself, or
   writing no bytes sends a record.
   */
  lemma CalmRevealsExactlyWhen(tls: Tls, s: Session, data: Bytes, sections: seq<Redaction>, arriving: nat -> Arrivals)
    requires Fresh(s) && Sections(data, sections) && Calm(arriving)
    ensures var end := RevealHandshake(WriteAll(tls, s, Parts(data, sections), arriving));
            Sent(end) == Starred(data, sections) <==>
            tls.split([]) != [] || forall q :: 0 <= q < LastEmpty(sections, |sections|) ==>
              q < |data| && (Covered(sections, q) || data[q] == STAR)
  {
    KeysSeparate(tls, s, data, sections, arriving);
    LastEmptyBefore(data, sections, |sections|);
    StarredToExactly(Starred(data, sections), HiddenTo(tls, sections, |sections|));
  }

  lemma StarredToExactly(text: Bytes, h: nat)
    requires h <= |text|
    ensures StarredTo(text, h) == text <==> forall q :: 0 <= q < h ==> text[q] == STAR
  {
    var hidden := StarredTo(text, h);
    if hidden == text {
      assert forall q :: 0 <= q < h ==> hidden[q] == STAR;
    } else {
      assert forall q :: h <= q < |text| ==> hidden[q] == text[q];
    }
  }

  /** The request "a" with an empty section at its end: nothing of it is revealed. */
  lemma EmptySectionHidesRequest(tls: Tls, s: Session, arriving: nat -> Arrivals)
    requires Fresh(s) && Calm(arriving) && tls.split([]) == []
    ensures var end := RevealHandshake(WriteAll(tls, s, Parts([97], [Redaction(1, 1, false)]), arriving));
            Sent(end) == [STAR] != Starred([97], [Redaction(1, 1, false)])
  {
    var data, sections := [97], [Redaction(1, 1, false)];
    KeysSeparate(tls, s, data, sections, arriving);
    assert !Covered(sections, 0) && Starred(data, sections)[0] == 97;
    assert LastEmpty(sections, 1) == 1 && SeenWith(tls, data, sections, 1)[0] == STAR;
  }

  // ----- what it takes -----

  lemma {:induction false} LastWithServer(transcript: seq<Packet>, packets: seq<Packet>, n: int)
    requires FromServer(packets)
    ensures LastBlocks(transcript + packets, Client, n) == LastBlocks(transcript, Client, n)
  {
    if packets == [] {
      assert transcript + packets == transcript;
    } else {
      var m := |packets| - 1;
      assert (transcript + packets)[..|transcript + packets| - 1] == transcript + packets[..m];
      LastWithServer(transcript, packets[..m], n);
    }
  }

  /** One more than the records behind it reaches the client packet in front of them. */
  lemma {:induction false} LastReaches(transcript: seq<Packet>, at: nat, n: nat)
    requires at < |transcript| && n >= |transcript| - at
    requires forall k :: at <= k < |transcript| ==> transcript[k].sender == Client
    ensures at in LastBlocks(transcript, Client, n)
    decreases |transcript|
  {
    if at < |transcript| - 1 {
      LastReaches(transcript[..|transcript| - 1], at, n - 1);
    }
  }

  /**
   A revealed piece written behind data that is not revealed: the data stays apart from
   what is revealed exactly when no packet of the server arrives during the write.
   */
  lemma SeparatesExactlyWhenCalm(tls: Tls, s: Session, data: Bytes, a: Arrivals, j: nat)
    requires Kept(s) && !s.lastMsgRevealed && data != [] && FromServer(a.before) && FromServer(a.during)
    requires IsClientData(s.transcript, j) && s.transcript[j].epoch == s.epoch
    ensures var after := Write(tls, s, data, true, a);
            Separated(after) && j !in after.revealed <==> a.during == []
  {
    var after := Write(tls, s, data, true, a);
    if a.during == [] {
      WriteKeeps(tls, s, data, true, a);
      CalmWrite(tls, s, data, a, j);
    } else {
      var at := UpdateMarked(tls, s, data, a, j);
      if j !in after.revealed {
        assert IsClient(after.transcript, at) && IsClientData(after.transcript, j) && SameEpoch(after.transcript, at, j);
      }
    }
  }

  /** Without arrivals, a write marks nothing that was there before. */
  lemma CalmWrite(tls: Tls, s: Session, data: Bytes, a: Arrivals, j: nat)
    requires Kept(s) && !s.lastMsgRevealed && data != [] && a.during == []
    requires IsClientData(s.transcript, j) && s.transcript[j].epoch == s.epoch
    ensures j !in Write(tls, s, data, true, a).revealed
  {
    WriteFromReady(tls, s, data, true, a);
    var ready := Ready(tls, s, true, a);
    NotEmpty(tls, data);
    var records := Records(ready.epoch, tls.split(data));
    LastAre(ready.transcript + records, |records|);
  }

  /** With one, it marks the key update in front of it, which went out under the old keys. */
  lemma UpdateMarked(tls: Tls, s: Session, data: Bytes, a: Arrivals, j: nat) returns (at: nat)
    requires Kept(s) && !s.lastMsgRevealed && a.during != [] && FromServer(a.during)
    requires j < |s.transcript| && s.transcript[j].epoch == s.epoch
    ensures var after := Write(tls, s, data, true, a);
            && at in after.revealed && IsClient(after.transcript, at) && SameEpoch(after.transcript, at, j)
            && after.transcript[j] == s.transcript[j]
  {
    var here := s.(transcript := s.transcript + a.before);
    var ready := UpdateKeys(tls, here);
    var records := Records(ready.epoch, tls.split(data));
    var update := Packet(Client, true, false, here.epoch, tls.update);
    at := |here.transcript|;
    ReachesUpdate(here.transcript, update, records, a.during, |records + a.during|);
    Reassociate(ready.transcript, records, a.during);
    assert Write(tls, s, data, true, a).transcript == ready.transcript + (records + a.during);
  }

  /** A count that is too large by what the server sent reaches the update. */
  lemma ReachesUpdate(transcript: seq<Packet>, update: Packet, records: seq<Packet>, during: seq<Packet>, n: nat)
    requires update.sender == Client && FromServer(during) && during != [] && n == |records| + |during|
    requires forall k :: 0 <= k < |records| ==> records[k].sender == Client
    ensures |transcript| in LastBlocks(transcript + [update] + (records + during), Client, n)
  {
    var front := transcript + [update] + records;
    Reassociate(transcript + [update], records, during);
    LastWithServer(front, during, n);
    assert forall k :: |transcript| < k < |front| ==> front[k] == records[k - |transcript| - 1];
    assert front[|transcript|] == update;
    LastReaches(front, |transcript|, n);
  }

  lemma Reassociate(a: seq<Packet>, b: seq<Packet>, c: seq<Packet>)
    ensures a + (b + c) == (a + b) + c
  {
  }
}
