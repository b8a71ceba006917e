/**
 A request on its way from `createRequest` through `writeRedactedWithKeyUpdate` to the
 attestor that reads it.
 */
module RequestPrivacy {
  import opened ByteData
  import opened Redaction
  import opened ResponseRedactions
  import opened ResponseText
  import opened HttpRequest
  import HttpRequestParser
  import HttpResponse
  import KeyUpdate
  import KeyMarks

  predicate Empty(r: Redaction) {
    r.toIndex <= r.fromIndex
  }

  /** Hidden parts do not overlap; empty ones do not count. */
  predicate HiddenApart(hidden: seq<Redaction>) {
    forall i, k :: 0 <= i < k < |hidden| ==> Empty(hidden[i]) || Empty(hidden[k]) || Apart(hidden[i], hidden[k])
  }

  /** Hidden parts of body and target, inside them and not overlapping. */
  predicate HiddenInOrder(p: Parts, body: seq<Redaction>, url: seq<Redaction>) {
    && Within(body, 0, |p.body|) && Within(url, TargetAt(p), |p.target|)
    && HiddenApart(body) && HiddenApart(url)
  }

  // ----- the list is a list of sections -----

  lemma {:induction false} MovedFrom(hidden: seq<Redaction>, offset: nat, r: Redaction) returns (k: nat)
    requires r in Moved(hidden, offset)
    ensures k < |hidden| && !Empty(hidden[k]) && r == Shift(hidden[k], offset)
  {
    var n := |hidden| - 1;
    if r in Moved(hidden[..n], offset) {
      k := MovedFrom(hidden[..n], offset, r);
    } else {
      k := n;
    }
  }

  lemma {:induction false} MovedApart(hidden: seq<Redaction>, offset: nat)
    requires HiddenApart(hidden)
    ensures PairwiseApart(Moved(hidden, offset))
  {
    if hidden != [] {
      var n := |hidden| - 1;
      MovedApart(hidden[..n], offset);
      var prior := Moved(hidden[..n], offset);
      if !Empty(hidden[n]) {
        forall i | 0 <= i < |prior|
          ensures Apart(prior[i], Shift(hidden[n], offset))
        {
          var k := MovedFrom(hidden[..n], offset, prior[i]);
        }
      }
    }
  }

  lemma JoinedApart(rs: seq<Redaction>, qs: seq<Redaction>, m: nat)
    requires PairwiseApart(rs) && PairwiseApart(qs)
    requires (forall r <- rs :: r.toIndex <= m) && forall q <- qs :: m <= q.fromIndex
    ensures PairwiseApart(rs + qs) && PairwiseApart(qs + rs)
  {
    var a, b := rs + qs, qs + rs;
    forall i, k | 0 <= i < k < |a|
      ensures Apart(a[i], a[k]) && Apart(b[i], b[k])
    {
      assert a[i] in rs || a[i] in qs;
      assert a[k] in rs || a[k] in qs;
      assert b[i] in rs || b[i] in qs;
      assert b[k] in rs || b[k] in qs;
    }
  }

  /** The target lies in the head, in front of the secret headers if there are any. */
  lemma HeadHoldsTarget(p: Parts)
    ensures TargetAt(p) + |p.target| <= SecretAt(p) <= SecretAt(p) + |Secret(p)| <= |Head(p)|
  {
    var first, sec := FirstLines(p) + BuildHeaders(p.pubHeaders), BuildHeaders(p.secHeaders);
    JoinPrints(first + sec, CRLF);
    PrintConcat(first, sec);
    FrontParts(p, p.target);
    assert FirstLines(p)[0 := RequestLine(p.verb, p.target)] == FirstLines(p);
    if p.secHeaders != [] {
      PrintJoined(sec);
    }
  }

  /** The place of the secret headers, or the very beginning when there are none. */
  predicate InPlace(p: Parts, at: nat) {
    at == if p.secHeaders == [] then 0 else SecretAt(p)
  }

  lemma UnsortedParts(p: Parts, at: nat, body: seq<Redaction>, url: seq<Redaction>, r: Redaction)
    requires HiddenInOrder(p, body, url) && InPlace(p, at) && r in Unsorted(p, at, body, url)
    ensures r.fromIndex <= r.toIndex <= |Data(p)|
    ensures Empty(r) ==> r.toIndex == 0
  {
    HeadHoldsTarget(p);
    if r in Moved(body, |Head(p)|) {
      var k := MovedFrom(body, |Head(p)|, r);
    } else if r in Moved(url, 0) {
      var k := MovedFrom(url, 0, r);
    } else if p.secHeaders != [] {
      HttpRequestParser.SecretPlain(p);
    }
  }

  lemma UnsortedApart(p: Parts, at: nat, body: seq<Redaction>, url: seq<Redaction>)
    requires HiddenInOrder(p, body, url) && InPlace(p, at)
    ensures PairwiseApart(Unsorted(p, at, body, url))
  {
    var token := [Redaction(at, at + |Secret(p)|, false)];
    var inBody, inUrl := Moved(body, |Head(p)|), Moved(url, 0);
    HeadHoldsTarget(p);
    MovedApart(body, |Head(p)|);
    MovedApart(url, 0);
    forall r <- inBody
      ensures |Head(p)| <= r.fromIndex
    {
      var k := MovedFrom(body, |Head(p)|, r);
    }
    forall r <- inUrl
      ensures r.toIndex <= TargetAt(p) + |p.target|
    {
      var k := MovedFrom(url, 0, r);
    }
    TokenBody(p, at, token[0], inBody);
    if p.secHeaders == [] {
      TokenFirst(token, inBody, inUrl, |Head(p)|);
    } else {
      JoinedApart(inUrl, token + inBody, SecretAt(p));
    }
  }

  lemma TokenBody(p: Parts, at: nat, token: Redaction, inBody: seq<Redaction>)
    requires InPlace(p, at) && token == Redaction(at, at + |Secret(p)|, false)
    requires PairwiseApart(inBody) && forall r <- inBody :: |Head(p)| <= r.fromIndex
    ensures PairwiseApart([token] + inBody) && token.toIndex <= |Head(p)|
  {
    HeadHoldsTarget(p);
    JoinedApart([token], inBody, |Head(p)|);
  }

  lemma TokenFirst(token: seq<Redaction>, inBody: seq<Redaction>, inUrl: seq<Redaction>, m: nat)
    requires token == [Redaction(0, 0, false)] && PairwiseApart(inBody) && PairwiseApart(inUrl)
    requires (forall r <- inUrl :: r.toIndex <= m) && forall r <- inBody :: m <= r.fromIndex
    ensures PairwiseApart(token + inBody + inUrl)
  {
    JoinedApart(inUrl, inBody, m);
    JoinedApart(token, inBody + inUrl, 0);
    assert token + inBody + inUrl == token + (inBody + inUrl);
  }

  lemma SortedSections(data: Bytes, rs: seq<Redaction>)
    requires SortedByEnd(rs) && PairwiseApart(rs)
    requires forall k :: 0 <= k < |rs| ==> rs[k].fromIndex <= rs[k].toIndex <= |data|
    requires forall k :: 0 <= k < |rs| && Empty(rs[k]) ==> rs[k].toIndex == 0
    ensures KeyUpdate.Sections(data, rs)
  {
    forall i, k | 0 <= i < k < |rs|
      ensures rs[i].toIndex <= rs[k].fromIndex
    {
      assert Apart(rs[i], rs[k]);
    }
  }

  lemma {:induction false} EmptyAtFront(rs: seq<Redaction>, n: nat)
    requires n <= |rs| && forall k :: 0 <= k < |rs| && Empty(rs[k]) ==> rs[k].toIndex == 0
    ensures KeyUpdate.LastEmpty(rs, n) == 0
    decreases n
  {
    if n > 0 {
      EmptyAtFront(rs, n - 1);
    }
  }

  /**
   What `createRequest` returns is what the key-update writer expects: sections in order,
   the only empty one, if any, in front of everything.
   */
  lemma ReturnsSections(p: Parts, at: nat, body: seq<Redaction>, url: seq<Redaction>)
    requires HiddenInOrder(p, body, url) && InPlace(p, at)
    ensures var sections := Returned(p, at, body, url);
            KeyUpdate.Sections(Data(p), sections) && KeyUpdate.LastEmpty(sections, |sections|) == 0
  {
    var all, sections := Unsorted(p, at, body, url), Returned(p, at, body, url);
    SortSorts(all);
    UnsortedApart(p, at, body, url);
    assert forall i, k :: 0 <= i < k < |all| ==> Apart(all[i], all[k]);
    SortPairwise(all, Apart);
    forall k | 0 <= k < |sections|
      ensures sections[k].fromIndex <= sections[k].toIndex <= |Data(p)|
      ensures Empty(sections[k]) ==> sections[k].toIndex == 0
    {
      assert sections[k] in multiset(sections);
      UnsortedParts(p, at, body, url, sections[k]);
    }
    SortedSections(Data(p), sections);
    EmptyAtFront(sections, |sections|);
  }

  // ----- the whole way -----

  /**
   For every run, whatever the server sends and when, the request goes out whole. No key of
   the client encrypts both what is revealed and data that is not, if the run is not
   disturbed, and it is shown as the request with stars over exactly its redactions if and
   only if each record ends as meant. Both hold when nothing arrives during a write.
   */
  lemma RequestRevealed(tls: KeyUpdate.Tls, s: KeyUpdate.Session, p: Parts, at: nat, body: seq<Redaction>, url: seq<Redaction>,
                        arriving: nat -> KeyUpdate.Arrivals)
    requires KeyUpdate.Fresh(s) && KeyMarks.Served(arriving)
    requires HiddenInOrder(p, body, url) && InPlace(p, at)
    ensures var parts := KeyUpdate.Parts(Data(p), Returned(p, at, body, url));
            var end := KeyUpdate.RevealHandshake(KeyUpdate.WriteAll(tls, s, parts, arriving));
            && KeyUpdate.Data(end) == Data(p)
            && (KeyUpdate.Separated(end) && KeyMarks.MarkedAsMeant(s, end) <==> KeyMarks.Undisturbed(tls, s, parts, arriving))
            && (KeyUpdate.Sent(end) == Starred(Data(p), Returned(p, at, body, url))
                <==> KeyMarks.AllAsMeant(tls, s, parts, arriving))
            && (KeyMarks.Undisturbed(tls, s, parts, arriving) ==> KeyMarks.AllAsMeant(tls, s, parts, arriving))
            && (KeyUpdate.Calm(arriving) ==> KeyMarks.Undisturbed(tls, s, parts, arriving))
  {
    var sections := Returned(p, at, body, url);
    var parts := KeyUpdate.Parts(Data(p), sections);
    ReturnsSections(p, at, body, url);
    KeyMarks.RunSeparatesExactlyWhen(tls, s, parts, arriving);
    KeyMarks.RunShowsExactlyWhen(tls, s, Data(p), sections, arriving);
    if KeyMarks.Undisturbed(tls, s, parts, arriving) {
      KeyMarks.UndisturbedShows(tls, s, parts, arriving);
    }
    if KeyUpdate.Calm(arriving) {
      KeyMarks.PartsEmptyFirst(Data(p), sections);
      KeyMarks.CalmUndisturbed(tls, s, parts, arriving);
    }
  }

  /**
   From the parts of a request to what the attestor reads: written with key updates and
   redacted, the request comes out with its verb, host and connection, and with target and
   body as they are but for stars over their hidden parts; the secret headers are stars.
   The records need only end as meant, as they do when nothing arrives during a write.
   */
  lemma AttestorReads(tls: KeyUpdate.Tls, s: KeyUpdate.Session, p: Parts, body: seq<Redaction>, url: seq<Redaction>,
                      arriving: nat -> KeyUpdate.Arrivals, messages: seq<Bytes>)
    requires KeyUpdate.Fresh(s) && KeyMarks.Served(arriving)
    requires KeyMarks.AllAsMeant(tls, s, KeyUpdate.Parts(Data(p), Returned(p, SecretAt(p), body, url)), arriving)
    requires HttpRequestParser.ProperParts(p) && p.secHeaders != [] && HiddenInOrder(p, body, url)
    requires forall i :: 0 <= i < SecretAt(p) ==> !HttpResponse.OccursAt(Data(p), Secret(p), i)
    requires messages != [] && messages[0] != []
    requires var sections := Returned(p, SecretAt(p), body, url);
             Concat(messages) == KeyUpdate.Sent(KeyUpdate.RevealHandshake(
               KeyUpdate.WriteAll(tls, s, KeyUpdate.Parts(Data(p), sections), arriving)))
    ensures FirstAt(Data(p), Secret(p), SecretAt(p))
    ensures FullyRedacted(SecretSent(p, Returned(p, SecretAt(p), body, url)))
    ensures var r := HttpRequestParser.ParseRequest(messages);
            && r.Some? && r.value.verb == HttpResponse.Lower(p.verb) && r.value.url == SentTarget(p, url)
            && HttpRequestParser.HOST in r.value.headers
            && r.value.headers[HttpRequestParser.HOST] == HttpRequestParser.One(p.host)
            && HttpRequestParser.CONNECTION in r.value.headers
            && r.value.headers[HttpRequestParser.CONNECTION] == HttpRequestParser.One(HttpRequestParser.CLOSE_VALUE)
            && r.value.body == if p.body == [] then None else Some(Starred(p.body, body))
  {
    FoundExactlyWhen(p);
    SecretHiddenExactlyWhen(p, SecretAt(p), body, url);
    RequestRevealed(tls, s, p, SecretAt(p), body, url, arriving);
    ReturnedCovers(p, SecretAt(p), body, url);
    HttpRequestParser.PrintRedactParse(p, body, url, Returned(p, SecretAt(p), body, url), messages);
  }
}
