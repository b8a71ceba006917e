/**
 The request of an honest client, built from templates with secrets, passes the checks that
 the attestor makes on the request of a receipt.
 */
module HonestRequest {
  import opened ByteData
  import opened Redaction
  import opened HttpRequest
  import opened HttpRequestParser
  import opened RequestPrivacy
  import opened HttpRequestLines
  import HttpHeaders
  import HttpResponse
  import KeyUpdate
  import KeyMarks
  import Match
  import Template

  /** The texts that a side makes of a template. */
  function PiecesOf(v: Template.Values, template: Bytes): seq<Template.Piece>
    requires Template.AllFound(v, Template.Segments(template, 0))
  {
    Template.Pieces(v, Template.Segments(template, 0))
  }

  /** The hidden parts of the target, moved to where it stands in the request. */
  function HiddenUrl(p: Parts, pieces: seq<Template.Piece>): seq<Redaction> {
    Shifted(Template.Hidden(pieces), TargetAt(p))
  }

  /** The client's target and body come from templates, and all secrets in them stand out. */
  predicate FromTemplates(p: Parts, client: Template.Values, target: Bytes, body: Bytes) {
    && Template.AllFound(client, Template.Segments(target, 0)) && Template.AllFound(client, Template.Segments(body, 0))
    && p.target == Template.Text(PiecesOf(client, target)) && p.body == Template.Text(PiecesOf(client, body))
    && Template.SecretsStandOut(PiecesOf(client, target)) && Template.SecretsStandOut(PiecesOf(client, body))
  }

  /** The request part of `assertValidProviderReceipt`, given what it expects. */
  ghost predicate RequestAccepted(r: Request, verb: Bytes, target: Bytes, host: Bytes, body: Bytes) {
    && r.verb == HttpResponse.Lower(verb)
    && Match.Related(target, r.url)
    && HOST in r.headers && r.headers[HOST] == One(host)
    && CONNECTION in r.headers && r.headers[CONNECTION] == One(CLOSE_VALUE)
    && (body != [] ==> r.body.Some? && Match.Related(body, r.body.value))
  }

  /** The first line has this verb, in any case of its letters, and a target that matches. */
  ghost predicate FirstAccepted(line: Bytes, verb: Bytes, target: Bytes) {
    exists w: nat, j: nat, k: nat, e: nat, lower ::
      Matches(line, w, j, k, e) && HttpHeaders.LowerOf(line[w..j], lower) && HttpHeaders.LowerOf(verb, lower)
      && Match.Related(target, line[j + 1..k])
  }

  /** "host", "connection" and "close" */
  const HOST_TEXT: Bytes := [104, 111, 115, 116]
  const CONNECTION_TEXT: Bytes := [99, 111, 110, 110, 101, 99, 116, 105, 111, 110]
  const CLOSE_TEXT: Bytes := [99, 108, 111, 115, 101]

  lemma FirstExactly(line: Bytes, r: Request, verb: Bytes, target: Bytes)
    requires SaysFirst(line, r)
    ensures FirstAccepted(line, verb, target) <==> r.verb == HttpResponse.Lower(verb) && Match.Related(target, r.url)
  {
    var w: nat, j: nat, k: nat, e: nat :|
      && Matches(line, w, j, k, e) && HttpHeaders.LowerOf(line[w..j], r.verb)
      && r.url == line[j + 1..k] && r.protocol == line[k + 1..e];
    if FirstAccepted(line, verb, target) {
      var x: nat, y: nat, z: nat, f: nat, lower :|
        Matches(line, x, y, z, f) && HttpHeaders.LowerOf(line[x..y], lower) && HttpHeaders.LowerOf(verb, lower)
        && Match.Related(target, line[y + 1..z]);
      MatchOnce(line, w, j, k, e, x, y, z, f);
      assert lower == r.verb && lower == HttpResponse.Lower(verb);
    }
    if r.verb == HttpResponse.Lower(verb) {
      assert HttpHeaders.LowerOf(verb, r.verb);
    }
  }

  /**
   A request passes the attestor's checks if and only if its first line has the verb and a
   matching target, exactly one line names a host, the right one, exactly one says what
   becomes of the connection, "close", and its body matches, if one is expected.
   */
  lemma AcceptedExactly(messages: seq<Bytes>, verb: Bytes, target: Bytes, host: Bytes, body: Bytes)
    returns (lines: seq<Bytes>, blank: bool, sent: Bytes)
    requires ParseRequest(messages).Some?
    ensures CutInto(Concat(messages), lines, blank, sent) && lines != []
    ensures RequestAccepted(ParseRequest(messages).value, verb, target, host, body) <==>
              && FirstAccepted(lines[0], verb, target)
              && ValuesSaid(lines[1..], HOST_TEXT, [host]) && ValuesSaid(lines[1..], CONNECTION_TEXT, [CLOSE_TEXT])
              && (body != [] ==> sent != [] && Match.Related(body, sent))
  {
    lines, blank, sent := RequestReadExactly(messages);
    var r := ParseRequest(messages).value;
    FirstExactly(lines[0], r, verb, target);
    OneSaid(r.headers, lines[1..], HOST_TEXT, host);
    OneSaid(r.headers, lines[1..], CONNECTION_TEXT, CLOSE_TEXT);
  }

  // ----- hidden parts of templates are in order -----

  lemma {:induction false} TemplatePartsFit(pieces: seq<Template.Piece>)
    ensures Within(Template.Hidden(pieces), 0, |Template.Text(pieces)|) && HiddenApart(Template.Hidden(pieces))
    decreases |pieces|
  {
    if pieces != [] {
      var n := |pieces| - 1;
      TemplatePartsFit(pieces[..n]);
      Template.HiddenInside(pieces[..n]);
    }
  }

  lemma ShiftedFit(hidden: seq<Redaction>, n: nat, size: nat)
    requires Within(hidden, 0, size) && HiddenApart(hidden)
    ensures Within(Shifted(hidden, n), n, size) && HiddenApart(Shifted(hidden, n))
  {
  }

  lemma ShiftedStars(text: Bytes, hidden: seq<Redaction>, n: nat)
    ensures StarredAt(text, Shifted(hidden, n), n) == Starred(text, hidden)
  {
    forall i | 0 <= i < |text|
      ensures StarredAt(text, Shifted(hidden, n), n)[i] == Starred(text, hidden)[i]
    {
      ShiftedCovered(hidden, n, n + i);
    }
  }

  // ----- what the attestor expects -----

  lemma {:induction false} NothingExpected(ts: seq<Template.Piece>, cs: seq<Template.Piece>)
    requires Template.Sides(ts, cs) && Template.Text(cs) == []
    requires forall k :: 0 <= k < |cs| && cs[k].hidden ==> cs[k].text != []
    ensures Template.Text(ts) == []
    decreases |cs|
  {
    if cs != [] {
      var n := |cs| - 1;
      NothingExpected(ts[..n], cs[..n]);
    }
  }

  /** A body that comes out empty is not looked at. */
  lemma EmptyBodyExpected(client: Template.Values, attestor: Template.Values, template: Bytes)
    requires Template.SameClaim(client, attestor) && Template.AllFound(client, Template.Segments(template, 0))
    requires Template.Text(PiecesOf(client, template)) == [] && Template.SecretsStandOut(PiecesOf(client, template))
    ensures Template.AllFound(attestor, Template.Segments(template, 0))
    ensures Template.Text(PiecesOf(attestor, template)) == []
  {
    Template.SidesOfClaim(client, attestor, template);
    NothingExpected(PiecesOf(attestor, template), PiecesOf(client, template));
  }

  lemma HiddenPartsFit(p: Parts, client: Template.Values, target: Bytes, body: Bytes)
    requires FromTemplates(p, client, target, body)
    ensures HiddenInOrder(p, Template.Hidden(PiecesOf(client, body)), HiddenUrl(p, PiecesOf(client, target)))
    ensures SentTarget(p, HiddenUrl(p, PiecesOf(client, target)))
            == Starred(p.target, Template.Hidden(PiecesOf(client, target)))
  {
    TemplatePartsFit(PiecesOf(client, body));
    TemplatePartsFit(PiecesOf(client, target));
    ShiftedFit(Template.Hidden(PiecesOf(client, target)), TargetAt(p), |p.target|);
    ShiftedStars(p.target, Template.Hidden(PiecesOf(client, target)), TargetAt(p));
  }

  /** What `createRequest` returns to be redacted. */
  function SectionsOf(p: Parts, client: Template.Values, target: Bytes, body: Bytes): seq<Redaction>
    requires FromTemplates(p, client, target, body)
  {
    Returned(p, SecretAt(p), Template.Hidden(PiecesOf(client, body)), HiddenUrl(p, PiecesOf(client, target)))
  }

  /**
   For every honest client: the request is made from templates for target and body and
   secret headers that occur nowhere before their place; it is redacted, written with key
   updates such that its records end as meant, and arrives in messages cut in any way. Then the secret headers are all stars,
   and the attestor, who knows the templates but none of the secrets, accepts verb, path,
   host, connection and body.
   */
  lemma HonestRequestAccepted(tls: KeyUpdate.Tls, s: KeyUpdate.Session, p: Parts,
                              client: Template.Values, attestor: Template.Values, target: Bytes, body: Bytes,
                              arriving: nat -> KeyUpdate.Arrivals, messages: seq<Bytes>)
    requires KeyUpdate.Fresh(s) && KeyMarks.Served(arriving)
    requires ProperParts(p) && p.secHeaders != [] && FromTemplates(p, client, target, body)
    requires KeyMarks.AllAsMeant(tls, s, KeyUpdate.Parts(Data(p), SectionsOf(p, client, target, body)), arriving)
    requires Template.SameClaim(client, attestor)
    requires forall i :: 0 <= i < SecretAt(p) ==> !HttpResponse.OccursAt(Data(p), Secret(p), i)
    requires messages != [] && messages[0] != []
    requires Concat(messages) == KeyUpdate.Sent(KeyUpdate.RevealHandshake(
               KeyUpdate.WriteAll(tls, s, KeyUpdate.Parts(Data(p), SectionsOf(p, client, target, body)), arriving)))
    ensures Template.AllFound(attestor, Template.Segments(target, 0))
    ensures Template.AllFound(attestor, Template.Segments(body, 0))
    ensures FullyRedacted(SecretSent(p, SectionsOf(p, client, target, body)))
    ensures var r := ParseRequest(messages);
            r.Some? && RequestAccepted(r.value, p.verb, Template.Text(PiecesOf(attestor, target)), p.host,
                                       Template.Text(PiecesOf(attestor, body)))
  {
    HiddenPartsFit(p, client, target, body);
    AttestorReads(tls, s, p, Template.Hidden(PiecesOf(client, body)), HiddenUrl(p, PiecesOf(client, target)),
                  arriving, messages);
    Template.TemplateRoundTrip(client, attestor, target);
    Template.TemplateRoundTrip(client, attestor, body);
    if p.body == [] {
      EmptyBodyExpected(client, attestor, body);
    }
  }
}
