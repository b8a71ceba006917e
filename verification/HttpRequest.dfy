/**
 The request of a claim: printed and redacted by `createRequest`, and read back from the
 redacted transcript by `getHttpRequestDataFromTranscript`.
 */
module HttpRequest {
  import opened ByteData
  import opened Redaction
  import HttpResponse
  import HttpParser
  import opened ResponseRedactions

  const SPACE: Byte := 32
  const COLON: Byte := 58

  // ----- printing -----

  datatype HeaderField = HeaderField(name: Bytes, value: Bytes)

  /** What the request is made of; the target is the path with the query. */
  datatype Parts = Parts(
    verb: Bytes, target: Bytes, host: Bytes, length: Bytes,
    pubHeaders: seq<HeaderField>, secHeaders: seq<HeaderField>, body: Bytes)

  /** `buildHeaders`. */
  function BuildHeaders(fields: seq<HeaderField>): (lines: seq<Bytes>)
    ensures |lines| == |fields|
    ensures forall k :: 0 <= k < |fields| ==> lines[k] == fields[k].name + [COLON, SPACE] + fields[k].value
  {
    seq(|fields|, k requires 0 <= k < |fields| => fields[k].name + [COLON, SPACE] + fields[k].value)
  }

  function RequestLine(verb: Bytes, target: Bytes): Bytes {
    verb + [SPACE] + target + [SPACE] + Ascii("HTTP/1.1")
  }

  /** The lines in front of the provider's own headers. */
  function FirstLines(p: Parts): seq<Bytes> {
    [RequestLine(p.verb, p.target),
     Ascii("Host: ") + p.host,
     Ascii("Content-Length: ") + p.length,
     Ascii("Connection: close"),
     Ascii("Accept-Encoding: identity")]
  }

  /** `join('\r\n')`. */
  function Join(lines: seq<Bytes>): Bytes {
    if lines == [] then []
    else if |lines| == 1 then lines[0]
    else lines[0] + CRLF + Join(lines[1..])
  }

  /** Each line with its end. */
  function Print(lines: seq<Bytes>): Bytes {
    if lines == [] then [] else lines[0] + CRLF + Print(lines[1..])
  }

  /** The head as `createRequest` joins it: the last of the joined strings is a line end. */
  function Head(p: Parts): Bytes {
    Join(FirstLines(p) + BuildHeaders(p.pubHeaders) + BuildHeaders(p.secHeaders) + [CRLF])
  }

  function Data(p: Parts): Bytes {
    Head(p) + p.body
  }

  /** The secret headers as one text. */
  function Secret(p: Parts): Bytes {
    Join(BuildHeaders(p.secHeaders))
  }

  /** Where the secret headers stand. */
  function SecretAt(p: Parts): nat {
    |Print(FirstLines(p) + BuildHeaders(p.pubHeaders))|
  }

  lemma {:induction false} JoinPrints(lines: seq<Bytes>, last: Bytes)
    ensures Join(lines + [last]) == Print(lines) + last
  {
    if lines != [] {
      assert (lines + [last])[1..] == lines[1..] + [last];
      JoinPrints(lines[1..], last);
    }
  }

  lemma {:induction false} PrintConcat(xs: seq<Bytes>, ys: seq<Bytes>)
    ensures Print(xs + ys) == Print(xs) + Print(ys)
  {
    if xs == [] {
      assert xs + ys == ys;
    } else {
      assert (xs + ys)[1..] == xs[1..] + ys;
      PrintConcat(xs[1..], ys);
    }
  }

  lemma {:induction false} PrintJoined(lines: seq<Bytes>)
    requires lines != []
    ensures Print(lines) == Join(lines) + CRLF
  {
    var n := |lines| - 1;
    assert lines == lines[..n] + [lines[n]];
    JoinPrints(lines[..n], lines[n]);
    PrintConcat(lines[..n], [lines[n]]);
    assert Print([lines[n]]) == lines[n] + CRLF;
  }

  /** The request as text: its lines, the secret ones as one, an empty line, the body. */
  lemma DataLines(p: Parts)
    requires p.secHeaders != []
    ensures Data(p) == Print(FirstLines(p) + BuildHeaders(p.pubHeaders) + [Secret(p)]) + CRLF + p.body
    ensures Data(p) == Print(FirstLines(p) + BuildHeaders(p.pubHeaders)) + Secret(p) + (CRLF + CRLF) + p.body
  {
    var first, sec := FirstLines(p) + BuildHeaders(p.pubHeaders), BuildHeaders(p.secHeaders);
    JoinPrints(first + sec, CRLF);
    PrintConcat(first, sec);
    PrintJoined(sec);
    PrintConcat(first, [Secret(p)]);
    assert Print([Secret(p)]) == Secret(p) + CRLF;
  }

  /** Header fields, each as its name, a colon and a space, its value and a line end. */
  function FieldsText(fields: seq<HeaderField>): Bytes {
    if fields == [] then []
    else fields[0].name + [58, 32] + fields[0].value + [13, 10] + FieldsText(fields[1..])
  }

  lemma {:induction false} FieldsPrinted(fields: seq<HeaderField>)
    ensures Print(BuildHeaders(fields)) == FieldsText(fields)
    decreases |fields|
  {
    if fields != [] {
      assert BuildHeaders(fields)[1..] == BuildHeaders(fields[1..]);
      FieldsPrinted(fields[1..]);
    }
  }

  /** The five lines that every request has. */
  function FixedText(p: Parts): Bytes {
    p.verb + [32] + p.target + [32] + Ascii("HTTP/1.1") + [13, 10]
    + Ascii("Host: ") + p.host + [13, 10]
    + Ascii("Content-Length: ") + p.length + [13, 10]
    + Ascii("Connection: close") + [13, 10]
    + Ascii("Accept-Encoding: identity") + [13, 10]
  }

  /** Five lines, printed. */
  lemma PrintFive(a: Bytes, b: Bytes, c: Bytes, d: Bytes, e: Bytes)
    ensures Print([a, b, c, d, e]) == a + CRLF + (b + CRLF + (c + CRLF + (d + CRLF + (e + CRLF))))
  {
    assert [a, b, c, d, e][1..] == [b, c, d, e] && [b, c, d, e][1..] == [c, d, e];
    assert [c, d, e][1..] == [d, e] && [d, e][1..] == [e] && [e][1..] == [];
    assert Print([e]) == e + CRLF + [] == e + CRLF;
    assert Print([d, e]) == d + CRLF + (e + CRLF);
    assert Print([c, d, e]) == c + CRLF + (d + CRLF + (e + CRLF));
  }

  lemma FiveJoin(a: Bytes, b: Bytes, c: Bytes, d: Bytes, e: Bytes, end: Bytes)
    ensures a + end + (b + end + (c + end + (d + end + (e + end))))
         == a + end + b + end + c + end + d + end + e + end
  {
  }

  lemma FiveParts(verb: Bytes, target: Bytes, version: Bytes, h: Bytes, host: Bytes, l: Bytes, length: Bytes, d: Bytes, e: Bytes,
                  space: Bytes, end: Bytes)
    ensures (verb + space + target + space + version) + end + (h + host) + end + (l + length) + end + d + end + e + end
         == verb + space + target + space + version + end + h + host + end + l + length + end + d + end + e + end
  {
  }

  /** The text of the request, byte for byte. */
  lemma RequestText(p: Parts)
    ensures Data(p) == FixedText(p) + FieldsText(p.pubHeaders) + FieldsText(p.secHeaders) + [13, 10] + p.body
  {
    var first, pub, sec := FirstLines(p), BuildHeaders(p.pubHeaders), BuildHeaders(p.secHeaders);
    JoinPrints(first + pub + sec, CRLF);
    PrintConcat(first + pub, sec);
    PrintConcat(first, pub);
    FieldsPrinted(p.pubHeaders);
    FieldsPrinted(p.secHeaders);
    FixedPrinted(p);
  }

  lemma FixedPrinted(p: Parts)
    ensures Print(FirstLines(p)) == FixedText(p)
  {
    var version, h, l := Ascii("HTTP/1.1"), Ascii("Host: "), Ascii("Content-Length: ");
    var d, e := Ascii("Connection: close"), Ascii("Accept-Encoding: identity");
    var a := RequestLine(p.verb, p.target);
    PrintFive(a, h + p.host, l + p.length, d, e);
    FiveJoin(a, h + p.host, l + p.length, d, e, CRLF);
    FiveParts(p.verb, p.target, version, h, p.host, l, p.length, d, e, [SPACE], CRLF);
  }

  // ----- redacting -----

  /** The needle is first found here. */
  ghost predicate FirstAt(haystack: Bytes, needle: Bytes, at: nat) {
    && HttpResponse.OccursAt(haystack, needle, at)
    && forall i :: HttpResponse.OccursAt(haystack, needle, i) ==> at <= i
  }

  /** The secret headers where they are first found, and the hidden parts. */
  function Hidden(p: Parts, at: nat, hiddenBody: seq<Redaction>, hiddenUrl: seq<Redaction>): seq<Redaction> {
    [Redaction(at, at + |Secret(p)|, false)] + Shifted(hiddenBody, |Head(p)|) + Shifted(hiddenUrl, 0)
  }

  /** The list that `createRequest` returns when it finds the secret headers at `at`. */
  function Returned(p: Parts, at: nat, hiddenBody: seq<Redaction>, hiddenUrl: seq<Redaction>): seq<Redaction> {
    SortByEnd(Unsorted(p, at, hiddenBody, hiddenUrl))
  }

  function Unsorted(p: Parts, at: nat, hiddenBody: seq<Redaction>, hiddenUrl: seq<Redaction>): seq<Redaction> {
    [Redaction(at, at + |Secret(p)|, false)] + Moved(hiddenBody, |Head(p)|) + Moved(hiddenUrl, 0)
  }

  /** Hidden parts, moved to where their text stands; empty ones are left out. */
  function Moved(hidden: seq<Redaction>, offset: nat): seq<Redaction> {
    if hidden == [] then []
    else
      var n := |hidden| - 1;
      Moved(hidden[..n], offset)
      + if hidden[n].toIndex > hidden[n].fromIndex then [Shift(hidden[n], offset)] else []
  }

  /** The redactions that `createRequest` returns with the data. */
  method Redactions(p: Parts, hiddenBody: seq<Redaction>, hiddenUrl: seq<Redaction>) returns (redactions: seq<Redaction>)
    ensures exists at: nat :: FirstAt(Data(p), Secret(p), at) && redactions == Returned(p, at, hiddenBody, hiddenUrl)
  {
    var index := HttpParser.FindIndex(Data(p), Secret(p));
    SecretOccurs(p);
    var token := [Redaction(index, index + |Secret(p)|, false)];
    var more := PushAll(token, hiddenBody, |Head(p)|);
    var all := PushAll(more, hiddenUrl, 0);
    redactions := SortByEnd(all);
    assert FirstAt(Data(p), Secret(p), index) && redactions == Returned(p, index, hiddenBody, hiddenUrl);
  }

  method PushAll(redactions: seq<Redaction>, hidden: seq<Redaction>, offset: nat) returns (all: seq<Redaction>)
    ensures all == redactions + Moved(hidden, offset)
  {
    all := redactions;
    for k := 0 to |hidden|
      invariant all == redactions + Moved(hidden[..k], offset)
    {
      assert hidden[..k + 1][..k] == hidden[..k];
      if hidden[k].toIndex > hidden[k].fromIndex {
        all := all + [Shift(hidden[k], offset)];
      }
    }
    assert hidden[..|hidden|] == hidden;
  }

  /** Secret headers occur in the request, at the latest where they stand; none occur at once. */
  lemma SecretOccurs(p: Parts)
    ensures exists i :: HttpResponse.OccursAt(Data(p), Secret(p), i)
  {
    if p.secHeaders == [] {
      HeadNotEmpty(p);
      assert HttpResponse.OccursAt(Data(p), Secret(p), 0);
    } else {
      StandsThere(p);
    }
  }

  lemma HeadNotEmpty(p: Parts)
    ensures Data(p) != []
  {
    JoinPrints(FirstLines(p) + BuildHeaders(p.pubHeaders) + BuildHeaders(p.secHeaders), CRLF);
  }

  lemma StandsThere(p: Parts)
    requires p.secHeaders != []
    ensures HttpResponse.OccursAt(Data(p), Secret(p), SecretAt(p))
  {
    DataLines(p);
    var front, rest := Print(FirstLines(p) + BuildHeaders(p.pubHeaders)), (CRLF + CRLF) + p.body;
    assert Data(p) == front + Secret(p) + rest;
    assert Data(p)[SecretAt(p)..SecretAt(p) + |Secret(p)|] == Secret(p);
  }

  function Shift(r: Redaction, n: nat): Redaction {
    Redaction(r.fromIndex + n, r.toIndex + n, false)
  }

  function Shifted(rs: seq<Redaction>, n: nat): (shifted: seq<Redaction>)
    ensures |shifted| == |rs| && forall k :: 0 <= k < |rs| ==> shifted[k] == Shift(rs[k], n)
  {
    seq(|rs|, k requires 0 <= k < |rs| => Shift(rs[k], n))
  }

  ghost predicate SameStars(rs: seq<Redaction>, qs: seq<Redaction>) {
    forall p :: Covered(rs, p) <==> Covered(qs, p)
  }

  lemma OneMoreCovers(rs: seq<Redaction>, r: Redaction, q: int)
    ensures Covered(rs + [r], q) <==> Covered(rs, q) || Covers(r, q)
  {
    CoveredConcat(rs, [r], q);
    if Covers(r, q) {
      assert Covers([r][0], q);
    }
  }

  lemma {:induction false} MovedCovers(hidden: seq<Redaction>, offset: nat, q: int)
    ensures Covered(Moved(hidden, offset), q) <==> Covered(Shifted(hidden, offset), q)
    decreases |hidden|
  {
    if hidden != [] {
      var n := |hidden| - 1;
      var moved := Shift(hidden[n], offset);
      MovedCovers(hidden[..n], offset, q);
      assert Shifted(hidden, offset) == Shifted(hidden[..n], offset) + [moved];
      OneMoreCovers(Shifted(hidden[..n], offset), moved, q);
      OneMoreCovers(Moved(hidden[..n], offset), moved, q);
      if hidden[n].toIndex <= hidden[n].fromIndex {
        assert Moved(hidden, offset) == Moved(hidden[..n], offset);
      }
    }
  }

  lemma UnsortedCovers(p: Parts, at: nat, body: seq<Redaction>, url: seq<Redaction>, q: int)
    ensures Covered(Unsorted(p, at, body, url), q) <==> Covered(Hidden(p, at, body, url), q)
  {
    var token := [Redaction(at, at + |Secret(p)|, false)];
    CoveredConcat(token + Moved(body, |Head(p)|), Moved(url, 0), q);
    CoveredConcat(token, Moved(body, |Head(p)|), q);
    CoveredConcat(token + Shifted(body, |Head(p)|), Shifted(url, 0), q);
    CoveredConcat(token, Shifted(body, |Head(p)|), q);
    MovedCovers(body, |Head(p)|, q);
    MovedCovers(url, 0, q);
  }

  /** The returned list covers what the secret headers and the hidden parts cover. */
  lemma ReturnedCovers(p: Parts, at: nat, body: seq<Redaction>, url: seq<Redaction>)
    ensures SameStars(Returned(p, at, body, url), Hidden(p, at, body, url))
  {
    SortSorts(Unsorted(p, at, body, url));
    forall q
      ensures Covered(Returned(p, at, body, url), q) <==> Covered(Hidden(p, at, body, url), q)
    {
      CoveredSameElements(Returned(p, at, body, url), Unsorted(p, at, body, url), q);
      UnsortedCovers(p, at, body, url, q);
    }
  }

  // ----- the redacted request -----

  /** A piece of a text with stars, where the slices count from the text's beginning. */
  function StarredAt(piece: Bytes, rs: seq<Redaction>, at: nat): (r: Bytes)
    ensures |r| == |piece|
    ensures forall i :: 0 <= i < |piece| ==> r[i] == if Covered(rs, at + i) then STAR else piece[i]
  {
    seq(|piece|, i requires 0 <= i < |piece| => if Covered(rs, at + i) then STAR else piece[i])
  }

  lemma StarredParts(a: Bytes, b: Bytes, rs: seq<Redaction>, at: nat)
    ensures StarredAt(a + b, rs, at) == StarredAt(a, rs, at) + StarredAt(b, rs, at + |a|)
  {
  }

  lemma StarredWhole(text: Bytes, rs: seq<Redaction>, qs: seq<Redaction>)
    requires SameStars(rs, qs)
    ensures Starred(text, rs) == StarredAt(text, qs, 0)
  {
  }

  lemma Untouched(piece: Bytes, rs: seq<Redaction>, at: nat)
    requires forall p :: at <= p < at + |piece| ==> !Covered(rs, p)
    ensures StarredAt(piece, rs, at) == piece
  {
  }

  /** The slices lie in the piece of so many bytes from `at` on. */
  predicate Within(rs: seq<Redaction>, at: nat, size: nat) {
    forall k :: 0 <= k < |rs| && rs[k].fromIndex < rs[k].toIndex ==> at <= rs[k].fromIndex && rs[k].toIndex <= at + size
  }

  lemma CoveredWithin(rs: seq<Redaction>, at: nat, size: nat, p: int)
    requires Within(rs, at, size) && Covered(rs, p)
    ensures at <= p < at + size
  {
  }

  lemma NotCoveredOutside(rs: seq<Redaction>, at: nat, size: nat, p: int)
    requires Within(rs, at, size) && !(at <= p < at + size)
    ensures !Covered(rs, p)
  {
  }

  lemma ShiftedCovered(rs: seq<Redaction>, n: nat, p: int)
    ensures Covered(Shifted(rs, n), p) <==> Covered(rs, p - n)
  {
    if Covered(Shifted(rs, n), p) {
      var k :| 0 <= k < |rs| && Covers(Shifted(rs, n)[k], p);
      assert Covers(rs[k], p - n);
    }
    if Covered(rs, p - n) {
      var k :| 0 <= k < |rs| && Covers(rs[k], p - n);
      assert Covers(Shifted(rs, n)[k], p);
    }
  }

  /** Which positions of the request are hidden. */
  lemma HiddenCovers(p: Parts, at: nat, body: seq<Redaction>, url: seq<Redaction>, q: int)
    ensures Covered(Hidden(p, at, body, url), q) <==>
            at <= q < at + |Secret(p)| || Covered(body, q - |Head(p)|) || Covered(url, q)
  {
    var token := [Redaction(at, at + |Secret(p)|, false)];
    CoveredConcat(token + Shifted(body, |Head(p)|), Shifted(url, 0), q);
    CoveredConcat(token, Shifted(body, |Head(p)|), q);
    ShiftedCovered(body, |Head(p)|, q);
    ShiftedCovered(url, 0, q);
    if at <= q < at + |Secret(p)| {
      assert Covers(token[0], q);
    }
  }

  /** The hidden parts of the target, from its first byte. */
  function TargetAt(p: Parts): nat {
    |p.verb| + 1
  }

  predicate HiddenFits(p: Parts, body: seq<Redaction>, url: seq<Redaction>) {
    && p.secHeaders != []
    && Within(body, 0, |p.body|) && Within(url, TargetAt(p), |p.target|)
  }

  /** The target as it is sent to the attestor. */
  function SentTarget(p: Parts, url: seq<Redaction>): Bytes {
    StarredAt(p.target, url, TargetAt(p))
  }

  /** The lines of the redacted request. */
  function SentLines(p: Parts, url: seq<Redaction>): seq<Bytes> {
    FirstLines(p)[0 := RequestLine(p.verb, SentTarget(p, url))]
    + BuildHeaders(p.pubHeaders) + [Fill(STAR, |Secret(p)|)]
  }

  /** What stands between the target and the secret headers. */
  function Middle(p: Parts): Bytes {
    [SPACE] + Ascii("HTTP/1.1") + CRLF + Print(FirstLines(p)[1..] + BuildHeaders(p.pubHeaders))
  }

  lemma FrontParts(p: Parts, target: Bytes)
    ensures Print(FirstLines(p)[0 := RequestLine(p.verb, target)] + BuildHeaders(p.pubHeaders))
         == (p.verb + [SPACE]) + target + Middle(p)
  {
    var lines := FirstLines(p)[0 := RequestLine(p.verb, target)] + BuildHeaders(p.pubHeaders);
    assert lines[0] == RequestLine(p.verb, target);
    assert lines[1..] == FirstLines(p)[1..] + BuildHeaders(p.pubHeaders);
  }

  /** The request in pieces: verb, target, middle, secret headers, the empty line, body. */
  lemma DataParts(p: Parts)
    requires p.secHeaders != []
    ensures Data(p) == (p.verb + [SPACE]) + p.target + Middle(p) + Secret(p) + (CRLF + CRLF) + p.body
    ensures SecretAt(p) == TargetAt(p) + |p.target| + |Middle(p)|
    ensures |Head(p)| == SecretAt(p) + |Secret(p)| + 4
  {
    DataLines(p);
    FrontParts(p, p.target);
    assert FirstLines(p)[0 := RequestLine(p.verb, p.target)] == FirstLines(p);
  }

  lemma StarredPieces(p: Parts, rs: seq<Redaction>)
    requires p.secHeaders != []
    ensures var t := TargetAt(p);
            StarredAt(Data(p), rs, 0)
            == StarredAt(p.verb + [SPACE], rs, 0) + StarredAt(p.target, rs, t) + StarredAt(Middle(p), rs, t + |p.target|)
               + StarredAt(Secret(p), rs, SecretAt(p)) + StarredAt(CRLF + CRLF, rs, SecretAt(p) + |Secret(p)|)
               + StarredAt(p.body, rs, |Head(p)|)
  {
    DataParts(p);
    var a, b, c := p.verb + [SPACE], p.target, Middle(p);
    StarredParts(a + b + c + Secret(p) + (CRLF + CRLF), p.body, rs, 0);
    StarredParts(a + b + c + Secret(p), CRLF + CRLF, rs, 0);
    StarredParts(a + b + c, Secret(p), rs, 0);
    StarredParts(a + b, c, rs, 0);
    StarredParts(a, b, rs, 0);
  }

  lemma SameCover(piece: Bytes, rs: seq<Redaction>, qs: seq<Redaction>, at: nat, offset: int)
    requires at - offset >= 0
    requires forall q :: at <= q < at + |piece| ==> (Covered(rs, q) <==> Covered(qs, q - offset))
    ensures StarredAt(piece, rs, at) == StarredAt(piece, qs, at - offset)
  {
    forall i | 0 <= i < |piece|
      ensures StarredAt(piece, rs, at)[i] == StarredAt(piece, qs, at - offset)[i]
    {
      assert Covered(rs, at + i) <==> Covered(qs, at + i - offset);
      assert at + i - offset == (at - offset) + i;
    }
  }

  /** Redaction of the request, when the secret headers are found where they stand. */
  lemma RedactedPieces(p: Parts, body: seq<Redaction>, url: seq<Redaction>, rs: seq<Redaction>)
    requires HiddenFits(p, body, url) && rs == Hidden(p, SecretAt(p), body, url)
    ensures var t := TargetAt(p);
            && StarredAt(p.verb + [SPACE], rs, 0) == p.verb + [SPACE]
            && StarredAt(p.target, rs, t) == SentTarget(p, url)
            && StarredAt(Middle(p), rs, t + |p.target|) == Middle(p)
            && StarredAt(Secret(p), rs, SecretAt(p)) == Fill(STAR, |Secret(p)|)
            && StarredAt(CRLF + CRLF, rs, SecretAt(p) + |Secret(p)|) == CRLF + CRLF
            && StarredAt(p.body, rs, |Head(p)|) == Starred(p.body, body)
  {
    DataParts(p);
    forall q: int
      ensures Covered(rs, q) <==>
              || SecretAt(p) <= q < SecretAt(p) + |Secret(p)|
              || (|Head(p)| <= q && Covered(body, q - |Head(p)|))
              || (TargetAt(p) <= q < TargetAt(p) + |p.target| && Covered(url, q))
    {
      HiddenCovers(p, SecretAt(p), body, url, q);
      if Covered(body, q - |Head(p)|) {
        CoveredWithin(body, 0, |p.body|, q - |Head(p)|);
      }
      if Covered(url, q) {
        CoveredWithin(url, TargetAt(p), |p.target|, q);
      }
    }
    Untouched(p.verb + [SPACE], rs, 0);
    SameCover(p.target, rs, url, TargetAt(p), 0);
    Untouched(Middle(p), rs, TargetAt(p) + |p.target|);
    Untouched(CRLF + CRLF, rs, SecretAt(p) + |Secret(p)|);
    SameCover(p.body, rs, body, |Head(p)|, |Head(p)|);
    assert StarredAt(p.body, body, 0) == Starred(p.body, body);
  }

  /**
   When the secret headers are found where they stand, the redacted request is again a
   request, line for line, with stars for the secrets and nothing else changed.
   */
  lemma RedactedRequest(p: Parts, body: seq<Redaction>, url: seq<Redaction>, redactions: seq<Redaction>)
    requires HiddenFits(p, body, url)
    requires SameStars(redactions, Hidden(p, SecretAt(p), body, url))
    ensures Starred(Data(p), redactions) == Print(SentLines(p, url)) + CRLF + Starred(p.body, body)
  {
    var rs := Hidden(p, SecretAt(p), body, url);
    StarredWhole(Data(p), redactions, rs);
    StarredPieces(p, rs);
    RedactedPieces(p, body, url, rs);
    var front := FirstLines(p)[0 := RequestLine(p.verb, SentTarget(p, url))] + BuildHeaders(p.pubHeaders);
    FrontParts(p, SentTarget(p, url));
    PrintConcat(front, [Fill(STAR, |Secret(p)|)]);
    assert Print([Fill(STAR, |Secret(p)|)]) == Fill(STAR, |Secret(p)|) + CRLF;
    assert SentLines(p, url) == front + [Fill(STAR, |Secret(p)|)];
  }

  // ----- what becomes of the secret headers -----

  /** The bytes of the secret headers in the redacted request. */
  function SecretSent(p: Parts, redactions: seq<Redaction>): (sent: Bytes)
    requires p.secHeaders != []
    ensures |sent| == |Secret(p)|
  {
    DataParts(p);
    Starred(Data(p), redactions)[SecretAt(p)..SecretAt(p) + |Secret(p)|]
  }

  lemma SecretCovered(p: Parts, at: nat, body: seq<Redaction>, url: seq<Redaction>, q: nat)
    requires HiddenFits(p, body, url) && SecretAt(p) <= q < SecretAt(p) + |Secret(p)|
    ensures Covered(Returned(p, at, body, url), q) <==> at <= q < at + |Secret(p)|
  {
    ReturnedCovers(p, at, body, url);
    HiddenCovers(p, at, body, url, q);
    DataParts(p);
    NotCoveredOutside(body, 0, |p.body|, q - |Head(p)|);
    NotCoveredOutside(url, TargetAt(p), |p.target|, q);
  }

  lemma SecretByte(p: Parts, at: nat, body: seq<Redaction>, url: seq<Redaction>, i: nat)
    requires HiddenFits(p, body, url) && i < |Secret(p)|
    ensures SecretSent(p, Returned(p, at, body, url))[i] ==
            if at <= SecretAt(p) + i < at + |Secret(p)| then STAR else Secret(p)[i]
  {
    StandsThere(p);
    DataParts(p);
    var from, q := SecretAt(p), SecretAt(p) + i;
    SecretCovered(p, at, body, url, q);
    assert Data(p)[from..from + |Secret(p)|][i] == Data(p)[q];
    var starred := Starred(Data(p), Returned(p, at, body, url));
    assert starred[from..from + |Secret(p)|][i] == starred[q];
  }

  /**
   The list that `createRequest` returns hides the secret headers if and only if they
   occur nowhere earlier in the request, or all of their bytes that the earlier
   occurrence does not reach are stars themselves. The others are sent in the clear.
   */
  lemma SecretHiddenExactlyWhen(p: Parts, at: nat, body: seq<Redaction>, url: seq<Redaction>)
    requires HiddenFits(p, body, url) && FirstAt(Data(p), Secret(p), at)
    ensures var sent := SecretSent(p, Returned(p, at, body, url));
            && |sent| == |Secret(p)| && at <= SecretAt(p)
            && (FullyRedacted(sent) <==>
                  || at == SecretAt(p)
                  || forall i :: 0 <= i < |Secret(p)| && at + |Secret(p)| <= SecretAt(p) + i ==> Secret(p)[i] == STAR)
            && (forall i :: 0 <= i < |sent| ==>
                  sent[i] == if SecretAt(p) + i < at + |Secret(p)| then STAR else Secret(p)[i])
  {
    StandsThere(p);
    DataParts(p);
    forall i | 0 <= i < |Secret(p)|
      ensures SecretSent(p, Returned(p, at, body, url))[i] ==
              if at <= SecretAt(p) + i < at + |Secret(p)| then STAR else Secret(p)[i]
    {
      SecretByte(p, at, body, url, i);
    }
  }

  /** The secret headers are found where they stand exactly when they occur nowhere before. */
  lemma FoundExactlyWhen(p: Parts)
    requires p.secHeaders != []
    ensures FirstAt(Data(p), Secret(p), SecretAt(p)) <==>
            forall i :: 0 <= i < SecretAt(p) ==> !HttpResponse.OccursAt(Data(p), Secret(p), i)
  {
    StandsThere(p);
  }

  /** The header "a: b", public and secret: the secret one is sent as it is. */
  lemma RepeatedHeaderSent(p: Parts, at: nat, body: seq<Redaction>, url: seq<Redaction>)
    requires p.pubHeaders == p.secHeaders == [HeaderField([97], [98])]
    requires HiddenFits(p, body, url) && FirstAt(Data(p), Secret(p), at)
    ensures SecretSent(p, Returned(p, at, body, url)) == Secret(p) == [97, COLON, SPACE, 98]
  {
    var line := [97, COLON, SPACE, 98];
    assert BuildHeaders(p.secHeaders)[0] == [97] + [COLON, SPACE] + [98] == line;
    assert BuildHeaders(p.secHeaders) == [line];
    RepeatedOccurs(p, line);
    SecretHiddenExactlyWhen(p, at, body, url);
  }

  lemma RepeatedOccurs(p: Parts, line: Bytes)
    requires p.secHeaders != [] && BuildHeaders(p.pubHeaders) == [line] && Secret(p) == line
    ensures HttpResponse.OccursAt(Data(p), Secret(p), |Print(FirstLines(p))|)
    ensures |Print(FirstLines(p))| + |line| < SecretAt(p)
  {
    PrintConcat(FirstLines(p), [line]);
    assert Print([line]) == line + CRLF;
    DataLines(p);
    LineInside(Print(FirstLines(p)), line, Secret(p), (CRLF + CRLF), p.body, Data(p));
  }

  lemma LineInside(front: Bytes, line: Bytes, secret: Bytes, end: Bytes, body: Bytes, data: Bytes)
    requires data == front + (line + CRLF) + secret + end + body
    ensures HttpResponse.OccursAt(data, line, |front|)
  {
    assert data[|front|..|front| + |line|] == line;
  }
}
