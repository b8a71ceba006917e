/**
 `getHttpRequestDataFromTranscript`: a request read from the client's messages, and the
 round trip with the request that was printed and redacted.
 */
module HttpRequestParser {
  import opened ByteData
  import opened Redaction
  import opened HttpRequest
  import HttpResponse
  import Match
  import Template

  // ----- one line -----

  predicate IsWord(b: Byte) {
    48 <= b <= 57 || 65 <= b <= 90 || b == 95 || 97 <= b <= 122
  }

  predicate IsBreak(b: Byte) {
    b == CR || b == LF
  }

  /** ASCII white space, which `trim` removes. */
  predicate IsSpace(b: Byte) {
    9 <= b <= 13 || b == SPACE
  }

  /** The end of the run of word characters at `i`. */
  function WordEnd(line: Bytes, i: nat): (j: nat)
    requires i <= |line|
    ensures i <= j <= |line| && (forall k :: i <= k < j ==> IsWord(line[k])) && (j < |line| ==> !IsWord(line[j]))
    decreases |line| - i
  {
    if i < |line| && IsWord(line[i]) then WordEnd(line, i + 1) else i
  }

  /** The first line break from `i` on, or the end: `.` matches none. */
  function BreakAt(line: Bytes, i: nat): (j: nat)
    requires i <= |line|
    ensures i <= j <= |line| && (forall k :: i <= k < j ==> !IsBreak(line[k])) && (j < |line| ==> IsBreak(line[j]))
    decreases |line| - i
  {
    if i < |line| && !IsBreak(line[i]) then BreakAt(line, i + 1) else i
  }

  /** The last space in a stretch, or -1. */
  function LastSpace(line: Bytes, from: nat, until: nat): (k: int)
    requires from <= until <= |line|
    ensures k == -1 || (from <= k < until && line[k] == SPACE)
    ensures forall i :: from <= i < until && line[i] == SPACE ==> i <= k
    decreases until - from
  {
    if from == until then -1
    else if line[until - 1] == SPACE then until - 1
    else LastSpace(line, from, until - 1)
  }

  /** The groups of `(\w+) (.*) (.*)` at its first match from `i` on. */
  function FirstLine(line: Bytes, i: nat): Option<(Bytes, Bytes, Bytes)>
    requires i <= |line|
    decreases |line| - i
  {
    if i == |line| then None
    else if !IsWord(line[i]) then FirstLine(line, i + 1)
    else
      var j := WordEnd(line, i);
      if j < |line| && line[j] == SPACE && LastSpace(line, j + 1, BreakAt(line, j + 1)) >= 0 then
        var k := LastSpace(line, j + 1, BreakAt(line, j + 1));
        Some((line[i..j], line[j + 1..k], line[k + 1..BreakAt(line, j + 1)]))
      else FirstLine(line, j)
  }

  function TrimStart(text: Bytes): Bytes {
    if text != [] && IsSpace(text[0]) then TrimStart(text[1..]) else text
  }

  function TrimEnd(text: Bytes): Bytes {
    if text != [] && IsSpace(text[|text| - 1]) then TrimEnd(text[..|text| - 1]) else text
  }

  function Trim(text: Bytes): Bytes {
    TrimEnd(TrimStart(text))
  }

  /** `indexOf(':')`. */
  function ColonAt(line: Bytes, i: nat): (k: int)
    requires i <= |line|
    ensures k == -1 || (i <= k < |line| && line[k] == COLON)
    ensures forall j :: i <= j < |line| && line[j] == COLON ==> 0 <= k <= j
    decreases |line| - i
  {
    if i == |line| then -1 else if line[i] == COLON then i else ColonAt(line, i + 1)
  }

  /** A line without a colon is a name but for its last byte, which is dropped. */
  function KeyEnd(line: Bytes): int {
    if ColonAt(line, 0) == -1 then |line| - 1 else ColonAt(line, 0)
  }

  function Key(line: Bytes): Bytes
    requires line != []
  {
    Trim(HttpResponse.Lower(line[..KeyEnd(line)]))
  }

  function HeaderValue(line: Bytes): Bytes
    requires line != []
  {
    Trim(line[KeyEnd(line) + 1..])
  }

  // ----- the request -----

  datatype Value = One(text: Bytes) | Several(texts: seq<Bytes>)

  datatype Request = Request(verb: Bytes, url: Bytes, protocol: Bytes, headers: map<Bytes, Value>, body: Option<Bytes>)

  const EMPTY: Request := Request([], [], [], map[], None)

  function AddHeader(headers: map<Bytes, Value>, key: Bytes, value: Bytes): map<Bytes, Value> {
    if key !in headers then headers[key := One(value)]
    else
      match headers[key]
      case One(text) => headers[key := Several([text, value])]
      case Several(texts) => headers[key := Several(texts + [value])]
  }

  /** One line; none for a throw. */
  function AddLine(r: Request, line: Bytes): Option<Request>
    requires line != []
  {
    if r.verb == [] then
      match FirstLine(line, 0)
      case None => None
      case Some((verb, url, protocol)) => Some(r.(verb := HttpResponse.Lower(verb), url := url, protocol := protocol))
    else Some(r.(headers := AddHeader(r.headers, Key(line), HeaderValue(line))))
  }

  /** The lines up to an empty one or to the end, and the rest as body. */
  function ParseLines(buffer: Bytes, r: Request): Option<Request>
    decreases |buffer|
  {
    var idx := HttpResponse.LineEnd(buffer);
    if idx == -1 then Finish(buffer, r)
    else if idx == 0 then Finish(buffer[2..], r)
    else
      match AddLine(r, buffer[..idx])
      case None => None
      case Some(next) => ParseLines(buffer[idx + 2..], next)
  }

  function Finish(rest: Bytes, r: Request): Option<Request> {
    if r.verb == [] then None else Some(r.(body := if rest == [] then None else Some(rest)))
  }

  function ParseRequest(messages: seq<Bytes>): Option<Request> {
    if messages == [] || (messages[0] != [] && messages[0][0] == STAR) then None
    else ParseLines(Concat(messages), EMPTY)
  }

  method GetHttpRequestData(messages: seq<Bytes>) returns (result: Option<Request>)
    ensures result == ParseRequest(messages)
  {
    if messages == [] || (messages[0] != [] && messages[0][0] == STAR) {
      return None;
    }
    var buffer, request := Concat(messages), EMPTY;
    while true
      invariant ParseLines(buffer, request) == ParseRequest(messages)
      decreases |buffer|
    {
      var idx := HttpResponse.LineEnd(buffer);
      if idx == -1 {
        break;
      }
      var line := buffer[..idx];
      if line == [] {
        buffer := buffer[2..];
        return Finish(buffer, request);
      }
      var next := AddLine(request, line);
      if next == None {
        return None;
      }
      request := next.value;
      buffer := buffer[idx + 2..];
    }
    return Finish(buffer, request);
  }

  // ----- printed lines are read back -----

  /** Lines that can be told apart: not empty, without line breaks. */
  predicate PlainLine(line: Bytes) {
    line != [] && forall k :: 0 <= k < |line| ==> !IsBreak(line[k])
  }

  predicate PlainLines(lines: seq<Bytes>) {
    forall k :: 0 <= k < |lines| ==> PlainLine(lines[k])
  }

  function AddLines(r: Request, lines: seq<Bytes>): Option<Request>
    requires PlainLines(lines)
    decreases |lines|
  {
    if lines == [] then Some(r)
    else
      match AddLine(r, lines[0])
      case None => None
      case Some(next) => AddLines(next, lines[1..])
  }

  lemma LineEndsAt(line: Bytes, rest: Bytes)
    requires forall k :: 0 <= k < |line| ==> !IsBreak(line[k])
    ensures HttpResponse.LineEnd(line + CRLF + rest) == |line|
  {
    var text := line + CRLF + rest;
    assert HttpResponse.CrlfAt(text, |line|);
    assert forall k :: 0 <= k < |line| ==> text[k] == line[k];
  }

  lemma {:induction false} ReadsLines(lines: seq<Bytes>, body: Bytes, r: Request)
    requires PlainLines(lines)
    ensures ParseLines(Print(lines) + CRLF + body, r)
         == match AddLines(r, lines) case None => None case Some(next) => Finish(body, next)
  {
    if lines == [] {
      LineEndsAt([], body);
      assert Print([]) + CRLF + body == [] + CRLF + body;
      assert ([] + CRLF + body)[2..] == body;
    } else {
      var rest := Print(lines[1..]) + CRLF + body;
      assert Print(lines) + CRLF + body == lines[0] + CRLF + rest;
      LineEndsAt(lines[0], rest);
      assert (lines[0] + CRLF + rest)[..|lines[0]|] == lines[0];
      assert (lines[0] + CRLF + rest)[|lines[0]| + 2..] == rest;
      if AddLine(r, lines[0]).Some? {
        ReadsLines(lines[1..], body, AddLine(r, lines[0]).value);
      }
    }
  }

  // ----- the first line -----

  predicate IsVerb(text: Bytes) {
    text != [] && forall k :: 0 <= k < |text| ==> IsWord(text[k])
  }

  predicate NoBreak(text: Bytes) {
    forall k :: 0 <= k < |text| ==> !IsBreak(text[k])
  }

  lemma ReadsRequestLine(verb: Bytes, target: Bytes)
    requires IsVerb(verb) && NoBreak(target)
    ensures PlainLine(RequestLine(verb, target))
    ensures FirstLine(RequestLine(verb, target), 0) == Some((verb, target, Ascii("HTTP/1.1")))
  {
    VersionPlain();
    ReadsThree(verb, target, Ascii("HTTP/1.1"));
  }

  lemma VersionPlain()
    ensures var version := Ascii("HTTP/1.1"); NoBreak(version) && SPACE !in version
  {
    assert Ascii("HTTP/1.1") == [72, 84, 84, 80, 47, 49, 46, 49];
  }

  /** Where the bytes of three words joined by spaces stand. */
  predicate ThreeWords(line: Bytes, a: Bytes, b: Bytes, c: Bytes) {
    && |line| == |a| + |b| + |c| + 2
    && line[..|a|] == a && line[|a|] == SPACE
    && line[|a| + 1..|a| + 1 + |b|] == b && line[|a| + 1 + |b|] == SPACE
    && line[|a| + |b| + 2..] == c
  }

  lemma JoinsThree(a: Bytes, b: Bytes, c: Bytes)
    ensures ThreeWords(a + [SPACE] + b + [SPACE] + c, a, b, c)
  {
  }

  /** A line cut by its first space, behind a word, and its last one. */
  lemma ScansThree(line: Bytes, j: nat, k: nat)
    requires 0 < j < k < |line| && line[j] == SPACE && line[k] == SPACE
    requires forall i :: 0 <= i < j ==> IsWord(line[i])
    requires forall i :: j < i < |line| ==> !IsBreak(line[i])
    requires forall i :: k < i < |line| ==> line[i] != SPACE
    ensures FirstLine(line, 0) == Some((line[0..j], line[j + 1..k], line[k + 1..|line|]))
  {
    assert WordEnd(line, 0) == j && BreakAt(line, j + 1) == |line| && LastSpace(line, j + 1, |line|) == k;
  }

  lemma ThreeBytes(line: Bytes, a: Bytes, b: Bytes, c: Bytes)
    requires ThreeWords(line, a, b, c)
    ensures forall i :: 0 <= i < |a| ==> line[i] == a[i]
    ensures forall i :: |a| < i < |a| + 1 + |b| ==> line[i] == b[i - |a| - 1]
    ensures forall i :: |a| + 1 + |b| < i < |line| ==> line[i] == c[i - |a| - |b| - 2]
  {
    assert forall i :: 0 <= i < |a| ==> line[i] == line[..|a|][i];
    assert forall i :: |a| < i < |a| + 1 + |b| ==> line[i] == line[|a| + 1..|a| + 1 + |b|][i - |a| - 1];
    assert forall i :: |a| + 1 + |b| < i < |line| ==> line[i] == line[|a| + |b| + 2..][i - |a| - |b| - 2];
  }

  lemma ReadsThree(verb: Bytes, target: Bytes, version: Bytes)
    requires IsVerb(verb) && NoBreak(target) && NoBreak(version) && SPACE !in version
    ensures var line := verb + [SPACE] + target + [SPACE] + version;
            PlainLine(line) && FirstLine(line, 0) == Some((verb, target, version))
  {
    var line := verb + [SPACE] + target + [SPACE] + version;
    JoinsThree(verb, target, version);
    ReadsWords(line, verb, target, version);
  }

  lemma ReadsWords(line: Bytes, a: Bytes, b: Bytes, c: Bytes)
    requires IsVerb(a) && NoBreak(b) && NoBreak(c) && SPACE !in c && ThreeWords(line, a, b, c)
    ensures PlainLine(line) && FirstLine(line, 0) == Some((a, b, c))
  {
    ThreeBytes(line, a, b, c);
    assert forall i :: 0 <= i < |c| ==> c[i] in c;
    ScansThree(line, |a|, |a| + 1 + |b|);
    assert line[0..|a|] == line[..|a|];
    assert line[|a| + 1 + |b| + 1..|line|] == line[|a| + |b| + 2..];
  }

  // ----- the headers -----

  // "host" and "connection"
  const HOST: Bytes := [104, 111, 115, 116]
  const CONNECTION: Bytes := [99, 111, 110, 110, 101, 99, 116, 105, 111, 110]
  // "Connection", "Content-Length", "Accept-Encoding" and "identity"
  const CONNECTION_NAME: Bytes := [67, 111, 110, 110, 101, 99, 116, 105, 111, 110]
  const LENGTH_NAME: Bytes := [67, 111, 110, 116, 101, 110, 116, 45, 76, 101, 110, 103, 116, 104]
  const ENCODING_NAME: Bytes := [65, 99, 99, 101, 112, 116, 45, 69, 110, 99, 111, 100, 105, 110, 103]
  const IDENTITY: Bytes := [105, 100, 101, 110, 116, 105, 116, 121]
  // "close"
  const CLOSE_VALUE: Bytes := [99, 108, 111, 115, 101]

  /** No white space at either end. */
  predicate Trimmed(text: Bytes) {
    text != [] ==> !IsSpace(text[0]) && !IsSpace(text[|text| - 1])
  }

  lemma TrimKeeps(text: Bytes)
    requires Trimmed(text)
    ensures Trim(text) == text && Trim([SPACE] + text) == text
  {
    assert ([SPACE] + text)[1..] == text;
  }

  /** The name and the value of a line that was printed from them. */
  lemma ReadsField(name: Bytes, value: Bytes, line: Bytes)
    requires line == name + [COLON, SPACE] + value && COLON !in name && Trimmed(value)
    ensures Key(line) == Trim(HttpResponse.Lower(name)) && HeaderValue(line) == value
  {
    FieldCut(name, value, line);
    ColonBehind(line, |name|);
    TrimKeeps(value);
  }

  lemma FieldCut(name: Bytes, value: Bytes, line: Bytes)
    requires line == name + [COLON, SPACE] + value && COLON !in name
    ensures |name| < |line| && line[..|name|] == name && line[|name| + 1..] == [SPACE] + value
    ensures line[|name|] == COLON && forall k :: 0 <= k < |name| ==> line[k] != COLON
  {
    assert forall k :: 0 <= k < |name| ==> line[k] == name[k] && name[k] in name;
  }

  lemma ColonBehind(line: Bytes, n: nat)
    requires n < |line| && line[n] == COLON && forall k :: 0 <= k < n ==> line[k] != COLON
    ensures ColonAt(line, 0) == n
  {
  }

  /** Lines that set neither of two headers. */
  predicate SetsNeither(lines: seq<Bytes>) {
    forall k :: 0 <= k < |lines| ==> lines[k] != [] && Key(lines[k]) != HOST && Key(lines[k]) != CONNECTION
  }

  lemma {:induction false} NeitherSet(r: Request, lines: seq<Bytes>)
    requires PlainLines(lines) && SetsNeither(lines) && r.verb != []
    ensures var next := AddLines(r, lines);
            && next.Some? && next.value.verb == r.verb && next.value.url == r.url && next.value.protocol == r.protocol
            && next.value.body == r.body
            && forall key :: key == HOST || key == CONNECTION ==>
                 && (key in next.value.headers <==> key in r.headers)
                 && (key in r.headers ==> next.value.headers[key] == r.headers[key])
    decreases |lines|
  {
    if lines != [] {
      NeitherSet(AddLine(r, lines[0]).value, lines[1..]);
    }
  }

  /** Public headers as the program expects them: no repeated host or connection. */
  predicate PublicOnly(p: Parts) {
    && PlainLines(BuildHeaders(p.pubHeaders)) && SetsNeither(BuildHeaders(p.pubHeaders))
  }

  predicate ProperParts(p: Parts) {
    && IsVerb(p.verb) && NoBreak(p.target) && NoBreak(p.host) && Trimmed(p.host) && NoBreak(p.length)
    && PublicOnly(p)
  }

  lemma StarsLine(n: nat)
    requires n > 0
    ensures PlainLine(Fill(STAR, n)) && SetsNeither([Fill(STAR, n)])
  {
    var line := Fill(STAR, n);
    assert ColonAt(line, 0) == -1;
    var key := line[..n - 1];
    assert HttpResponse.Lower(key) == key;
    TrimKeeps(key);
    assert key != [] ==> key[0] == STAR;
  }

  lemma HostLine(p: Parts)
    requires ProperParts(p)
    ensures var line := Ascii("Host: ") + p.host;
            PlainLine(line) && Key(line) == HOST && HeaderValue(line) == p.host
  {
    var line, name: Bytes := Ascii("Host: ") + p.host, [72, 111, 115, 116];
    assert Ascii("Host: ") == name + [COLON, SPACE];
    ReadsField(name, p.host, line);
    assert HttpResponse.Lower(name) == HOST;
    TrimKeeps(HOST);
    forall k | 0 <= k < |line|
      ensures !IsBreak(line[k])
    {
      assert k >= 6 ==> line[k] == p.host[k - 6];
    }
  }

  lemma ConnectionText()
    ensures Ascii("Connection: close") == CONNECTION_NAME + [COLON, SPACE] + CLOSE_VALUE
  {
  }

  lemma ConnectionLine()
    ensures var line := Ascii("Connection: close");
            PlainLine(line) && Key(line) == CONNECTION && HeaderValue(line) == CLOSE_VALUE
  {
    ConnectionText();
    LowerConnection();
    PlainField(CONNECTION_NAME, CLOSE_VALUE);
    ReadsField(CONNECTION_NAME, CLOSE_VALUE, CONNECTION_NAME + [COLON, SPACE] + CLOSE_VALUE);
    TrimKeeps(CONNECTION);
  }

  lemma LowerConnection()
    ensures HttpResponse.Lower(CONNECTION_NAME) == CONNECTION && Trimmed(CLOSE_VALUE) && Trimmed(CONNECTION)
    ensures NoBreak(CONNECTION_NAME) && NoBreak(CLOSE_VALUE) && COLON !in CONNECTION_NAME
  {
  }

  lemma PlainField(name: Bytes, value: Bytes)
    requires NoBreak(name) && NoBreak(value)
    ensures PlainLine(name + [COLON, SPACE] + value)
  {
  }

  /** A line for some other header. */
  lemma OtherLine(line: Bytes, n: nat)
    requires n < |line| && line[n] == COLON && n != |HOST| && n != |CONNECTION|
    requires forall k :: 0 <= k < n ==> line[k] != COLON && !IsSpace(line[k])
    ensures Key(line) != HOST && Key(line) != CONNECTION
  {
    assert ColonAt(line, 0) == n;
    var key := HttpResponse.Lower(line[..n]);
    TrimKeeps(key);
    assert |key| == n;
  }

  lemma OtherTexts()
    ensures Ascii("Content-Length: ") == LENGTH_NAME + [COLON, SPACE]
    ensures Ascii("Accept-Encoding: identity") == ENCODING_NAME + [COLON, SPACE] + IDENTITY
  {
  }

  lemma FixedLines(p: Parts)
    requires ProperParts(p)
    ensures PlainLine(Ascii("Content-Length: ") + p.length) && PlainLine(Ascii("Accept-Encoding: identity"))
    ensures SetsNeither([Ascii("Content-Length: ") + p.length]) && SetsNeither([Ascii("Accept-Encoding: identity")])
  {
    OtherTexts();
    OtherField(LENGTH_NAME, p.length);
    OtherField(ENCODING_NAME, IDENTITY);
  }

  /** A line whose name is as long as neither of the two. */
  lemma OtherField(name: Bytes, value: Bytes)
    requires NoBreak(name) && NoBreak(value) && |name| != |HOST| && |name| != |CONNECTION|
    requires forall k :: 0 <= k < |name| ==> name[k] != COLON && !IsSpace(name[k])
    ensures var line := name + [COLON, SPACE] + value; PlainLine(line) && SetsNeither([line])
  {
    var line := name + [COLON, SPACE] + value;
    PlainField(name, value);
    assert forall k :: 0 <= k < |name| ==> line[k] == name[k];
    OtherLine(line, |name|);
  }

  // ----- the round trip -----

  /** A request of this verb, target and host, on a connection to be closed. */
  predicate Reads(r: Request, verb: Bytes, url: Bytes, host: Bytes) {
    && r.verb == verb && r.url == url && r.protocol == Ascii("HTTP/1.1") && r.body == None
    && HOST in r.headers && r.headers[HOST] == One(host)
    && CONNECTION in r.headers && r.headers[CONNECTION] == One(CLOSE_VALUE)
  }

  predicate IsHostLine(line: Bytes, host: Bytes) {
    PlainLine(line) && Key(line) == HOST && HeaderValue(line) == host
  }

  predicate IsConnectionLine(line: Bytes) {
    PlainLine(line) && Key(line) == CONNECTION && HeaderValue(line) == CLOSE_VALUE
  }

  predicate IsFirstLine(line: Bytes, verb: Bytes, url: Bytes) {
    PlainLine(line) && FirstLine(line, 0) == Some((verb, url, Ascii("HTTP/1.1"))) && verb != []
  }

  /** Lines in the order in which a request has them. */
  lemma ReadsInOrder(first: Bytes, verb: Bytes, url: Bytes, hostLine: Bytes, host: Bytes, length: Bytes, connection: Bytes,
                     rest: seq<Bytes>)
    requires IsFirstLine(first, verb, url) && IsHostLine(hostLine, host) && IsConnectionLine(connection)
    requires PlainLine(length) && SetsNeither([length]) && PlainLines(rest) && SetsNeither(rest)
    ensures var lines := [first, hostLine, length, connection] + rest;
            && PlainLines(lines)
            && var r := AddLines(EMPTY, lines); r.Some? && Reads(r.value, HttpResponse.Lower(verb), url, host)
  {
    var a := AddLine(EMPTY, first).value;
    var c := AddLine(a, hostLine).value;
    NeitherSet(c, [length]);
    var d := AddLines(c, [length]).value;
    var e := AddLine(d, connection).value;
    NeitherSet(e, rest);
    Unrolled(first, hostLine, length, connection, rest, EMPTY, a, c, d, e);
  }

  /** The lines of the redacted request, read one after the other. */
  lemma ReadsSentLines(p: Parts, url: seq<Redaction>)
    requires ProperParts(p) && Secret(p) != [] && NoBreak(SentTarget(p, url))
    ensures PlainLines(SentLines(p, url))
    ensures var r := AddLines(EMPTY, SentLines(p, url));
            r.Some? && Reads(r.value, HttpResponse.Lower(p.verb), SentTarget(p, url), p.host)
  {
    var first, stars := RequestLine(p.verb, SentTarget(p, url)), Fill(STAR, |Secret(p)|);
    var length, encoding := Ascii("Content-Length: ") + p.length, Ascii("Accept-Encoding: identity");
    var host, connection := Ascii("Host: ") + p.host, Ascii("Connection: close");
    var rest := [encoding] + BuildHeaders(p.pubHeaders) + [stars];
    assert IsFirstLine(first, p.verb, SentTarget(p, url)) by {
      ReadsRequestLine(p.verb, SentTarget(p, url));
    }
    assert IsHostLine(host, p.host) by {
      HostLine(p);
    }
    assert IsConnectionLine(connection) by {
      ConnectionLine();
    }
    assert PlainLine(length) && SetsNeither([length]) && PlainLines(rest) && SetsNeither(rest) by {
      FixedLines(p);
      StarsLine(|Secret(p)|);
      BehindFixed(p, stars, encoding);
    }
    ReadsInOrder(first, p.verb, SentTarget(p, url), host, p.host, length, connection, rest);
    SentInOrder(p, url, first, host, length, connection, encoding, stars, rest);
  }

  lemma SentInOrder(p: Parts, url: seq<Redaction>, first: Bytes, host: Bytes, length: Bytes, connection: Bytes,
                    encoding: Bytes, stars: Bytes, rest: seq<Bytes>)
    requires first == RequestLine(p.verb, SentTarget(p, url)) && host == Ascii("Host: ") + p.host
    requires length == Ascii("Content-Length: ") + p.length && connection == Ascii("Connection: close")
    requires encoding == Ascii("Accept-Encoding: identity")
    requires stars == Fill(STAR, |Secret(p)|) && rest == [encoding] + BuildHeaders(p.pubHeaders) + [stars]
    ensures SentLines(p, url) == [first, host, length, connection] + rest
  {
    var b := BuildHeaders(p.pubHeaders);
    assert FirstLines(p)[0 := first] == [first, host, length, connection, encoding];
    assert [first, host, length, connection, encoding] == [first, host, length, connection] + [encoding];
    assert SentLines(p, url) == [first, host, length, connection] + [encoding] + b + [stars];
  }

  lemma BehindFixed(p: Parts, stars: Bytes, encoding: Bytes)
    requires PublicOnly(p) && PlainLine(stars) && PlainLine(encoding) && SetsNeither([stars]) && SetsNeither([encoding])
    ensures var lines := [encoding] + BuildHeaders(p.pubHeaders) + [stars]; PlainLines(lines) && SetsNeither(lines)
  {
    assert [stars][0] == stars && [encoding][0] == encoding;
  }

  /** Four lines, and the rest. */
  lemma Unrolled(first: Bytes, host: Bytes, length: Bytes, connection: Bytes, rest: seq<Bytes>,
                 r: Request, a: Request, c: Request, d: Request, e: Request)
    requires PlainLine(first) && PlainLine(host) && PlainLine(length) && PlainLine(connection) && PlainLines(rest)
    requires AddLine(r, first) == Some(a) && AddLine(a, host) == Some(c) && AddLines(c, [length]) == Some(d)
    requires AddLine(d, connection) == Some(e)
    ensures PlainLines([first, host, length, connection] + rest)
    ensures AddLines(r, [first, host, length, connection] + rest) == AddLines(e, rest)
  {
    assert [length][1..] == [] && AddLine(c, length) == Some(d);
    LineFirst(d, connection, rest, e);
    LineFirst(c, length, [connection] + rest, d);
    LineFirst(a, host, [length] + ([connection] + rest), c);
    LineFirst(r, first, [host] + ([length] + ([connection] + rest)), a);
    assert [first, host, length, connection] + rest == [first] + ([host] + ([length] + ([connection] + rest)));
  }

  lemma LineFirst(r: Request, line: Bytes, rest: seq<Bytes>, next: Request)
    requires PlainLine(line) && PlainLines(rest) && AddLine(r, line) == Some(next)
    ensures PlainLines([line] + rest) && AddLines(r, [line] + rest) == AddLines(next, rest)
  {
    assert ([line] + rest)[1..] == rest;
  }

  lemma TargetPlain(p: Parts, url: seq<Redaction>)
    requires NoBreak(p.target)
    ensures NoBreak(SentTarget(p, url))
  {
  }

  lemma SecretPlain(p: Parts)
    requires p.secHeaders != []
    ensures Secret(p) != []
  {
    var lines := BuildHeaders(p.secHeaders);
    assert lines[0] != [];
  }

  /**
   The request that is printed and redacted is read back, however it is split into
   messages: the verb, the target with its hidden parts as stars, the host, that the
   connection is closed, and the body with its hidden parts as stars.
   */
  lemma PrintRedactParse(p: Parts, body: seq<Redaction>, url: seq<Redaction>, redactions: seq<Redaction>, messages: seq<Bytes>)
    requires ProperParts(p) && HiddenFits(p, body, url)
    requires SameStars(redactions, Hidden(p, SecretAt(p), body, url))
    requires Concat(messages) == Starred(Data(p), redactions) && messages != [] && messages[0] != []
    ensures var r := ParseRequest(messages);
            && r.Some? && r.value.verb == HttpResponse.Lower(p.verb) && r.value.url == SentTarget(p, url)
            && HOST in r.value.headers && r.value.headers[HOST] == One(p.host)
            && CONNECTION in r.value.headers && r.value.headers[CONNECTION] == One(CLOSE_VALUE)
            && r.value.body == if p.body == [] then None else Some(Starred(p.body, body))
  {
    SecretPlain(p);
    TargetPlain(p, url);
    RedactedRequest(p, body, url, redactions);
    ReadsSentLines(p, url);
    ReadsLines(SentLines(p, url), Starred(p.body, body), EMPTY);
    FirstByte(p, url, Starred(p.body, body), messages);
    assert |Starred(p.body, body)| == |p.body|;
  }

  /** The first byte of the redacted request is that of the verb, and no star. */
  lemma FirstByte(p: Parts, url: seq<Redaction>, body: Bytes, messages: seq<Bytes>)
    requires IsVerb(p.verb) && messages != [] && messages[0] != []
    requires Concat(messages) == Print(SentLines(p, url)) + CRLF + body
    ensures messages[0][0] != STAR
  {
    var line := RequestLine(p.verb, SentTarget(p, url));
    assert SentLines(p, url)[0] == line;
    assert Concat(messages)[0] == messages[0][0];
    assert Print(SentLines(p, url))[0] == line[0] == p.verb[0];
  }

  /**
   A body substituted from a template by the client comes out of its redacted request
   such that it matches the attestor's template, when every secret stands out.
   */
  lemma BodyMatches(p: Parts, client: Template.Values, attestor: Template.Values, template: Bytes, url: seq<Redaction>,
                    redactions: seq<Redaction>, messages: seq<Bytes>)
    requires Template.SameClaim(client, attestor) && Template.AllFound(client, Template.Segments(template, 0))
    requires var cs := Template.Pieces(client, Template.Segments(template, 0));
             && p.body == Template.Text(cs) != [] && Template.SecretsStandOut(cs)
             && HiddenFits(p, Template.Hidden(cs), url)
             && SameStars(redactions, Hidden(p, SecretAt(p), Template.Hidden(cs), url))
    requires ProperParts(p) && Concat(messages) == Starred(Data(p), redactions) && messages != [] && messages[0] != []
    ensures var r := ParseRequest(messages);
            && Template.AllFound(attestor, Template.Segments(template, 0))
            && r.Some? && r.value.body.Some?
            && Match.Related(Template.Text(Template.Pieces(attestor, Template.Segments(template, 0))), r.value.body.value)
  {
    var cs := Template.Pieces(client, Template.Segments(template, 0));
    PrintRedactParse(p, Template.Hidden(cs), url, redactions, messages);
    Template.TemplateRoundTrip(client, attestor, template);
  }
}
