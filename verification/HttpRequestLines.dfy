/**
 What a request says, told from its lines: the words of the first one, and for every
 header name the values of its lines, in order.
 */
module HttpRequestLines {
  import opened ByteData
  import opened HttpRequestParser
  import HttpHeaders
  import HttpRequest
  import HttpResponse

  // ----- the first line -----

  /** From `i` on stand word characters up to a space at `j`, and no line break from there to a space at `k`. */
  predicate WordsAt(line: Bytes, i: int, j: int, k: int) {
    && 0 <= i < j < k < |line| && line[j] == 32 && line[k] == 32
    && (forall p :: i <= p < j ==> IsWord(line[p]))
    && (forall p :: j < p < k ==> !IsBreak(line[p]))
  }

  /** The third word goes up to the end or to a line break, and has no space. */
  predicate LastWord(line: Bytes, k: int, e: int) {
    && 0 <= k < e <= |line| && (e < |line| ==> IsBreak(line[e]))
    && forall p :: k < p < e ==> !IsBreak(line[p]) && line[p] != 32
  }

  /** The leftmost of the matches, with a last word as short as can be. */
  ghost predicate Matches(line: Bytes, i: int, j: int, k: int, e: int) {
    WordsAt(line, i, j, k) && LastWord(line, k, e) && forall x, y, z :: WordsAt(line, x, y, z) ==> i <= x
  }

  ghost predicate NoMatch(line: Bytes) {
    forall x, y, z :: !WordsAt(line, x, y, z)
  }

  /** The place of the space behind the word is determined. */
  lemma WordUntil(line: Bytes, i: nat, j: int, k: int)
    requires WordsAt(line, i, j, k)
    ensures WordEnd(line, i) == j && BreakAt(line, j + 1) > k
    ensures LastSpace(line, j + 1, BreakAt(line, j + 1)) >= k
  {
  }

  lemma ScanFinds(line: Bytes, i: nat)
    requires i < |line| && IsWord(line[i])
    requires var j := WordEnd(line, i); j < |line| && line[j] == 32 && LastSpace(line, j + 1, BreakAt(line, j + 1)) >= 0
    ensures var j := WordEnd(line, i);
            var k := LastSpace(line, j + 1, BreakAt(line, j + 1));
            WordsAt(line, i, j, k) && LastWord(line, k, BreakAt(line, j + 1))
  {
  }

  lemma {:induction false} WordEndInside(line: Bytes, i: nat, x: nat)
    requires i <= |line| && i <= x < WordEnd(line, i)
    ensures WordEnd(line, x) == WordEnd(line, i)
    decreases x - i
  {
    if i < x {
      WordEndInside(line, i + 1, x);
    }
  }

  /** Nothing matches between the beginning of a word that does not match and its end. */
  lemma ScanSkips(line: Bytes, i: nat, x: int, y: int, z: int)
    requires i < |line| && IsWord(line[i]) && i <= x < WordEnd(line, i) && WordsAt(line, x, y, z)
    ensures WordsAt(line, i, y, z)
  {
    WordUntil(line, x, y, z);
    WordEndInside(line, i, x);
  }

  /** What a scan gives: the words of the leftmost match, or that there is none. */
  ghost predicate ScanOf(line: Bytes, scan: Option<(Bytes, Bytes, Bytes)>) {
    match scan
    case None => NoMatch(line)
    case Some((a, b, c)) => exists w: nat, j: nat, k: nat, e: nat :: GroupsOf(line, w, j, k, e, a, b, c)
  }

  ghost predicate GroupsOf(line: Bytes, w: nat, j: nat, k: nat, e: nat, a: Bytes, b: Bytes, c: Bytes) {
    Matches(line, w, j, k, e) && a == line[w..j] && b == line[j + 1..k] && c == line[k + 1..e]
  }

  /** No match begins in front of a position. */
  ghost predicate NoneUntil(line: Bytes, i: nat) {
    forall x, y, z :: WordsAt(line, x, y, z) ==> i <= x
  }

  lemma FirstHere(line: Bytes, i: nat, j: nat, k: nat, e: nat)
    requires i < |line| && IsWord(line[i]) && j == WordEnd(line, i) && j < |line| && line[j] == 32
    requires e == BreakAt(line, j + 1) && k == LastSpace(line, j + 1, e)
    ensures i <= j < k < e <= |line| && FirstLine(line, i) == Some((line[i..j], line[j + 1..k], line[k + 1..e]))
  {
  }

  lemma Leftmost(line: Bytes, i: nat, j: nat, k: nat, e: nat, scan: Option<(Bytes, Bytes, Bytes)>)
    requires WordsAt(line, i, j, k) && LastWord(line, k, e) && NoneUntil(line, i)
    requires scan == Some((line[i..j], line[j + 1..k], line[k + 1..e]))
    ensures ScanOf(line, scan)
  {
    assert GroupsOf(line, i, j, k, e, line[i..j], line[j + 1..k], line[k + 1..e]);
  }

  lemma MatchHere(line: Bytes, i: nat)
    requires i < |line| && NoneUntil(line, i) && IsWord(line[i])
    requires var j := WordEnd(line, i); j < |line| && line[j] == 32 && LastSpace(line, j + 1, BreakAt(line, j + 1)) >= 0
    ensures ScanOf(line, FirstLine(line, i))
  {
    var j := WordEnd(line, i);
    var e := BreakAt(line, j + 1);
    var k := LastSpace(line, j + 1, e);
    ScanFinds(line, i);
    FirstHere(line, i, j, k, e);
    Leftmost(line, i, j, k, e, FirstLine(line, i));
  }

  lemma NoneInWord(line: Bytes, i: nat)
    requires i < |line| && NoneUntil(line, i) && IsWord(line[i])
    requires var j := WordEnd(line, i);
             !(j < |line| && line[j] == 32 && LastSpace(line, j + 1, BreakAt(line, j + 1)) >= 0)
    ensures NoneUntil(line, WordEnd(line, i))
  {
    forall x, y, z | WordsAt(line, x, y, z)
      ensures WordEnd(line, i) <= x
    {
      if x < WordEnd(line, i) {
        ScanSkips(line, i, x, y, z);
        WordUntil(line, i, y, z);
      }
    }
  }

  lemma {:induction false} ScanExactly(line: Bytes, i: nat)
    requires i <= |line| && NoneUntil(line, i)
    ensures ScanOf(line, FirstLine(line, i))
    decreases |line| - i
  {
    if i < |line| {
      var j := WordEnd(line, i);
      if !IsWord(line[i]) {
        ScanExactly(line, i + 1);
      } else if j < |line| && line[j] == 32 && LastSpace(line, j + 1, BreakAt(line, j + 1)) >= 0 {
        MatchHere(line, i);
      } else {
        NoneInWord(line, i);
        ScanExactly(line, j);
      }
    }
  }

  // ----- a header line -----

  predicate AllSpace(text: Bytes) {
    forall i :: 0 <= i < |text| ==> IsSpace(text[i])
  }

  /** The text less the white space at its ends. */
  ghost predicate TrimmedOf(text: Bytes, core: Bytes) {
    Trimmed(core) && exists front, back :: AllSpace(front) && AllSpace(back) && text == front + core + back
  }

  /**
   The line is a name and a value, between white space, at its first colon; without a colon
   its last byte takes the place of the colon.
   */
  ghost predicate SaysField(line: Bytes, name: Bytes, value: Bytes) {
    exists key, lowered, c, rest ::
      CutAtColon(line, key, lowered, c, rest) && TrimmedOf(lowered, name) && TrimmedOf(rest, value)
  }

  predicate CutAtColon(line: Bytes, key: Bytes, lowered: Bytes, c: Byte, rest: Bytes) {
    && line == key + [c] + rest && 58 !in key && (c == 58 || (rest == [] && 58 !in line))
    && HttpHeaders.LowerOf(key, lowered)
  }

  lemma {:induction false} TrimStartIs(text: Bytes) returns (front: Bytes)
    ensures AllSpace(front) && text == front + TrimStart(text)
    ensures TrimStart(text) != [] ==> !IsSpace(TrimStart(text)[0])
    decreases |text|
  {
    if text != [] && IsSpace(text[0]) {
      front := TrimStartIs(text[1..]);
      front := [text[0]] + front;
    } else {
      front := [];
    }
  }

  lemma {:induction false} TrimEndIs(text: Bytes) returns (back: Bytes)
    ensures AllSpace(back) && text == TrimEnd(text) + back
    ensures TrimEnd(text) != [] ==> !IsSpace(TrimEnd(text)[|TrimEnd(text)| - 1])
    decreases |text|
  {
    if text != [] && IsSpace(text[|text| - 1]) {
      back := TrimEndIs(text[..|text| - 1]);
      back := back + [text[|text| - 1]];
    } else {
      back := [];
    }
  }

  lemma TrimIs(text: Bytes)
    ensures TrimmedOf(text, Trim(text))
  {
    var front := TrimStartIs(text);
    var start := TrimStart(text);
    var back := TrimEndIs(start);
    assert TrimEnd(start) != [] ==> TrimEnd(start)[0] == start[0];
    assert text == front + Trim(text) + back;
  }

  lemma FieldRead(line: Bytes)
    requires line != []
    ensures SaysField(line, Key(line), HeaderValue(line))
  {
    var i := KeyEnd(line);
    var key, rest := line[..i], line[i + 1..];
    TrimIs(HttpResponse.Lower(key));
    TrimIs(rest);
    assert line == key + [line[i]] + rest;
    assert 58 !in key && (line[i] == 58 || (rest == [] && 58 !in line));
    assert CutAtColon(line, key, HttpResponse.Lower(key), line[i], rest);
  }

  lemma {:induction false} TrimStartOf(front: Bytes, text: Bytes)
    requires AllSpace(front) && (text != [] ==> !IsSpace(text[0]))
    ensures TrimStart(front + text) == text
    decreases |front|
  {
    if front == [] {
      assert front + text == text;
    } else {
      assert (front + text)[1..] == front[1..] + text;
      TrimStartOf(front[1..], text);
    }
  }

  lemma {:induction false} TrimEndOf(text: Bytes, back: Bytes)
    requires AllSpace(back) && (text != [] ==> !IsSpace(text[|text| - 1]))
    ensures TrimEnd(text + back) == text
    decreases |back|
  {
    if back == [] {
      assert text + back == text;
    } else {
      var n := |back| - 1;
      assert (text + back)[..|text + back| - 1] == text + back[..n];
      TrimEndOf(text, back[..n]);
    }
  }

  lemma TrimOnce(text: Bytes, core: Bytes)
    requires TrimmedOf(text, core)
    ensures Trim(text) == core
  {
    var front, back :| AllSpace(front) && AllSpace(back) && text == front + core + back;
    if core == [] {
      assert text == front + back + [];
      TrimStartOf(front + back, []);
    } else {
      assert text == front + (core + back);
      TrimStartOf(front, core + back);
      TrimEndOf(core, back);
    }
  }

  lemma FieldOnce(line: Bytes, name: Bytes, value: Bytes)
    requires line != [] && SaysField(line, name, value)
    ensures name == Key(line) && value == HeaderValue(line)
  {
    var key, lowered, c, rest :| CutAtColon(line, key, lowered, c, rest) && TrimmedOf(lowered, name) && TrimmedOf(rest, value);
    TrimOnce(lowered, name);
    TrimOnce(rest, value);
    ColonCut(line, key, c, rest);
    assert lowered == HttpResponse.Lower(key);
  }

  lemma ColonCut(line: Bytes, key: Bytes, c: Byte, rest: Bytes)
    requires line == key + [c] + rest && 58 !in key && (c == 58 || (rest == [] && 58 !in line))
    ensures KeyEnd(line) == |key| && line[..|key|] == key && line[|key| + 1..] == rest
  {
    assert line[|key|] == c;
    assert forall k :: 0 <= k < |key| ==> line[k] == key[k];
    if c == 58 {
      ColonFirst(line, |key|);
    }
  }

  lemma ColonFirst(line: Bytes, n: nat)
    requires n < |line| && line[n] == 58 && forall k :: 0 <= k < n ==> line[k] != 58
    ensures ColonAt(line, 0) == n
  {
  }

  // ----- all lines -----

  ghost predicate Names(line: Bytes, name: Bytes) {
    exists value :: SaysField(line, name, value)
  }

  /** The values of the lines that have the name, in order. */
  ghost predicate ValuesSaid(lines: seq<Bytes>, name: Bytes, values: seq<Bytes>)
    decreases |lines|
  {
    if lines == [] then values == []
    else if Names(lines[|lines| - 1], name) then
      && values != [] && SaysField(lines[|lines| - 1], name, values[|values| - 1])
      && ValuesSaid(lines[..|lines| - 1], name, values[..|values| - 1])
    else ValuesSaid(lines[..|lines| - 1], name, values)
  }

  /** What a request holds for a name: one value, or a list of several. */
  function Held(headers: map<Bytes, Value>, name: Bytes): seq<Bytes> {
    if name !in headers then []
    else match headers[name] case One(text) => [text] case Several(texts) => texts
  }

  /** A list has two values at least. */
  predicate Listed(headers: map<Bytes, Value>) {
    forall name :: name in headers && headers[name].Several? ==> |headers[name].texts| >= 2
  }

  predicate Filled(lines: seq<Bytes>) {
    forall k :: 0 <= k < |lines| ==> lines[k] != []
  }

  /** The headers hold what the lines say. */
  ghost predicate HoldsSaid(headers: map<Bytes, Value>, lines: seq<Bytes>) {
    Listed(headers) && forall name :: ValuesSaid(lines, name, Held(headers, name))
  }

  lemma OneMoreValue(lines: seq<Bytes>, line: Bytes, name: Bytes, values: seq<Bytes>, more: seq<Bytes>)
    requires line != [] && ValuesSaid(lines, name, values)
    requires more == if name == Key(line) then values + [HeaderValue(line)] else values
    ensures ValuesSaid(lines + [line], name, more)
  {
    assert (lines + [line])[..|lines|] == lines && (lines + [line])[|lines|] == line;
    FieldNames(line, name);
    if name == Key(line) {
      assert more[..|more| - 1] == values;
    }
  }

  lemma FieldNames(line: Bytes, name: Bytes)
    requires line != []
    ensures Names(line, name) <==> name == Key(line)
    ensures SaysField(line, Key(line), HeaderValue(line))
  {
    FieldRead(line);
    if value :| SaysField(line, name, value) {
      FieldOnce(line, name, value);
    }
  }

  lemma OneMore(headers: map<Bytes, Value>, lines: seq<Bytes>, line: Bytes)
    requires HoldsSaid(headers, lines) && line != []
    ensures HoldsSaid(AddHeader(headers, Key(line), HeaderValue(line)), lines + [line])
  {
    var key, value := Key(line), HeaderValue(line);
    var more := AddHeader(headers, key, value);
    forall name
      ensures ValuesSaid(lines + [line], name, Held(more, name))
    {
      AddedValue(headers, key, value, name);
      OneMoreValue(lines, line, name, Held(headers, name), Held(more, name));
    }
    StillListed(headers, key, value);
  }

  lemma AddedValue(headers: map<Bytes, Value>, key: Bytes, value: Bytes, name: Bytes)
    ensures Held(AddHeader(headers, key, value), name) == if name == key then Held(headers, name) + [value] else Held(headers, name)
  {
  }

  lemma StillListed(headers: map<Bytes, Value>, key: Bytes, value: Bytes)
    requires Listed(headers)
    ensures Listed(AddHeader(headers, key, value))
  {
  }

  // ----- the buffer -----

  /** No line break of two bytes. */
  predicate NoCrlf(text: Bytes) {
    forall i :: 0 <= i < |text| - 1 ==> !(text[i] == 13 && text[i + 1] == 10)
  }

  predicate AreLines(lines: seq<Bytes>) {
    forall k :: 0 <= k < |lines| ==> lines[k] != [] && NoCrlf(lines[k])
  }

  /** The lines, each with a line break behind it, and an empty line in front of the body, or a rest without a line break. */
  predicate CutInto(buffer: Bytes, lines: seq<Bytes>, blank: bool, body: Bytes) {
    && AreLines(lines)
    && if blank then buffer == HttpRequest.Print(lines) + [13, 10] + body
       else buffer == HttpRequest.Print(lines) + body && NoCrlf(body)
  }

  lemma LineFound(line: Bytes, rest: Bytes)
    requires NoCrlf(line)
    ensures HttpResponse.LineEnd(line + CRLF + rest) == |line|
  {
    var text := line + CRLF + rest;
    assert HttpResponse.CrlfAt(text, |line|);
    forall i | 0 <= i < |line|
      ensures !HttpResponse.CrlfAt(text, i)
    {
      assert text[i] == line[i] && (i + 1 < |line| ==> text[i + 1] == line[i + 1]);
    }
  }

  lemma NoLineFound(text: Bytes)
    requires NoCrlf(text)
    ensures HttpResponse.LineEnd(text) == -1
  {
  }

  lemma NoneBefore(buffer: Bytes, i: nat)
    requires HttpResponse.LineEnd(buffer) == i
    ensures i + 2 <= |buffer| && NoCrlf(buffer[..i])
  {
    forall k | 0 <= k < i - 1
      ensures !(buffer[k] == 13 && buffer[k + 1] == 10)
    {
      assert !HttpResponse.CrlfAt(buffer, k);
    }
  }

  lemma LineCut(buffer: Bytes, i: nat)
    requires HttpResponse.CrlfAt(buffer, i)
    ensures buffer == buffer[..i] + CRLF + buffer[i + 2..]
  {
  }

  lemma NoLine(buffer: Bytes)
    requires HttpResponse.LineEnd(buffer) == -1
    ensures CutInto(buffer, [], false, buffer)
  {
    forall k | 0 <= k < |buffer| - 1
      ensures !(buffer[k] == 13 && buffer[k + 1] == 10)
    {
      assert !HttpResponse.CrlfAt(buffer, k);
    }
    assert [] + buffer == buffer;
  }

  lemma EmptyLine(buffer: Bytes)
    requires HttpResponse.LineEnd(buffer) == 0
    ensures CutInto(buffer, [], true, buffer[2..])
  {
    assert buffer == [] + [13, 10] + buffer[2..];
  }

  /** Every buffer can be cut so. */
  lemma {:induction false} CutExists(buffer: Bytes) returns (lines: seq<Bytes>, blank: bool, body: Bytes)
    ensures CutInto(buffer, lines, blank, body)
    decreases |buffer|
  {
    var i := HttpResponse.LineEnd(buffer);
    if i == -1 {
      lines, blank, body := [], false, buffer;
      NoLine(buffer);
    } else if i == 0 {
      lines, blank, body := [], true, buffer[2..];
      EmptyLine(buffer);
    } else {
      var line, rest := buffer[..i], buffer[i + 2..];
      var behind;
      behind, blank, body := CutExists(rest);
      NoneBefore(buffer, i);
      LineCut(buffer, i);
      assert buffer == line + CRLF + rest;
      LineInFront(line, behind, blank, body, rest);
      lines := [line] + behind;
    }
  }

  lemma LineInFront(line: Bytes, lines: seq<Bytes>, blank: bool, body: Bytes, rest: Bytes)
    requires CutInto(rest, lines, blank, body) && line != [] && NoCrlf(line)
    ensures CutInto(line + CRLF + rest, [line] + lines, blank, body)
  {
    var printed := HttpRequest.Print(lines);
    assert ([line] + lines)[1..] == lines;
    assert HttpRequest.Print([line] + lines) == line + CRLF + printed;
    Associates(line + CRLF, printed, [13, 10], body);
    LinesInFront(line, lines);
    if blank {
      assert line + CRLF + rest == line + CRLF + (printed + [13, 10] + body);
    } else {
      assert line + CRLF + rest == line + CRLF + (printed + body);
    }
  }

  lemma LinesInFront(line: Bytes, lines: seq<Bytes>)
    requires line != [] && NoCrlf(line) && AreLines(lines)
    ensures AreLines([line] + lines)
  {
  }

  lemma Associates(a: Bytes, b: Bytes, c: Bytes, d: Bytes)
    ensures a + (b + d) == a + b + d && a + (b + c + d) == a + b + c + d
  {
  }

  /** All lines, one after the other; None for a throw. */
  function AddAll(r: Request, lines: seq<Bytes>): Option<Request>
    requires Filled(lines)
  {
    if lines == [] then Some(r)
    else
      match AddAll(r, lines[..|lines| - 1])
      case None => None
      case Some(next) => AddLine(next, lines[|lines| - 1])
  }

  lemma {:induction false} AddFirst(r: Request, line: Bytes, lines: seq<Bytes>)
    requires line != [] && Filled(lines)
    ensures AddAll(r, [line] + lines) == match AddLine(r, line) case None => None case Some(next) => AddAll(next, lines)
    decreases |lines|
  {
    if lines == [] {
      AddSnoc(r, [], line);
      assert [] + [line] == [line] + lines;
    } else {
      var prior, last := lines[..|lines| - 1], lines[|lines| - 1];
      AddFirst(r, line, prior);
      AddSnoc(r, [line] + prior, last);
      assert [line] + prior + [last] == [line] + lines;
    }
  }

  lemma AddSnoc(r: Request, lines: seq<Bytes>, line: Bytes)
    requires line != [] && Filled(lines)
    ensures AddAll(r, lines + [line]) == match AddAll(r, lines) case None => None case Some(next) => AddLine(next, line)
  {
    assert (lines + [line])[..|lines|] == lines;
  }

  lemma ReadsEnd(buffer: Bytes, blank: bool, body: Bytes, r: Request)
    requires CutInto(buffer, [], blank, body)
    ensures ParseLines(buffer, r) == Finish(body, r)
  {
    if blank {
      LineFound([], body);
      assert buffer == [] + CRLF + body && buffer[2..] == body;
    } else {
      assert buffer == body;
      NoLineFound(body);
    }
  }

  lemma ReadsOneLine(line: Bytes, rest: Bytes, r: Request)
    requires line != [] && NoCrlf(line)
    ensures ParseLines(line + CRLF + rest, r)
         == match AddLine(r, line) case None => None case Some(next) => ParseLines(rest, next)
  {
    LineFound(line, rest);
    assert (line + CRLF + rest)[..|line|] == line && (line + CRLF + rest)[|line| + 2..] == rest;
  }

  /** The first of the lines, and what stands behind it. */
  lemma FirstCut(buffer: Bytes, lines: seq<Bytes>, blank: bool, body: Bytes) returns (rest: Bytes)
    requires CutInto(buffer, lines, blank, body) && lines != []
    ensures buffer == lines[0] + CRLF + rest && CutInto(rest, lines[1..], blank, body)
  {
    rest := HttpRequest.Print(lines[1..]) + (if blank then [13, 10] + body else body);
    RestIsCut(lines[1..], blank, body, rest);
  }

  lemma {:induction false} ReadsCut(buffer: Bytes, lines: seq<Bytes>, blank: bool, body: Bytes, r: Request)
    requires CutInto(buffer, lines, blank, body)
    ensures ParseLines(buffer, r) == match AddAll(r, lines) case None => None case Some(next) => Finish(body, next)
    decreases |lines|
  {
    if lines == [] {
      ReadsEnd(buffer, blank, body, r);
    } else {
      var line, behind := lines[0], lines[1..];
      var rest := FirstCut(buffer, lines, blank, body);
      ReadsOneLine(line, rest, r);
      AddFirst(r, line, behind);
      assert lines == [line] + behind;
      if AddLine(r, line).Some? {
        ReadsCut(rest, behind, blank, body, AddLine(r, line).value);
      }
    }
  }

  lemma RestIsCut(lines: seq<Bytes>, blank: bool, body: Bytes, rest: Bytes)
    requires AreLines(lines) && (!blank ==> NoCrlf(body))
    requires rest == HttpRequest.Print(lines) + (if blank then [13, 10] + body else body)
    ensures CutInto(rest, lines, blank, body)
  {
  }

  /** The first line gives the verb in lower case, the target and the protocol. */
  ghost predicate SaysFirst(line: Bytes, r: Request) {
    exists w: nat, j: nat, k: nat, e: nat ::
      && Matches(line, w, j, k, e) && HttpHeaders.LowerOf(line[w..j], r.verb)
      && r.url == line[j + 1..k] && r.protocol == line[k + 1..e]
  }

  /** The request says what its lines say. */
  ghost predicate SaysRequest(lines: seq<Bytes>, body: Bytes, r: Request)
    requires lines != []
  {
    && SaysFirst(lines[0], r) && HoldsSaid(r.headers, lines[1..])
    && r.body == if body == [] then None else Some(body)
  }

  lemma FirstAdded(line: Bytes)
    requires line != []
    ensures match AddLine(EMPTY, line)
            case None => NoMatch(line)
            case Some(r) => SaysFirst(line, r) && r.verb != [] && r.headers == map[] && r.body == None
  {
    ScanExactly(line, 0);
    if FirstLine(line, 0).Some? {
      var (a, b, c) := FirstLine(line, 0).value;
      var w: nat, j: nat, k: nat, e: nat :| GroupsOf(line, w, j, k, e, a, b, c);
      assert HttpHeaders.LowerOf(a, HttpResponse.Lower(a));
    }
  }

  lemma NothingHeld()
    ensures HoldsSaid(map[], [])
  {
  }

  lemma {:induction false} AllAdded(r: Request, lines: seq<Bytes>)
    requires r.verb != [] && r.headers == map[] && Filled(lines)
    ensures var next := AddAll(r, lines);
            && next.Some? && HoldsSaid(next.value.headers, lines) && next.value.(headers := r.headers) == r
    decreases |lines|
  {
    if lines == [] {
      NothingHeld();
    } else {
      var n := |lines| - 1;
      AllAdded(r, lines[..n]);
      OneMore(AddAll(r, lines[..n]).value.headers, lines[..n], lines[n]);
      assert lines[..n] + [lines[n]] == lines;
    }
  }

  /**
   A request is read if and only if the client sent something that does not begin with a
   star, there is a line with a line break behind it, and the first one has the three words;
   then it says what the lines say, and its body is all that stands behind the empty line,
   or behind the last line break if there is no empty line.
   */
  lemma RequestReadExactly(messages: seq<Bytes>) returns (lines: seq<Bytes>, blank: bool, body: Bytes)
    ensures CutInto(Concat(messages), lines, blank, body)
    ensures ParseRequest(messages).Some? <==>
            && messages != [] && (messages[0] != [] ==> messages[0][0] != 42)
            && lines != [] && !NoMatch(lines[0])
    ensures ParseRequest(messages).Some? ==> SaysRequest(lines, body, ParseRequest(messages).value)
  {
    lines, blank, body := CutExists(Concat(messages));
    ReadsCut(Concat(messages), lines, blank, body, EMPTY);
    if lines != [] {
      var line, behind := lines[0], lines[1..];
      assert lines == [line] + behind;
      AddFirst(EMPTY, line, behind);
      FirstAdded(line);
      if AddLine(EMPTY, line).Some? {
        AllAdded(AddLine(EMPTY, line).value, behind);
      }
    }
  }

  // ----- only so -----

  /** The leftmost match has only one set of words. */
  lemma MatchOnce(line: Bytes, w: nat, j: nat, k: nat, e: nat, x: nat, y: nat, z: nat, f: nat)
    requires Matches(line, w, j, k, e) && Matches(line, x, y, z, f)
    ensures w == x && j == y && k == z && e == f
  {
    WordUntil(line, w, j, k);
    WordUntil(line, x, y, z);
    LastOnce(line, j, k, e, z, f);
    LastOnce(line, j, z, f, k, e);
  }

  lemma LastOnce(line: Bytes, j: nat, k: nat, e: nat, z: nat, f: nat)
    requires j < k && LastWord(line, k, e) && z < |line| && line[z] == 32 && LastWord(line, z, f)
    requires forall p :: j < p < z ==> !IsBreak(line[p])
    ensures z <= k && (z == k ==> f <= e)
  {
    assert !(k < z < e);
    assert e < |line| ==> IsBreak(line[e]);
    assert !(k < e <= z);
  }

  lemma {:induction false} ValuesOnce(lines: seq<Bytes>, name: Bytes, a: seq<Bytes>, b: seq<Bytes>)
    requires Filled(lines) && ValuesSaid(lines, name, a) && ValuesSaid(lines, name, b)
    ensures a == b
    decreases |lines|
  {
    if lines != [] {
      var n := |lines| - 1;
      if Names(lines[n], name) {
        ValuesOnce(lines[..n], name, a[..|a| - 1], b[..|b| - 1]);
        FieldOnce(lines[n], name, a[|a| - 1]);
        FieldOnce(lines[n], name, b[|b| - 1]);
        assert a == a[..|a| - 1] + [a[|a| - 1]] && b == b[..|b| - 1] + [b[|b| - 1]];
      } else {
        ValuesOnce(lines[..n], name, a, b);
      }
    }
  }

  /** A header has one value if and only if exactly one line has its name, and says this. */
  lemma OneSaid(headers: map<Bytes, Value>, lines: seq<Bytes>, name: Bytes, value: Bytes)
    requires Filled(lines) && HoldsSaid(headers, lines)
    ensures name in headers && headers[name] == One(value) <==> ValuesSaid(lines, name, [value])
  {
    if ValuesSaid(lines, name, [value]) {
      ValuesOnce(lines, name, [value], Held(headers, name));
    }
  }
}
