/**
 What the header lines of a response say: the name in lower case, the value between the
 first two separators, and of several lines with one name the last one.
 */
module HttpHeaders {
  import opened ByteData
  import opened HttpResponse

  // ----- one line -----

  /** ": " stands here. */
  predicate SepAt(text: Bytes, i: int) {
    0 <= i < |text| - 1 && text[i] == 58 && text[i + 1] == 32
  }

  predicate NoSep(text: Bytes) {
    forall i :: 0 <= i < |text| ==> !SepAt(text, i)
  }

  /** The ASCII lower case: the letters A to Z go up by 32, all else stays. */
  predicate LowerOf(key: Bytes, name: Bytes) {
    |name| == |key| && forall i :: 0 <= i < |key| ==> name[i] == if 65 <= key[i] <= 90 then key[i] + 32 else key[i]
  }

  /** The line is the name in any case, and the value behind a separator, up to another one if there is one. */
  predicate SpelledBy(line: Bytes, name: Bytes, value: Bytes, key: Bytes, more: Bytes) {
    && LowerOf(key, name) && NoSep(key) && NoSep(value)
    && line == key + [58, 32] + value + more && (more == [] || SepAt(more, 0))
  }

  /** A header line says that the name has this value, or, without a separator, that it has none. */
  ghost predicate Spells(line: Bytes, name: Bytes, value: Option<Bytes>) {
    match value
    case None => LowerOf(line, name) && NoSep(line)
    case Some(v) => exists key, more :: SpelledBy(line, name, v, key, more)
  }

  lemma SepOccurs(text: Bytes, i: nat)
    ensures OccursAt(text, COLON_SPACE, i) <==> SepAt(text, i)
  {
    if i + 2 <= |text| {
      assert text[i..i + 2] == [text[i], text[i + 1]];
    }
  }

  lemma {:induction false} SplitsAt(text: Bytes, i: nat, j: nat)
    requires i <= j && SepAt(text, j) && forall k :: i <= k < j ==> !SepAt(text, k)
    ensures SplitAt(text, COLON_SPACE, i) == (text[..j], Some(SplitAt(text[j + 2..], COLON_SPACE, 0).0))
    decreases j - i
  {
    SepOccurs(text, i);
    if i < j {
      SplitsAt(text, i + 1, j);
    }
  }

  lemma {:induction false} SplitsNot(text: Bytes, i: nat)
    requires i <= |text| && forall k :: i <= k < |text| ==> !SepAt(text, k)
    ensures SplitAt(text, COLON_SPACE, i) == (text, None)
    decreases |text| - i
  {
    if i < |text| {
      SepOccurs(text, i);
      SplitsNot(text, i + 1);
    }
  }

  /** The first separator, or the end. */
  lemma {:induction false} FirstSep(text: Bytes, i: nat) returns (j: nat)
    requires i <= |text|
    ensures i <= j <= |text| && (j < |text| ==> SepAt(text, j)) && forall k :: i <= k < j ==> !SepAt(text, k)
    decreases |text| - i
  {
    if i == |text| || SepAt(text, i) {
      j := i;
    } else {
      j := FirstSep(text, i + 1);
    }
  }

  /** A text without separator, in front of one or of nothing, is what the split gives first. */
  lemma SplitsFirst(value: Bytes, more: Bytes)
    requires NoSep(value) && (more == [] || SepAt(more, 0))
    ensures SplitAt(value + more, COLON_SPACE, 0).0 == value
  {
    var text, j := value + more, |value|;
    forall k | 0 <= k < j
      ensures !SepAt(text, k)
    {
      assert k + 1 < j ==> !SepAt(value, k);
    }
    if more == [] {
      assert text == value;
      SplitsNot(text, 0);
    } else {
      assert SepAt(text, j) && text[..j] == value;
      SplitsAt(text, 0, j);
    }
  }

  /** What is written is what is read. */
  lemma SpelledRead(line: Bytes, name: Bytes, value: Option<Bytes>)
    requires Spells(line, name, value)
    ensures SplitHeader(line) == (name, value)
  {
    if value == None {
      SplitsNot(line, 0);
      assert Lower(line) == name;
    } else {
      var key, more :| SpelledBy(line, name, value.value, key, more);
      KeyRead(line, key, value.value, more);
      assert Lower(key) == name;
    }
  }

  lemma KeyRead(line: Bytes, key: Bytes, value: Bytes, more: Bytes)
    requires NoSep(key) && NoSep(value) && (more == [] || SepAt(more, 0)) && line == key + [58, 32] + value + more
    ensures SplitAt(line, COLON_SPACE, 0) == (key, Some(value))
  {
    var j := |key|;
    assert SepAt(line, j) && line[..j] == key && line[j + 2..] == value + more;
    forall k | 0 <= k < j
      ensures !SepAt(line, k)
    {
      assert k + 1 < j ==> !SepAt(key, k);
    }
    SplitsAt(line, 0, j);
    SplitsFirst(value, more);
  }

  /** What is read is written there. */
  lemma ReadSpelled(line: Bytes)
    ensures Spells(line, SplitHeader(line).0, SplitHeader(line).1)
  {
    var j := FirstSep(line, 0);
    if j == |line| {
      SplitsNot(line, 0);
    } else {
      var rest := line[j + 2..];
      var i := FirstSep(rest, 0);
      var key, value, more := line[..j], rest[..i], rest[i..];
      NoneBefore(line, j);
      NoneBefore(rest, i);
      assert line == key + [58, 32] + value + more;
      KeyRead(line, key, value, more);
      assert SpelledBy(line, SplitHeader(line).0, value, key, more);
    }
  }

  lemma NoneBefore(text: Bytes, j: nat)
    requires j <= |text| && forall k :: 0 <= k < j ==> !SepAt(text, k)
    ensures NoSep(text[..j])
  {
    forall i | 0 <= i < j
      ensures !SepAt(text[..j], i)
    {
      assert !SepAt(text, i);
    }
  }

  /** A header line is read as exactly what it says. */
  lemma SplitHeaderExactly(line: Bytes, name: Bytes, value: Option<Bytes>)
    ensures SplitHeader(line) == (name, value) <==> Spells(line, name, value)
  {
    ReadSpelled(line);
    if Spells(line, name, value) {
      SpelledRead(line, name, value);
    }
  }

  // ----- all lines -----

  ghost predicate Names(line: Bytes, name: Bytes) {
    exists value :: Spells(line, name, value)
  }

  /** Line `k` says so, and none behind it has the name. */
  ghost predicate SaysLast(lines: seq<Bytes>, k: nat, name: Bytes, value: Option<Bytes>) {
    k < |lines| && Spells(lines[k], name, value) && forall j :: k < j < |lines| ==> !Names(lines[j], name)
  }

  /** The last line with the name gives it this value. */
  ghost predicate Says(lines: seq<Bytes>, name: Bytes, value: Option<Bytes>) {
    exists k: nat :: SaysLast(lines, k, name, value)
  }

  lemma OneSaying(lines: seq<Bytes>, name: Bytes, v: Option<Bytes>, w: Option<Bytes>)
    requires Says(lines, name, v) && Says(lines, name, w)
    ensures v == w
  {
    var i: nat :| SaysLast(lines, i, name, v);
    var k: nat :| SaysLast(lines, k, name, w);
    assert Names(lines[i], name) && Names(lines[k], name);
    SplitHeaderExactly(lines[i], name, v);
    SplitHeaderExactly(lines[i], name, w);
  }

  /** Where line `k` begins when the first one begins at `at`. */
  function LineAt(lines: seq<Bytes>, at: nat, k: nat): nat
    requires k <= |lines|
  {
    if k == 0 then at else LineAt(lines, at, k - 1) + |lines[k - 1]| + 2
  }

  lemma {:induction false} LineAtPrefix(lines: seq<Bytes>, more: seq<Bytes>, at: nat, k: nat)
    requires k <= |lines|
    ensures LineAt(lines + more, at, k) == LineAt(lines, at, k)
    decreases k
  {
    if k > 0 {
      LineAtPrefix(lines, more, at, k - 1);
    }
  }

  /** The header's value and place are those of the last line with its name. */
  ghost predicate RecordedFrom(headers: map<Bytes, Option<Bytes>>, indices: map<Bytes, Slice>, lines: seq<Bytes>, at: nat,
                               name: Bytes, k: nat)
  {
    && name in headers && name in indices && SaysLast(lines, k, name, headers[name])
    && indices[name] == Slice(LineAt(lines, at, k), LineAt(lines, at, k) + |lines[k]|)
  }

  /** The header is what the lines say, or is none of theirs. */
  ghost predicate AsSaid(headers: map<Bytes, Option<Bytes>>, indices: map<Bytes, Slice>, lines: seq<Bytes>, at: nat, name: Bytes) {
    && (name in indices <==> name in headers)
    && (name in headers ==> exists k: nat :: RecordedFrom(headers, indices, lines, at, name, k))
    && (name !in headers ==> forall k :: 0 <= k < |lines| ==> !Names(lines[k], name))
  }

  /** The headers and their indices are what the lines say, the first of which begins at `at`. */
  ghost predicate Recorded(headers: map<Bytes, Option<Bytes>>, indices: map<Bytes, Slice>, lines: seq<Bytes>, at: nat) {
    forall name :: AsSaid(headers, indices, lines, at, name)
  }

  lemma NoneRecorded(at: nat)
    ensures Recorded(map[], map[], [], at)
  {
  }

  /** One line more. */
  lemma RecordedSnoc(headers: map<Bytes, Option<Bytes>>, indices: map<Bytes, Slice>, lines: seq<Bytes>, at: nat, line: Bytes,
                     from: nat)
    requires Recorded(headers, indices, lines, at) && from == LineAt(lines, at, |lines|)
    ensures Recorded(headers[SplitHeader(line).0 := SplitHeader(line).1],
                     indices[SplitHeader(line).0 := Slice(from, from + |line|)], lines + [line], at)
  {
    var name, value, all := SplitHeader(line).0, SplitHeader(line).1, lines + [line];
    var hs, ix := headers[name := value], indices[name := Slice(from, from + |line|)];
    forall key
      ensures AsSaid(hs, ix, all, at, key)
    {
      assert AsSaid(headers, indices, lines, at, key);
      if key == name {
        LineRecorded(hs, ix, lines, at, line);
      } else if key in headers {
        var k: nat :| RecordedFrom(headers, indices, lines, at, key, k);
        StillRecorded(headers, indices, hs, ix, lines, at, line, key, k);
      } else {
        StillUnnamed(lines, line, key);
      }
    }
  }

  lemma StillUnnamed(lines: seq<Bytes>, line: Bytes, name: Bytes)
    requires SplitHeader(line).0 != name && forall k :: 0 <= k < |lines| ==> !Names(lines[k], name)
    ensures forall k :: 0 <= k < |lines + [line]| ==> !Names((lines + [line])[k], name)
  {
    if Names(line, name) {
      NamedOnce(line, name);
    }
  }

  lemma NamedOnce(line: Bytes, name: Bytes)
    requires Names(line, name)
    ensures SplitHeader(line).0 == name
  {
    var value :| Spells(line, name, value);
    SplitHeaderExactly(line, name, value);
  }

  lemma LineRecorded(hs: map<Bytes, Option<Bytes>>, ix: map<Bytes, Slice>, lines: seq<Bytes>, at: nat, line: Bytes)
    requires var (name, value) := SplitHeader(line);
             var from := LineAt(lines, at, |lines|);
             name in hs && name in ix && hs[name] == value && ix[name] == Slice(from, from + |line|)
    ensures RecordedFrom(hs, ix, lines + [line], at, SplitHeader(line).0, |lines|)
  {
    var (name, value) := SplitHeader(line);
    SplitHeaderExactly(line, name, value);
    LineAtPrefix(lines, [line], at, |lines|);
    assert SaysLast(lines + [line], |lines|, name, value);
  }

  lemma StillRecorded(headers: map<Bytes, Option<Bytes>>, indices: map<Bytes, Slice>, hs: map<Bytes, Option<Bytes>>,
                      ix: map<Bytes, Slice>, lines: seq<Bytes>, at: nat, line: Bytes, key: Bytes, k: nat)
    requires RecordedFrom(headers, indices, lines, at, key, k) && SplitHeader(line).0 != key
    requires key in hs && key in ix && hs[key] == headers[key] && ix[key] == indices[key]
    ensures RecordedFrom(hs, ix, lines + [line], at, key, k)
  {
    var all := lines + [line];
    LineAtPrefix(lines, [line], at, k);
    forall j | k < j < |all|
      ensures !Names(all[j], key)
    {
      if j == |lines| && Names(line, key) {
        NamedOnce(line, key);
      }
    }
    assert all[k] == lines[k];
  }

  /** The headers that the first `k` lines leave, line by line. */
  function HeadersTo(lines: seq<Bytes>, k: nat): map<Bytes, Option<Bytes>>
    requires k <= |lines|
  {
    if k == 0 then map[] else HeadersTo(lines, k - 1)[SplitHeader(lines[k - 1]).0 := SplitHeader(lines[k - 1]).1]
  }

  function IndicesTo(lines: seq<Bytes>, at: nat, k: nat): map<Bytes, Slice>
    requires k <= |lines|
  {
    if k == 0 then map[]
    else
      var from := LineAt(lines, at, k - 1);
      IndicesTo(lines, at, k - 1)[SplitHeader(lines[k - 1]).0 := Slice(from, from + |lines[k - 1]|)]
  }

  lemma ToRecorded(lines: seq<Bytes>, at: nat, n: nat)
    requires n <= |lines|
    ensures Recorded(HeadersTo(lines, n), IndicesTo(lines, at, n), lines[..n], at)
  {
    NoneRecorded(at);
    var done := [];
    for k := 0 to n
      invariant done == lines[..k] && Recorded(HeadersTo(lines, k), IndicesTo(lines, at, k), done, at)
    {
      NextRecorded(lines, at, k, done);
      done := done + [lines[k]];
    }
  }

  lemma NextRecorded(lines: seq<Bytes>, at: nat, k: nat, done: seq<Bytes>)
    requires k < |lines| && done == lines[..k] && Recorded(HeadersTo(lines, k), IndicesTo(lines, at, k), done, at)
    ensures Recorded(HeadersTo(lines, k + 1), IndicesTo(lines, at, k + 1), done + [lines[k]], at)
  {
    SameStart(lines, done, at, k);
    RecordedSnoc(HeadersTo(lines, k), IndicesTo(lines, at, k), done, at, lines[k], LineAt(lines, at, k));
  }

  lemma SameStart(lines: seq<Bytes>, done: seq<Bytes>, at: nat, k: nat)
    requires k <= |lines| && done == lines[..k]
    ensures LineAt(done, at, |done|) == LineAt(lines, at, k)
  {
    assert done + lines[k..] == lines;
    LineAtPrefix(done, lines[k..], at, k);
  }

  /** A header has a value exactly when the lines say so. */
  lemma SaidExactly(headers: map<Bytes, Option<Bytes>>, indices: map<Bytes, Slice>, lines: seq<Bytes>, at: nat,
                    name: Bytes, value: Option<Bytes>)
    requires Recorded(headers, indices, lines, at)
    ensures name in headers && headers[name] == value <==> Says(lines, name, value)
  {
    assert AsSaid(headers, indices, lines, at, name);
    SayingNames(lines, name, value);
    if name in headers {
      var k: nat :| RecordedFrom(headers, indices, lines, at, name, k);
      if Says(lines, name, value) {
        OneSaying(lines, name, value, headers[name]);
      }
    }
  }

  lemma SayingNames(lines: seq<Bytes>, name: Bytes, value: Option<Bytes>)
    ensures Says(lines, name, value) ==> exists k :: 0 <= k < |lines| && Names(lines[k], name)
  {
    if Says(lines, name, value) {
      var k: nat :| SaysLast(lines, k, name, value);
      assert Names(lines[k], name);
    }
  }

  // ----- what they say of the body -----

  /** The transfer coding names "chunked". */
  ghost predicate SaysChunked(lines: seq<Bytes>) {
    exists a, b :: Says(lines, Ascii("transfer-encoding"), Some(a + Ascii("chunked") + b))
  }

  /** There is a length that is not the empty text. */
  ghost predicate SaysLength(lines: seq<Bytes>, value: Bytes) {
    value != [] && Says(lines, Ascii("content-length"), Some(value))
  }

  ghost predicate SaysEmpty(lines: seq<Bytes>) {
    Says(lines, Ascii("content-length"), Some([48]))
  }

  lemma Included(text: Bytes, part: Bytes)
    requires part != []
    ensures Includes(text, part) <==> exists a, b :: text == a + part + b
  {
    if Includes(text, part) {
      var i :| 0 <= i < |text| && OccursAt(text, part, i);
      assert text == text[..i] + part + text[i + |part|..];
    }
    if a, b :| text == a + part + b {
      assert OccursAt(text, part, |a|);
    }
  }

  lemma ChunkedSaid(st: State, lines: seq<Bytes>, at: nat)
    requires Recorded(st.headers, st.headerIndices, lines, at)
    ensures DeclaredChunked(st) <==> SaysChunked(lines)
  {
    var name, part := Ascii("transfer-encoding"), Ascii("chunked");
    if DeclaredChunked(st) {
      var text := st.headers[name].value;
      SaidExactly(st.headers, st.headerIndices, lines, at, name, Some(text));
      Included(text, part);
      var a, b :| text == a + part + b;
    }
    if a, b :| Says(lines, name, Some(a + part + b)) {
      SaidExactly(st.headers, st.headerIndices, lines, at, name, Some(a + part + b));
      Included(a + part + b, part);
    }
  }

  lemma LengthSaid(js: Readers, st: State, lines: seq<Bytes>, at: nat, value: Bytes)
    requires Recorded(st.headers, st.headerIndices, lines, at)
    ensures SaysLength(lines, value) ==> DeclaredLength(js, st) == js.number(value)
    ensures (forall v :: !SaysLength(lines, v)) ==> DeclaredLength(js, st) == -1
    ensures Header(st, CONTENT_LENGTH) == Some(ZERO_TEXT) <==> SaysEmpty(lines)
  {
    var name := Ascii("content-length");
    SaidExactly(st.headers, st.headerIndices, lines, at, name, Some(value));
    SaidExactly(st.headers, st.headerIndices, lines, at, name, Some([48]));
    if name in st.headers && st.headers[name].Some? {
      SaidExactly(st.headers, st.headerIndices, lines, at, name, st.headers[name]);
      assert st.headers[name].value != [] ==> SaysLength(lines, st.headers[name].value);
    }
  }
}
