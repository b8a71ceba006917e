/**
 Substitution of `{{parameter}}` values, the parts it hides, and the round trip: the
 client redacts the hidden parts, the attestor matches the result against the template.
 */
module Template {
  import opened ByteData
  import opened Redaction
  import opened Match

  // ----- what the pattern `{{([^{}]+)}}` finds -----

  datatype Segment = Plain(b: Byte) | Param(name: Bytes)

  predicate IsBrace(b: Byte) {
    b == OPEN || b == CLOSE
  }

  predicate IsName(name: Bytes) {
    name != [] && OPEN !in name && CLOSE !in name
  }

  function Bracketed(name: Bytes): Bytes {
    [OPEN, OPEN] + name + [CLOSE, CLOSE]
  }

  /** The first brace from `j` on, or the end. */
  function NameEnd(t: Bytes, j: nat): (e: nat)
    requires j <= |t|
    ensures j <= e <= |t|
    ensures forall i :: j <= i < e ==> !IsBrace(t[i])
    ensures e < |t| ==> IsBrace(t[e])
    decreases |t| - j
  {
    if j == |t| || IsBrace(t[j]) then j else NameEnd(t, j + 1)
  }

  /** The name of the parameter that begins at `i`, if one does. */
  function ParamAt(t: Bytes, i: nat): (name: Option<Bytes>)
    ensures name.Some? ==>
              && IsName(name.value) && i + |name.value| + 4 <= |t|
              && t[i..i + |name.value| + 4] == Bracketed(name.value)
  {
    if i + 2 <= |t| && t[i] == OPEN && t[i + 1] == OPEN then
      var e := NameEnd(t, i + 2);
      if e > i + 2 && e + 1 < |t| && t[e] == CLOSE && t[e + 1] == CLOSE then
        assert t[i..e + 2] == Bracketed(t[i + 2..e]);
        Some(t[i + 2..e])
      else None
    else None
  }

  /** The bytes of a bracketed name at `i`. */
  lemma BracketedBytes(t: Bytes, i: nat, name: Bytes, e: nat)
    requires IsName(name) && e == i + 2 + |name| && e + 2 <= |t| && t[i..e + 2] == Bracketed(name)
    ensures t[i] == t[i + 1] == OPEN && t[e] == t[e + 1] == CLOSE && t[i + 2..e] == name
    ensures forall k :: i + 2 <= k < e ==> !IsBrace(t[k])
  {
    var whole := t[i..e + 2];
    assert t[i] == whole[0] && t[i + 1] == whole[1] && t[e] == whole[e - i] && t[e + 1] == whole[e + 1 - i];
    assert forall k :: i + 2 <= k < e ==> t[k] == whole[k - i] == name[k - i - 2] && name[k - i - 2] in name;
  }

  /** Every place where a bracketed name stands is found. */
  lemma ParamAtComplete(t: Bytes, i: nat, name: Bytes)
    requires IsName(name) && i + |name| + 4 <= |t| && t[i..i + |name| + 4] == Bracketed(name)
    ensures ParamAt(t, i) == Some(name)
  {
    var e := i + 2 + |name|;
    BracketedBytes(t, i, name, e);
    assert NameEnd(t, i + 2) == e;
  }

  /** What begins at `i`: a parameter if the pattern matches there, or else one byte. */
  function SegmentAt(t: Bytes, i: nat): Segment
    requires i < |t|
  {
    var name := ParamAt(t, i);
    if name.Some? then Param(name.value) else Plain(t[i])
  }

  /** How much of the template a segment takes. */
  function Size(s: Segment): (n: nat)
    ensures n > 0
  {
    if s.Plain? then 1 else |s.name| + 4
  }

  lemma SizeFits(t: Bytes, i: nat)
    requires i < |t|
    ensures i + Size(SegmentAt(t, i)) <= |t|
  {
  }

  /** The text from `i` on, as the replacement walks it: leftmost matches, none overlapping. */
  function Segments(t: Bytes, i: nat): seq<Segment>
    requires i <= |t|
    decreases |t| - i
  {
    if i == |t| then []
    else
      SizeFits(t, i);
      [SegmentAt(t, i)] + Segments(t, i + Size(SegmentAt(t, i)))
  }

  // ----- substitution -----

  /** The values at hand; the attestor has no secret ones and leaves what is missing. */
  datatype Values = Values(public: map<Bytes, Bytes>, secret: Option<map<Bytes, Bytes>>, ignoreMissing: bool)

  datatype Piece = Piece(text: Bytes, hidden: bool)

  /** What takes the segment's place; nothing when a value is missing. */
  function PieceOf(v: Values, s: Segment): Option<Piece> {
    match s
    case Plain(b) => Some(Piece([b], false))
    case Param(name) =>
      if name in v.public then Some(Piece(v.public[name], false))
      else if v.secret.Some? then
        if name in v.secret.value then Some(Piece(v.secret.value[name], true)) else None
      else if v.ignoreMissing then Some(Piece(Bracketed(name), false))
      else None
  }

  predicate AllFound(v: Values, segments: seq<Segment>) {
    forall k :: 0 <= k < |segments| ==> PieceOf(v, segments[k]).Some?
  }

  function Pieces(v: Values, segments: seq<Segment>): (pieces: seq<Piece>)
    requires AllFound(v, segments)
    ensures |pieces| == |segments|
    ensures forall k :: 0 <= k < |segments| ==> pieces[k] == PieceOf(v, segments[k]).value
  {
    seq(|segments|, k requires 0 <= k < |segments| => PieceOf(v, segments[k]).value)
  }

  function Text(pieces: seq<Piece>): Bytes {
    if pieces == [] then [] else Text(pieces[..|pieces| - 1]) + pieces[|pieces| - 1].text
  }

  /** The hidden pieces, each at the place its text has in the whole. */
  function Hidden(pieces: seq<Piece>): seq<Redaction> {
    if pieces == [] then []
    else
      var n := |pieces| - 1;
      var at := |Text(pieces[..n])|;
      Hidden(pieces[..n])
      + if pieces[n].hidden then [Redaction(at, at + |pieces[n].text|, false)] else []
  }

  datatype Replaced = Replaced(newParam: Bytes, hiddenParts: seq<Redaction>) | Missing

  lemma TextSnoc(pieces: seq<Piece>, p: Piece)
    ensures Text(pieces + [p]) == Text(pieces) + p.text
    ensures Hidden(pieces + [p]) == Hidden(pieces)
            + if p.hidden then [Redaction(|Text(pieces)|, |Text(pieces)| + |p.text|, false)] else []
  {
    assert (pieces + [p])[..|pieces|] == pieces;
  }

  /** The template is cut into the segments before `i` and those from there on. */
  ghost predicate CutAt(t: Bytes, before: seq<Segment>, i: nat) {
    i <= |t| && before + Segments(t, i) == Segments(t, 0)
  }

  lemma CutDone(t: Bytes, before: seq<Segment>)
    requires CutAt(t, before, |t|)
    ensures before == Segments(t, 0)
  {
    assert before + [] == before;
  }

  lemma CutNext(t: Bytes, before: seq<Segment>, i: nat)
    requires i < |t| && CutAt(t, before, i)
    ensures SegmentAt(t, i) in Segments(t, 0)
    ensures CutAt(t, before + [SegmentAt(t, i)], i + Size(SegmentAt(t, i)))
  {
    SizeFits(t, i);
    var s, rest := SegmentAt(t, i), Segments(t, i + Size(SegmentAt(t, i)));
    assert Segments(t, i) == [s] + rest;
    assert before + ([s] + rest) == (before + [s]) + rest;
    assert Segments(t, 0)[|before|] == s;
  }

  /** The text and the hidden parts that the pieces of the segments make up. */
  ghost predicate Made(v: Values, segments: seq<Segment>, newParam: Bytes, hiddenParts: seq<Redaction>) {
    AllFound(v, segments)
    && newParam == Text(Pieces(v, segments)) && hiddenParts == Hidden(Pieces(v, segments))
  }

  lemma NotFound(v: Values, segments: seq<Segment>, s: Segment)
    requires s in segments && PieceOf(v, s) == None
    ensures !AllFound(v, segments)
  {
    var k :| 0 <= k < |segments| && segments[k] == s;
  }

  /**
   The callback of the replacement: the piece for a match at `offset`. A hidden part is
   recorded there, moved by how much the replacements so far changed the length.
   */
  method ReplaceMatch(v: Values, pn: Bytes, offset: nat, totalOffset: int)
    returns (piece: Option<Piece>, total: int, hiddenPart: seq<Redaction>)
    requires offset + totalOffset >= 0
    ensures piece == PieceOf(v, Param(pn))
    ensures piece.Some? ==> total == totalOffset + |piece.value.text| - (|pn| + 4)
    ensures piece.Some? ==>
              var at := offset + totalOffset;
              hiddenPart == if piece.value.hidden then [Redaction(at, at + |piece.value.text|, false)] else []
  {
    total, hiddenPart := totalOffset, [];
    if pn in v.public {
      return Some(Piece(v.public[pn], false)), total + |v.public[pn]| - |Bracketed(pn)|, [];
    } else if v.secret.Some? {
      if pn !in v.secret.value {
        return None, total, [];
      }
      var value := v.secret.value[pn];
      hiddenPart := [Redaction(offset + totalOffset, offset + totalOffset + |value|, false)];
      return Some(Piece(value, true)), total + |value| - |Bracketed(pn)|, hiddenPart;
    } else if v.ignoreMissing {
      return Some(Piece(Bracketed(pn), false)), total, [];
    } else {
      return None, total, [];
    }
  }

  /** A match is replaced by the callback's result; anything else stays. */
  method NextPiece(v: Values, s: Segment, offset: nat, totalOffset: int)
    returns (piece: Option<Piece>, total: int, hiddenPart: seq<Redaction>)
    requires offset + totalOffset >= 0
    ensures piece == PieceOf(v, s)
    ensures piece.Some? ==> total == totalOffset + |piece.value.text| - Size(s)
    ensures piece.Some? ==>
              var at := offset + totalOffset;
              hiddenPart == if piece.value.hidden then [Redaction(at, at + |piece.value.text|, false)] else []
  {
    match s
    case Plain(b) => return Some(Piece([b], false)), totalOffset, [];
    case Param(name) => piece, total, hiddenPart := ReplaceMatch(v, name, offset, totalOffset);
  }

  /** `extractAndReplaceTemplateValues`. */
  method ExtractAndReplace(v: Values, t: Bytes) returns (result: Replaced)
    ensures var segments := Segments(t, 0);
            result == if AllFound(v, segments)
                      then Replaced(Text(Pieces(v, segments)), Hidden(Pieces(v, segments)))
                      else Missing
  {
    var newParam: Bytes, hiddenParts: seq<Redaction> := [], [];
    var totalOffset: int := 0;
    var offset: nat := 0;
    ghost var segments: seq<Segment> := [];
    Begins(v, t);
    while offset < |t|
      invariant Replacing(v, t, segments, offset, newParam, hiddenParts)
      invariant totalOffset == |newParam| - offset
      decreases |t| - offset
    {
      SizeFits(t, offset);
      var s := SegmentAt(t, offset);
      var piece, total, hiddenPart := NextPiece(v, s, offset, totalOffset);
      if piece == None {
        NotReplaced(v, t, segments, offset, s);
        return Missing;
      }
      totalOffset := total;
      ReplacesNext(v, t, segments, offset, s, newParam, hiddenParts);
      newParam, hiddenParts := newParam + piece.value.text, hiddenParts + hiddenPart;
      offset := offset + Size(s);
      segments := segments + [s];
    }
    AllReplaced(v, t, segments, newParam, hiddenParts);
    return Replaced(newParam, hiddenParts);
  }

  lemma NotReplaced(v: Values, t: Bytes, segments: seq<Segment>, offset: nat, s: Segment)
    requires CutAt(t, segments, offset) && offset < |t| && s == SegmentAt(t, offset) && PieceOf(v, s) == None
    ensures !AllFound(v, Segments(t, 0))
  {
    CutNext(t, segments, offset);
    NotFound(v, Segments(t, 0), s);
  }

  lemma AllReplaced(v: Values, t: Bytes, segments: seq<Segment>, newParam: Bytes, hiddenParts: seq<Redaction>)
    requires Replacing(v, t, segments, |t|, newParam, hiddenParts)
    ensures var all := Segments(t, 0);
            AllFound(v, all) && newParam == Text(Pieces(v, all)) && hiddenParts == Hidden(Pieces(v, all))
  {
    CutDone(t, segments);
  }

  lemma ReplacesNext(v: Values, t: Bytes, segments: seq<Segment>, offset: nat, s: Segment,
                     newParam: Bytes, hiddenParts: seq<Redaction>)
    requires Replacing(v, t, segments, offset, newParam, hiddenParts)
    requires offset < |t| && s == SegmentAt(t, offset) && PieceOf(v, s).Some?
    ensures var piece := PieceOf(v, s).value;
            Replacing(v, t, segments + [s], offset + Size(s), newParam + piece.text,
                      hiddenParts + if piece.hidden
                                    then [Redaction(|newParam|, |newParam| + |piece.text|, false)] else [])
  {
    CutNext(t, segments, offset);
    Extend(v, segments, s, newParam, hiddenParts);
  }

  /** The text is cut up to the offset, and what is in front of it replaced. */
  ghost predicate Replacing(v: Values, t: Bytes, segments: seq<Segment>, offset: nat, newParam: Bytes, hiddenParts: seq<Redaction>) {
    CutAt(t, segments, offset) && Made(v, segments, newParam, hiddenParts)
  }

  lemma Begins(v: Values, t: Bytes)
    ensures Replacing(v, t, [], 0, [], [])
  {
    assert [] + Segments(t, 0) == Segments(t, 0);
  }

  lemma Extend(v: Values, segments: seq<Segment>, s: Segment, newParam: Bytes, hiddenParts: seq<Redaction>)
    requires Made(v, segments, newParam, hiddenParts) && PieceOf(v, s).Some?
    ensures var piece := PieceOf(v, s).value;
            Made(v, segments + [s], newParam + piece.text,
                 hiddenParts + if piece.hidden
                               then [Redaction(|newParam|, |newParam| + |piece.text|, false)] else [])
  {
    assert Pieces(v, segments + [s]) == Pieces(v, segments) + [PieceOf(v, s).value];
    TextSnoc(Pieces(v, segments), PieceOf(v, s).value);
  }

  // ----- the hidden parts name exactly the secrets -----

  lemma {:induction false} TextPrefix(pieces: seq<Piece>, n: nat)
    requires n <= |pieces|
    ensures |Text(pieces[..n])| <= |Text(pieces)|
    ensures Text(pieces)[..|Text(pieces[..n])|] == Text(pieces[..n])
    decreases |pieces|
  {
    if n == |pieces| {
      assert pieces[..n] == pieces;
    } else {
      var m := |pieces| - 1;
      assert pieces[..m][..n] == pieces[..n];
      TextPrefix(pieces[..m], n);
      assert Text(pieces) == Text(pieces[..m]) + pieces[m].text;
    }
  }

  /** Where a piece stands in the whole text. */
  lemma PieceStands(pieces: seq<Piece>, k: nat)
    requires k < |pieces|
    ensures var at := |Text(pieces[..k])|;
            at + |pieces[k].text| <= |Text(pieces)| && Text(pieces)[at..at + |pieces[k].text|] == pieces[k].text
  {
    assert pieces[..k + 1][..k] == pieces[..k];
    TextPrefix(pieces, k + 1);
    var at, upTo := |Text(pieces[..k])|, Text(pieces[..k + 1]);
    assert upTo[at..] == pieces[k].text;
    assert Text(pieces)[at..|upTo|] == Text(pieces)[..|upTo|][at..];
  }

  /** A hidden part is recorded for every secret, at its place, and for nothing else. */
  lemma {:induction false} HiddenExactly(pieces: seq<Piece>, r: Redaction)
    ensures r in Hidden(pieces) <==>
            exists k :: 0 <= k < |pieces| && HiddenAt(pieces, k, r)
    decreases |pieces|
  {
    if pieces != [] {
      var n := |pieces| - 1;
      HiddenExactly(pieces[..n], r);
      forall k | 0 <= k < n
        ensures HiddenAt(pieces[..n], k, r) <==> HiddenAt(pieces, k, r)
      {
        assert pieces[..n][..k] == pieces[..k];
      }
      if HiddenAt(pieces, n, r) {
        assert r in Hidden(pieces);
      }
    }
  }

  predicate HiddenAt(pieces: seq<Piece>, k: int, r: Redaction)
    requires 0 <= k < |pieces|
  {
    var at := |Text(pieces[..k])|;
    pieces[k].hidden && r == Redaction(at, at + |pieces[k].text|, false)
  }

  /** Each hidden part names the secret substituted for one of the parameters. */
  lemma HiddenNamesSecret(v: Values, segments: seq<Segment>, r: Redaction) returns (k: nat)
    requires AllFound(v, segments) && r in Hidden(Pieces(v, segments))
    ensures k < |segments| && segments[k].Param? && segments[k].name !in v.public && v.secret.Some?
    ensures segments[k].name in v.secret.value
    ensures r.fromIndex <= r.toIndex <= |Text(Pieces(v, segments))|
    ensures Text(Pieces(v, segments))[r.fromIndex..r.toIndex] == v.secret.value[segments[k].name]
  {
    var pieces := Pieces(v, segments);
    HiddenExactly(pieces, r);
    k :| 0 <= k < |pieces| && HiddenAt(pieces, k, r);
    PieceStands(pieces, k);
  }

  // ----- the redacted text, piece by piece -----

  function RedactedPiece(p: Piece): (r: Piece)
    ensures |r.text| == |p.text|
  {
    if p.hidden then Piece(Fill(STAR, |p.text|), true) else p
  }

  function RedactedPieces(pieces: seq<Piece>): (r: seq<Piece>)
    ensures |r| == |pieces| && forall k :: 0 <= k < |r| ==> r[k] == RedactedPiece(pieces[k])
  {
    seq(|pieces|, k requires 0 <= k < |pieces| => RedactedPiece(pieces[k]))
  }

  lemma StarredNext(text: Bytes, more: Bytes, rs: seq<Redaction>, stars: bool)
    requires forall k :: 0 <= k < |rs| ==> rs[k].toIndex <= |text|
    ensures Starred(text + more, rs + if stars then [Redaction(|text|, |text| + |more|, false)] else [])
         == Starred(text, rs) + if stars then Fill(STAR, |more|) else more
  {
    var next := rs + if stars then [Redaction(|text|, |text| + |more|, false)] else [];
    forall p | 0 <= p < |text + more|
      ensures Starred(text + more, next)[p]
           == (Starred(text, rs) + if stars then Fill(STAR, |more|) else more)[p]
    {
      if p < |text| {
        CoveredFront(rs, next, p, |text|);
      } else if stars {
        assert Covers(next[|rs|], p);
      } else {
        assert next == rs;
      }
    }
  }

  lemma CoveredFront(rs: seq<Redaction>, next: seq<Redaction>, p: int, at: int)
    requires rs <= next && p < at && forall k :: |rs| <= k < |next| ==> next[k].fromIndex >= at
    ensures Covered(next, p) <==> Covered(rs, p)
  {
    if Covered(rs, p) {
      var k :| 0 <= k < |rs| && Covers(rs[k], p);
      assert Covers(next[k], p);
    }
  }

  lemma {:induction false} HiddenInside(pieces: seq<Piece>)
    ensures forall k :: 0 <= k < |Hidden(pieces)| ==> Hidden(pieces)[k].toIndex <= |Text(pieces)|
    decreases |pieces|
  {
    if pieces != [] {
      HiddenInside(pieces[..|pieces| - 1]);
    }
  }

  /** Redacting the hidden parts puts stars for the secrets and leaves everything else. */
  lemma {:induction false} RedactedByPiece(pieces: seq<Piece>)
    ensures Starred(Text(pieces), Hidden(pieces)) == Text(RedactedPieces(pieces))
    decreases |pieces|
  {
    if pieces != [] {
      var n := |pieces| - 1;
      RedactedByPiece(pieces[..n]);
      HiddenInside(pieces[..n]);
      StarredNext(Text(pieces[..n]), pieces[n].text, Hidden(pieces[..n]), pieces[n].hidden);
      assert RedactedPieces(pieces)[..n] == RedactedPieces(pieces[..n]);
    }
  }

  // ----- the round trip -----

  function Tail(pieces: seq<Piece>): Bytes {
    if pieces == [] then [] else pieces[0].text + Tail(pieces[1..])
  }

  lemma {:induction false} TextIsTail(pieces: seq<Piece>)
    ensures Text(pieces) == Tail(pieces)
    decreases |pieces|
  {
    if pieces != [] {
      var n := |pieces| - 1;
      TextIsTail(pieces[..n]);
      TailSnoc(pieces[..n], pieces[n]);
      assert pieces == pieces[..n] + [pieces[n]];
    }
  }

  lemma {:induction false} TailSnoc(pieces: seq<Piece>, p: Piece)
    ensures Tail(pieces + [p]) == Tail(pieces) + p.text
  {
    if pieces == [] {
      assert Tail([p]) == p.text;
    } else {
      assert (pieces + [p])[1..] == pieces[1..] + [p];
      TailSnoc(pieces[1..], p);
    }
  }

  /** The client's values, and what the attestor has of them. */
  predicate SameClaim(client: Values, attestor: Values) {
    && client.public == attestor.public
    && client.secret.Some? && attestor.secret == None && attestor.ignoreMissing
  }

  /** A bracketed parameter on the attestor's side for every hidden piece, and else the same. */
  predicate Sides(ts: seq<Piece>, cs: seq<Piece>) {
    && |ts| == |cs|
    && forall k :: 0 <= k < |cs| ==>
         if cs[k].hidden then IsBracketed(ts[k].text) else ts[k].text == cs[k].text
  }

  predicate IsBracketed(text: Bytes) {
    |text| > 4 && IsName(text[2..|text| - 2]) && text == Bracketed(text[2..|text| - 2])
  }

  lemma SidesOfClaim(client: Values, attestor: Values, t: Bytes)
    requires SameClaim(client, attestor) && AllFound(client, Segments(t, 0))
    ensures AllFound(attestor, Segments(t, 0))
    ensures Sides(Pieces(attestor, Segments(t, 0)), Pieces(client, Segments(t, 0)))
  {
    SegmentNames(t, 0);
    var segments := Segments(t, 0);
    forall k | 0 <= k < |segments|
      ensures PieceOf(attestor, segments[k]).Some?
      ensures var c, a := PieceOf(client, segments[k]).value, PieceOf(attestor, segments[k]).value;
              if c.hidden then IsBracketed(a.text) else a.text == c.text
    {
      var s := segments[k];
      if s.Param? {
        assert Bracketed(s.name)[2..|s.name| + 2] == s.name;
      }
    }
  }

  lemma {:induction false} SegmentNames(t: Bytes, i: nat)
    requires i <= |t|
    ensures forall k :: 0 <= k < |Segments(t, i)| && Segments(t, i)[k].Param? ==> IsName(Segments(t, i)[k].name)
    decreases |t| - i
  {
    if i < |t| {
      SizeFits(t, i);
      SegmentNames(t, i + Size(SegmentAt(t, i)));
    }
  }

  lemma {:induction false} SameFront(text: Bytes, t: Bytes, r: Bytes)
    ensures Related(text + t, text + r) <==> Related(t, r)
  {
    if text == [] {
      assert text + t == t && text + r == r;
    } else {
      EqualStep(text + t, text + r);
      assert (text + t)[1..] == text[1..] + t && (text + r)[1..] == text[1..] + r;
      SameFront(text[1..], t, r);
    }
  }

  /** A parameter against the run of stars in front of a text. */
  lemma ParamAgainst(param: Bytes, t: Bytes, r: Bytes, n: nat)
    requires IsBracketed(param) && Run(r, n)
    ensures Related(param + t, r) <==> Related(t, r[n..])
  {
    var whole := param + t;
    var name := param[2..|param| - 2];
    assert forall i :: 0 <= i < |name| ==> whole[2 + i] == name[i] && name[i] in name;
    assert Opens(whole) && FirstClose(whole, 2, 2 + |name|) && FirstClose(whole, 3 + |name|, 3 + |name|);
    SpanStep(whole, r, 2 + |name|, 3 + |name|, n);
    assert whole[4 + |name|..] == t;
  }

  predicate StarAhead(r: Bytes) {
    r != [] && r[0] == STAR
  }

  /** Every secret leaves a star, and no star comes right behind it. */
  predicate SecretsStandOut(cs: seq<Piece>) {
    forall k :: 0 <= k < |cs| && cs[k].hidden ==>
      cs[k].text != [] && !StarAhead(Tail(RedactedPieces(cs[k + 1..])))
  }

  lemma StandOutRest(cs: seq<Piece>)
    requires cs != []
    ensures SecretsStandOut(cs) <==>
            SecretsStandOut(cs[1..])
            && (cs[0].hidden ==> cs[0].text != [] && !StarAhead(Tail(RedactedPieces(cs[1..]))))
  {
    forall k | 1 <= k < |cs|
      ensures cs[1..][(k - 1) + 1..] == cs[k + 1..] && cs[1..][k - 1] == cs[k]
    {
    }
    if SecretsStandOut(cs[1..]) && (cs[0].hidden ==> cs[0].text != [] && !StarAhead(Tail(RedactedPieces(cs[1..])))) {
      forall k | 0 <= k < |cs| && cs[k].hidden
        ensures cs[k].text != [] && !StarAhead(Tail(RedactedPieces(cs[k + 1..])))
      {
        if k > 0 {
          assert cs[1..][k - 1].hidden;
        }
      }
    }
    if SecretsStandOut(cs) {
      forall k | 0 <= k < |cs[1..]| && cs[1..][k].hidden
        ensures cs[1..][k].text != [] && !StarAhead(Tail(RedactedPieces(cs[1..][k + 1..])))
      {
        assert cs[k + 1].hidden && cs[k + 1 + 1..] == cs[1..][k + 1..];
      }
    }
  }

  lemma RedactedRest(cs: seq<Piece>)
    requires cs != []
    ensures Tail(RedactedPieces(cs)) == RedactedPiece(cs[0]).text + Tail(RedactedPieces(cs[1..]))
  {
    assert RedactedPieces(cs)[1..] == RedactedPieces(cs[1..]);
  }

  lemma StarsAgainst(param: Bytes, t: Bytes, n: nat, r: Bytes)
    requires IsBracketed(param) && n > 0 && !StarAhead(r)
    ensures Related(param + t, Fill(STAR, n) + r) <==> Related(t, r)
  {
    var stars := Fill(STAR, n) + r;
    assert Run(stars, n) && stars[n..] == r;
    ParamAgainst(param, t, stars, n);
  }

  /** The redacted text matches the template when every secret stands out. */
  lemma {:induction false} Matches(ts: seq<Piece>, cs: seq<Piece>)
    requires Sides(ts, cs) && SecretsStandOut(cs)
    ensures Related(Tail(ts), Tail(RedactedPieces(cs)))
    decreases |cs|
  {
    if cs != [] {
      StandOutRest(cs);
      RedactedRest(cs);
      assert Sides(ts[1..], cs[1..]);
      Matches(ts[1..], cs[1..]);
      if cs[0].hidden {
        StarsAgainst(ts[0].text, Tail(ts[1..]), |cs[0].text|, Tail(RedactedPieces(cs[1..])));
      } else {
        SameFront(cs[0].text, Tail(ts[1..]), Tail(RedactedPieces(cs[1..])));
      }
    }
  }

  // ----- and only then, where no plain text holds a bracket -----

  predicate NoOpenPlain(cs: seq<Piece>) {
    forall k :: 0 <= k < |cs| && !cs[k].hidden ==> OPEN !in cs[k].text
  }

  lemma {:induction false} NoOpenRedacted(cs: seq<Piece>)
    requires NoOpenPlain(cs)
    ensures OPEN !in Tail(RedactedPieces(cs))
    decreases |cs|
  {
    if cs != [] {
      RedactedRest(cs);
      NoOpenRedacted(cs[1..]);
    }
  }

  /** Where the redacted text begins with a star, so does the template, or with a parameter. */
  lemma {:induction false} StarOrParam(ts: seq<Piece>, cs: seq<Piece>)
    requires Sides(ts, cs) && StarAhead(Tail(RedactedPieces(cs)))
    ensures Tail(ts) != [] && (Tail(ts)[0] == STAR || Tail(ts)[0] == OPEN)
    decreases |cs|
  {
    RedactedRest(cs);
    if !cs[0].hidden && cs[0].text == [] {
      assert Sides(ts[1..], cs[1..]);
      StarOrParam(ts[1..], cs[1..]);
    }
  }

  function StarsAhead(r: Bytes): (n: nat)
    ensures n <= |r| && (forall i :: 0 <= i < n ==> r[i] == STAR) && (n < |r| ==> r[n] != STAR)
  {
    if StarAhead(r) then 1 + StarsAhead(r[1..]) else 0
  }

  lemma FailsAtParam(ts: seq<Piece>, cs: seq<Piece>)
    requires Sides(ts, cs) && NoOpenPlain(cs) && cs != [] && cs[0].hidden
    requires cs[0].text == [] || StarAhead(Tail(RedactedPieces(cs[1..])))
    ensures !Related(Tail(ts), Tail(RedactedPieces(cs)))
  {
    var t, r := Tail(ts[1..]), Tail(RedactedPieces(cs));
    RedactedRest(cs);
    NoOpenRedacted(cs);
    var n := StarsAhead(r);
    if n == 0 {
      Unequal(Tail(ts), r);
    } else {
      ParamAgainst(ts[0].text, t, r, n);
      assert Sides(ts[1..], cs[1..]);
      assert StarAhead(Tail(RedactedPieces(cs[1..])));
      StarOrParam(ts[1..], cs[1..]);
      assert forall i :: 0 <= i < |r[n..]| ==> r[n..][i] in r;
      Unequal(t, r[n..]);
    }
  }

  lemma {:induction false} MatchesOnlyWhen(ts: seq<Piece>, cs: seq<Piece>)
    requires Sides(ts, cs) && NoOpenPlain(cs) && Related(Tail(ts), Tail(RedactedPieces(cs)))
    ensures SecretsStandOut(cs)
    decreases |cs|
  {
    if cs != [] {
      StandOutRest(cs);
      RedactedRest(cs);
      assert Sides(ts[1..], cs[1..]);
      if cs[0].hidden {
        if cs[0].text == [] || StarAhead(Tail(RedactedPieces(cs[1..]))) {
          FailsAtParam(ts, cs);
          assert false;
        }
        StarsAgainst(ts[0].text, Tail(ts[1..]), |cs[0].text|, Tail(RedactedPieces(cs[1..])));
      } else {
        SameFront(cs[0].text, Tail(ts[1..]), Tail(RedactedPieces(cs[1..])));
      }
      MatchesOnlyWhen(ts[1..], cs[1..]);
    }
  }

  /**
   A template substituted by the client, with its hidden parts redacted, is accepted
   against the template the attestor substitutes without the secrets: whenever every
   secret is non-empty and no star comes right behind it, and where the plain text
   and the public values hold no opening bracket, only then.
   */
  lemma TemplateRoundTrip(client: Values, attestor: Values, t: Bytes)
    requires SameClaim(client, attestor) && AllFound(client, Segments(t, 0))
    ensures AllFound(attestor, Segments(t, 0))
    ensures var cs := Pieces(client, Segments(t, 0));
            var expected := Text(Pieces(attestor, Segments(t, 0)));
            var sent := Starred(Text(cs), Hidden(cs));
            && (SecretsStandOut(cs) ==> Related(expected, sent))
            && (NoOpenPlain(cs) && Related(expected, sent) ==> SecretsStandOut(cs))
  {
    SidesOfClaim(client, attestor, t);
    var ts, cs := Pieces(attestor, Segments(t, 0)), Pieces(client, Segments(t, 0));
    RedactedByPiece(cs);
    TextIsTail(ts);
    TextIsTail(RedactedPieces(cs));
    if SecretsStandOut(cs) {
      Matches(ts, cs);
    }
    if NoOpenPlain(cs) && Related(Tail(ts), Tail(RedactedPieces(cs))) {
      MatchesOnlyWhen(ts, cs);
    }
  }
}
