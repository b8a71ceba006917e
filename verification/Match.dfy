/**
 `matchRedactedStrings`: a template with `{{parameter}}` spans against a redacted text
 with runs of stars. The cursor machine is proved to decide an inductive relation.
 */
module Match {
  import opened ByteData

  const OPEN: Byte := 123  // '{'
  const CLOSE: Byte := 125  // '}'

  // ----- the relation -----

  /** A span in front: two opening brackets, and up to the second closing one. */
  ghost predicate Span(t: Bytes, p: Bytes, q: Bytes, rest: Bytes) {
    && t == [OPEN, OPEN] + p + [CLOSE] + q + [CLOSE] + rest
    && CLOSE !in p && CLOSE !in q
  }

  /** All the stars in front, and at least one. */
  predicate Run(r: Bytes, n: int) {
    && 0 < n <= |r|
    && (forall i :: 0 <= i < n ==> r[i] == STAR)
    && (n < |r| ==> r[n] != STAR)
  }

  /** Equal bytes, or a span against a maximal run of stars, up to both ends. */
  ghost predicate Related(t: Bytes, r: Bytes)
    decreases |t|, 1
  {
    || (t == [] && r == [])
    || (t != [] && r != [] && t[0] == r[0] && Related(t[1..], r[1..]))
    || RelatedBySpan(t, r)
  }

  ghost predicate RelatedBySpan(t: Bytes, r: Bytes)
    decreases |t|, 0
  {
    exists p, q, rest, n: int :: Span(t, p, q, rest) && Run(r, n) && |rest| < |t| && Related(rest, r[n..])
  }

  /** The first closing bracket from position `from` on is at `c`. */
  predicate FirstClose(t: Bytes, from: nat, c: int) {
    from <= c < |t| && t[c] == CLOSE && forall i :: from <= i < c ==> t[i] != CLOSE
  }

  predicate NoClose(t: Bytes, from: nat) {
    forall i :: from <= i < |t| ==> t[i] != CLOSE
  }

  predicate Closes(t: Bytes, from: nat, c: nat, d: int) {
    FirstClose(t, from, c) && FirstClose(t, c + 1, d)
  }

  predicate LastClose(t: Bytes, from: nat, c: nat) {
    FirstClose(t, from, c) && NoClose(t, c + 1)
  }

  predicate Opens(t: Bytes) {
    |t| >= 2 && t[0] == OPEN && t[1] == OPEN
  }

  lemma SpanAt(t: Bytes, p: Bytes, q: Bytes, rest: Bytes)
    requires Span(t, p, q, rest)
    ensures Opens(t)
    ensures FirstClose(t, 2, 2 + |p|) && FirstClose(t, 3 + |p|, 3 + |p| + |q|)
    ensures rest == t[4 + |p| + |q|..]
  {
    assert forall i :: 0 <= i < |p| ==> t[2 + i] == p[i];
    assert forall i :: 0 <= i < |q| ==> t[3 + |p| + i] == q[i];
  }

  lemma SpanOf(t: Bytes, c: nat, d: nat)
    requires Opens(t) && FirstClose(t, 2, c) && FirstClose(t, c + 1, d)
    ensures Span(t, t[2..c], t[c + 1..d], t[d + 1..])
  {
  }

  /** At a bracket against a star, the relation goes on behind the span and the run. */
  lemma SpanStep(t: Bytes, r: Bytes, c: nat, d: nat, n: nat)
    requires Opens(t) && FirstClose(t, 2, c) && FirstClose(t, c + 1, d) && Run(r, n)
    ensures Related(t, r) <==> Related(t[d + 1..], r[n..])
  {
    SpanOf(t, c, d);
    if RelatedBySpan(t, r) {
      var p, q, rest, m: int :| Span(t, p, q, rest) && Run(r, m) && |rest| < |t| && Related(rest, r[m..]);
      SpanAt(t, p, q, rest);
      assert m == n;
    }
  }

  lemma SpanOpens(t: Bytes, r: Bytes)
    requires RelatedBySpan(t, r)
    ensures Opens(t) && r != [] && r[0] == STAR
    ensures exists c, d :: Closes(t, 2, c, d)
  {
    var p, q, rest, m: int :| Span(t, p, q, rest) && Run(r, m) && |rest| < |t| && Related(rest, r[m..]);
    SpanAt(t, p, q, rest);
    assert Closes(t, 2, 2 + |p|, 3 + |p| + |q|);
  }

  /** Without a whole span there is nothing to put against a star. */
  lemma NoSpan(t: Bytes, r: Bytes)
    requires t != [] && t[0] == OPEN && r != [] && r[0] == STAR
    requires !Opens(t) || NoClose(t, 2) || exists c :: LastClose(t, 2, c)
    ensures !Related(t, r)
  {
    if RelatedBySpan(t, r) {
      SpanOpens(t, r);
      assert false;
    }
  }

  /** Different bytes, or one text at its end, that are no bracket against a star. */
  lemma Unequal(t: Bytes, r: Bytes)
    requires t != [] || r != []
    requires t != [] && r != [] ==> t[0] != r[0] && !(t[0] == OPEN && r[0] == STAR)
    ensures !Related(t, r)
  {
    if RelatedBySpan(t, r) {
      SpanOpens(t, r);
      assert false;
    }
  }

  lemma EqualStep(t: Bytes, r: Bytes)
    requires t != [] && r != [] && t[0] == r[0]
    ensures Related(t, r) <==> Related(t[1..], r[1..])
  {
    if RelatedBySpan(t, r) {
      SpanOpens(t, r);
      assert false;
    }
  }

  /** A span and a run, as the cursors find them in the whole texts. */
  lemma SpanFound(t: Bytes, r: Bytes, at: nat, c: nat, d: nat, start: nat, end: nat)
    requires at < |t| && t[at] == OPEN && at + 1 < |t| && t[at + 1] == OPEN
    requires FirstClose(t, at + 2, c) && FirstClose(t, c + 1, d)
    requires start < end <= |r| && Run(r[start..], end - start)
    ensures Related(t[at..], r[start..]) <==> Related(t[d + 1..], r[end..])
  {
    var s := t[at..];
    assert FirstClose(s, 2, c - at) && FirstClose(s, c - at + 1, d - at);
    SpanStep(s, r[start..], c - at, d - at, end - start);
    assert s[d - at + 1..] == t[d + 1..] && r[start..][end - start..] == r[end..];
  }

  /** No span, as the cursor finds that in the whole template. */
  lemma NoSpanFound(t: Bytes, r: Bytes, at: nat, from: nat, start: nat)
    requires from == at + 2 && at < |t| && t[at] == OPEN && start < |r| && r[start] == STAR
    requires at + 1 == |t| || t[at + 1] != OPEN || NoClose(t, from)
             || exists c :: LastClose(t, from, c)
    ensures !Related(t[at..], r[start..])
  {
    var s := t[at..];
    if c: nat :| LastClose(t, from, c) {
      assert LastClose(s, 2, c - at);
    }
    NoSpan(s, r[start..]);
  }

  // ----- the cursors -----

  /** The two cursors, each at the byte read last. */
  class Matcher {
    const template: Bytes
    const redacted: Bytes
    var ts: int
    var rs: int

    constructor (template: Bytes, redacted: Bytes)
      ensures this.template == template && this.redacted == redacted && ts == -1 && rs == -1
    {
      this.template, this.redacted := template, redacted;
      ts, rs := -1, -1;
    }

    method GetTChar() returns (c: int)
      requires -1 <= ts
      modifies `ts
      ensures ts == old(ts) + 1
      ensures c == if ts < |template| then template[ts] else -1
    {
      ts := ts + 1;
      c := if ts < |template| then template[ts] else -1;
    }

    method GetRChar() returns (c: int)
      requires -1 <= rs
      modifies `rs
      ensures rs == old(rs) + 1
      ensures c == if rs < |redacted| then redacted[rs] else -1
    {
      rs := rs + 1;
      c := if rs < |redacted| then redacted[rs] else -1;
    }

    /** Reads up to the next closing bracket, or to the end. */
    method FindClose() returns (c: int)
      requires 0 <= ts
      modifies `ts
      ensures c == CLOSE || c == -1
      ensures ts > old(ts)
      ensures c == CLOSE ==> FirstClose(template, old(ts) + 1, ts)
      ensures c == -1 ==> NoClose(template, old(ts) + 1) && ts >= |template|
    {
      c := GetTChar();
      while c != CLOSE && c != -1
        invariant ts > old(ts)
        invariant c == if ts < |template| then template[ts] else -1
        invariant forall i :: old(ts) < i < ts && i < |template| ==> template[i] != CLOSE
        decreases |template| - ts
      {
        c := GetTChar();
      }
    }

    /** Reads up to the end of the run of stars. */
    method FindRunEnd() returns (c: int)
      requires 0 <= rs < |redacted| && redacted[rs] == STAR
      modifies `rs
      ensures old(rs) < rs <= |redacted| && Run(redacted[old(rs)..], rs - old(rs))
      ensures c == if rs < |redacted| then redacted[rs] else -1
    {
      c := GetRChar();
      while c == STAR
        invariant old(rs) < rs <= |redacted|
        invariant c == if rs < |redacted| then redacted[rs] else -1
        invariant forall i :: old(rs) <= i < rs ==> redacted[i] == STAR
        decreases |redacted| - rs
      {
        c := GetRChar();
      }
    }

    /** Where the relation of the whole texts stands with the cursors. */
    ghost predicate Open()
      reads this
    {
      && -1 <= ts < |template| && -1 <= rs < |redacted|
      && (Related(template, redacted) <==> Related(template[ts + 1..], redacted[rs + 1..]))
    }

    /** A span against a run, both cursors on their first bytes. */
    method MatchSpan() returns (decided: Option<bool>)
      requires 0 <= ts < |template| && template[ts] == OPEN && 0 <= rs < |redacted| && redacted[rs] == STAR
      requires Related(template, redacted) <==> Related(template[ts..], redacted[rs..])
      modifies this
      ensures decided.Some? ==> decided.value == Related(template, redacted)
      ensures decided.None? ==> Open() && ts > old(ts)
    {
      ghost var at, start := ts, rs;
      var ct := GetTChar();
      if ct != OPEN {
        NoSpanFound(template, redacted, at, at + 2, start);
        return Some(false);
      }
      ct := FindClose();
      ghost var first := ts;
      ghost var closed := ct == CLOSE;
      ct := FindClose();
      if ct == -1 {
        assert closed ==> LastClose(template, at + 2, first);
        NoSpanFound(template, redacted, at, at + 2, start);
        return Some(false);
      }
      var cr := FindRunEnd();
      SpanFound(template, redacted, at, first, ts, start, rs);
      if cr == -1 {
        ghost var behind := template[ts + 1..];
        if behind != [] {
          Unequal(behind, []);
        }
        ct := GetTChar();
        return Some(ct == -1);
      }
      rs := rs - 1;
      return None;
    }

    method Match() returns (matches: bool)
      requires ts == rs == -1
      modifies this
      ensures matches <==> Related(template, redacted)
    {
      while ts < |template| && rs < |redacted|
        invariant Open() || (ts == |template| && rs == |redacted| && Related(template, redacted))
        decreases |template| - ts
      {
        var ct := GetTChar();
        var cr := GetRChar();
        if ct != cr {
          if ct == OPEN && cr == STAR {
            var decided := MatchSpan();
            if decided.Some? {
              return decided.value;
            }
          } else {
            Unequal(template[ts..], redacted[rs..]);
            return false;
          }
        } else if ct != -1 {
          EqualBytes();
        }
      }
      return ts == |template| && rs == |redacted|;
    }

    lemma EqualBytes()
      requires 0 <= ts < |template| && 0 <= rs < |redacted| && template[ts] == redacted[rs]
      requires Related(template, redacted) <==> Related(template[ts..], redacted[rs..])
      ensures Open()
    {
      EqualStep(template[ts..], redacted[rs..]);
      assert template[ts..][1..] == template[ts + 1..] && redacted[rs..][1..] == redacted[rs + 1..];
    }
  }

  /** A receipt without the redacted text, as without a request body, does not match. */
  method MatchRedactedStrings(template: Bytes, redacted: Option<Bytes>) returns (matches: bool)
    ensures matches <==> redacted.Some? && Related(template, redacted.value)
  {
    if template == [] && redacted == Some([]) {
      return true;
    }
    if redacted == None {
      return false;
    }
    var matcher := new Matcher(template, redacted.value);
    matches := matcher.Match();
  }
}
