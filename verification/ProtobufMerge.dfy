/**
 What a decoder makes of fields that come more than once, as in two encodings one behind
 the other: repeated messages are collected, and of anything else the later one stays.
 */
module ProtobufMerge {
  import opened ByteData
  import opened Protobuf
  import opened ProtobufRoundTrip

  /** A value read onto another: a later one replaces it, a message too, or adds to a list. */
  function Merged(kind: Kind, before: Value, v: Value): (next: Value)
    requires Shaped(kind, before) && Shaped(kind, v)
    ensures Shaped(kind, next)
  {
    match kind
    case KUint => if v == Num(0) then before else v
    case KInt => if v == Num(0) then before else v
    case KBytes => if v == Raw([]) then before else v
    case KSub(_) => if v == Sub(None) then before else v
    case KMany(_) => Many(before.subs + v.subs)
  }

  /** The fields with those of the message from `k` on read onto them. */
  function MergedFrom(name: Name, fields: seq<Value>, m: Msg, k: nat): (next: seq<Value>)
    requires AllShaped(name, fields) && AllShaped(name, m.fields)
    ensures AllShaped(name, next)
    ensures forall i :: 0 <= i < |next| ==> next[i] == if i < k then fields[i] else Merged(Fields(name)[i], fields[i], m.fields[i])
  {
    seq(|fields|, i requires 0 <= i < |fields| =>
      if i < k then fields[i] else Merged(Fields(name)[i], fields[i], m.fields[i]))
  }

  lemma {:induction false} TypedShaped(name: Name, m: Msg)
    requires WellTyped(name, m)
    ensures AllShaped(name, m.fields)
  {
    forall i | 0 <= i < |m.fields|
      ensures Shaped(Fields(name)[i], m.fields[i])
    {
      assert Typed(Fields(name)[i], m.fields[i]);
    }
  }

  /** The repeated messages from `j` on, behind some that were there. */
  lemma {:induction false} MergesSubs(buf: Bytes, name: Name, kind: Kind, v: Value, k: nat, j: nat, prior: seq<Msg>,
                                      pos: nat, end: nat, fields: seq<Value>, q: nat, last: seq<Value>)
    requires v.Many? && SetAt(name, kind, Many(prior + v.subs), k, fields, last) && kind.KMany?
    requires Typed(kind, v) && j <= |v.subs| && fields[k] == Many(prior + v.subs[..j])
    requires var subs := EncodeSubs(kind, k + 1, v, j);
             HasAt(buf, pos, subs) && |subs| < UINT32 && q == pos + |subs| <= end
    ensures Leads(buf, name, pos, end, fields, q, last)
    decreases |v.subs| - j
  {
    if j == |v.subs| {
      assert v.subs[..j] == v.subs;
      assert last == fields;
    } else {
      var part, rest := SubPart(buf, kind, v, k, j, pos);
      var next := MoreSubs(name, kind, v, k, j, prior, fields, last);
      var p := pos + |part|;
      ReadsOneSub(buf, name, v.subs[j], EncodeMsg(kind.name, v.subs[j]), k, pos, end, fields, kind.name, p, next);
      MergesSubs(buf, name, kind, v, k, j + 1, prior, p, end, next, q, last);
      LeadsVia(buf, name, pos, end, fields, p, next, q, last);
    }
  }

  lemma {:induction false} MoreSubs(name: Name, kind: Kind, v: Value, k: nat, j: nat, prior: seq<Msg>, fields: seq<Value>,
                                    last: seq<Value>) returns (next: seq<Value>)
    requires v.Many? && SetAt(name, kind, Many(prior + v.subs), k, fields, last) && kind.KMany?
    requires j < |v.subs| && fields[k] == Many(prior + v.subs[..j])
    ensures k < |next| && SetAt(name, kind, next[k], k, fields, next)
    ensures SetAt(name, kind, Many(prior + v.subs), k, next, last)
    ensures next[k] == Many(prior + v.subs[..j + 1]) == Many(fields[k].subs + [v.subs[j]])
  {
    assert prior + v.subs[..j + 1] == prior + v.subs[..j] + [v.subs[j]];
    next := fields[k := Many(prior + v.subs[..j + 1])];
  }

  /** A field is read onto the value that was there. */
  lemma {:induction false} MergesField(buf: Bytes, name: Name, kind: Kind, v: Value, k: nat, pos: nat, end: nat,
                                       fields: seq<Value>, p: nat, next: seq<Value>)
    requires Typed(kind, v) && Shaped(kind, v) && k < |fields| && Shaped(kind, fields[k])
    requires SetAt(name, kind, Merged(kind, fields[k], v), k, fields, next)
    requires var field := EncodeField(kind, k + 1, v);
             HasAt(buf, pos, field) && |field| < UINT32 && p == pos + |field| <= end
    ensures Leads(buf, name, pos, end, fields, p, next)
  {
    if v == Unset(kind) {
      assert next == fields by {
        if kind.KMany? {
          assert fields[k].subs + [] == fields[k].subs;
        }
      }
    } else if kind.KMany? {
      assert v.subs[..0] == [] && fields[k].subs + [] == fields[k].subs;
      MergesSubs(buf, name, kind, v, k, 0, fields[k].subs, pos, end, fields, p, next);
    } else {
      var at := pos + |Varint(Tag(kind, k + 1))|;
      SingleParts(buf, kind, k, v, pos, at);
      ReadsPayload(buf, kind, at, v, fields[k]);
      ReadsTag(buf, kind, k, pos, at);
      TurnReads(buf, name, kind, v, k, pos, at, |Payload(kind, v)|, end, fields, p, next);
    }
  }

  lemma {:induction false} MergedNext(name: Name, fields: seq<Value>, m: Msg, k: nat, next: seq<Value>)
    requires AllShaped(name, fields) && AllShaped(name, m.fields) && k < |fields|
    requires next == fields[k := Merged(Fields(name)[k], fields[k], m.fields[k])] && AllShaped(name, next)
    ensures MergedFrom(name, fields, m, k) == MergedFrom(name, next, m, k + 1)
  {
  }

  lemma {:induction false} MergedShaped(name: Name, kind: Kind, v: Value, k: nat, fields: seq<Value>) returns (next: seq<Value>)
    requires AllShaped(name, fields) && k < |fields| && kind == Fields(name)[k] && Shaped(kind, v)
    ensures next == fields[k := Merged(kind, fields[k], v)] && AllShaped(name, next)
    ensures SetAt(name, kind, Merged(kind, fields[k], v), k, fields, next)
  {
    next := fields[k := Merged(kind, fields[k], v)];
  }

  /** The fields of a message from `k` on are read onto those that were there. */
  lemma {:induction false} MergesFields(buf: Bytes, name: Name, m: Msg, k: nat, pos: nat, end: nat, fields: seq<Value>,
                                        p: nat, last: seq<Value>)
    requires WellTyped(name, m) && AllShaped(name, m.fields) && k <= |m.fields| && AllShaped(name, fields)
    requires last == MergedFrom(name, fields, m, k)
    requires HasAt(buf, pos, EncodeFields(name, m, k)) && |EncodeFields(name, m, k)| < UINT32
    requires p == pos + |EncodeFields(name, m, k)| <= end
    ensures Leads(buf, name, pos, end, fields, p, last)
    decreases |Fields(name)| + 1 - k
  {
    if k == |m.fields| {
      assert last == fields;
    } else {
      var kind, v := Fields(name)[k], m.fields[k];
      assert Typed(kind, v);
      var field := EncodeField(kind, k + 1, v);
      HasParts(buf, pos, field, EncodeFields(name, m, k + 1));
      var next := MergedShaped(name, kind, v, k, fields);
      var q := pos + |field|;
      MergesField(buf, name, kind, v, k, pos, end, fields, q, next);
      MergedNext(name, fields, m, k, next);
      MergesFields(buf, name, m, k + 1, q, end, next, p, last);
      LeadsVia(buf, name, pos, end, fields, q, next, p, last);
    }
  }

  /**
   Two encodings one behind the other are decoded as one message, in which repeated messages
   are those of both, and every other field is that of the second where this one is set. A
   message in a field is replaced as a whole.
   */
  lemma {:induction false} ConcatMerges(name: Name, a: Msg, b: Msg)
    requires WellTyped(name, a) && WellTyped(name, b) && |EncodeMsg(name, a)| + |EncodeMsg(name, b)| < UINT32
    ensures AllShaped(name, a.fields) && AllShaped(name, b.fields)
    ensures Decode(name, EncodeMsg(name, a) + EncodeMsg(name, b)) == Some(Msg(MergedFrom(name, a.fields, b, 0)))
  {
    TypedShaped(name, a);
    TypedShaped(name, b);
    var x, y := EncodeMsg(name, a), EncodeMsg(name, b);
    var buf, base := x + y, Base(name).fields;
    HasBoth(x, y);
    OntoNothing(name, a, base);
    MergesFields(buf, name, a, 0, 0, |buf|, base, |x|, a.fields);
    var last := MergedFrom(name, a.fields, b, 0);
    MergesFields(buf, name, b, 0, |x|, |buf|, a.fields, |buf|, last);
    LeadsVia(buf, name, 0, |buf|, base, |x|, a.fields, |buf|, last);
  }

  lemma HasBoth(x: Bytes, y: Bytes)
    ensures HasAt(x + y, 0, x) && HasAt(x + y, |x|, y)
  {
  }

  lemma {:induction false} OntoNothing(name: Name, m: Msg, base: seq<Value>)
    requires AllShaped(name, m.fields) && base == Base(name).fields
    ensures AllShaped(name, base) && MergedFrom(name, base, m, 0) == m.fields
  {
    forall i | 0 <= i < |m.fields|
      ensures Merged(Fields(name)[i], base[i], m.fields[i]) == m.fields[i]
    {
      assert base[i] == Unset(Fields(name)[i]);
      if Fields(name)[i].KMany? {
        assert [] + m.fields[i].subs == m.fields[i].subs;
      }
    }
  }
}
