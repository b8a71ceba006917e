/**
 Decoding undoes encoding for every message, so the bytes the attestor encodes again to
 check a claim request's signature are the bytes the client signed.
 */
module ProtobufRoundTrip {
  import opened ByteData
  import opened Protobuf

  /** The bytes stand in the buffer at the position. */
  predicate HasAt(buf: Bytes, pos: nat, bytes: Bytes) {
    pos + |bytes| <= |buf| && buf[pos..pos + |bytes|] == bytes
  }

  lemma {:induction false} HasParts(buf: Bytes, pos: nat, a: Bytes, b: Bytes)
    requires HasAt(buf, pos, a + b)
    ensures HasAt(buf, pos, a) && HasAt(buf, pos + |a|, b)
  {
    var whole := buf[pos..pos + |a + b|];
    assert buf[pos..pos + |a|] == whole[..|a|] == a;
    assert buf[pos + |a|..pos + |a| + |b|] == whole[|a|..] == b;
  }

  // ----- numbers -----

  /** The largest number with so many base 128 digits, plus one. */
  function Digits(budget: nat): nat {
    if budget == 0 then 1 else 128 * Digits(budget - 1)
  }

  lemma {:induction false} ReadsVarint(buf: Bytes, pos: nat, n: nat, budget: nat)
    requires HasAt(buf, pos, Varint(n)) && n < Digits(budget) && budget > 0
    ensures ReadVarint(buf, pos, budget) == Some(At(n, pos + |Varint(n)|))
    decreases budget
  {
    assert buf[pos] == buf[pos..pos + |Varint(n)|][0];
    if n >= 128 {
      HasParts(buf, pos, [128 + n % 128], Varint(n / 128));
      assert Digits(budget) == 128 * Digits(budget - 1);
      ReadsVarint(buf, pos + 1, n / 128, budget - 1);
    }
  }

  lemma {:induction false} TenDigits()
    ensures Digits(10) > UINT32 * UINT32
  {
    assert Digits(5) == 128 * 128 * 128 * 128 * 128 by {
      assert Digits(1) == 128 && Digits(2) == 128 * 128 && Digits(3) == 128 * 128 * 128;
    }
    assert Digits(7) == 128 * 128 * Digits(5) && Digits(9) == 128 * 128 * Digits(7);
  }

  lemma {:induction false} ReadsUint32(buf: Bytes, pos: nat, n: nat)
    requires HasAt(buf, pos, Varint(n)) && n < UINT32 * UINT32
    ensures ReadUint32(buf, pos) == Some(At(n % UINT32, pos + |Varint(n)|))
  {
    TenDigits();
    ReadsVarint(buf, pos, n, 10);
  }

  lemma {:induction false} SignedWrap(n: int)
    requires -INT32 <= n < INT32
    ensures Wrap(n) < UINT32 * UINT32 && Signed(Wrap(n) % UINT32) == n
  {
    if n < 0 {
      assert Wrap(n) == (UINT32 - 1) * UINT32 + (n + UINT32);
    }
  }

  lemma {:induction false} DelimitedRead(buf: Bytes, pos: nat, start: nat, bytes: Bytes)
    requires ReadUint32(buf, pos) == Some(At(|bytes|, start)) && HasAt(buf, start, bytes)
    ensures ReadDelimited(buf, pos) == Some(At(bytes, start + |bytes|))
  {
  }

  lemma {:induction false} DelimitedParts(buf: Bytes, pos: nat, bytes: Bytes, start: nat)
    requires HasAt(buf, pos, Delimited(bytes)) && start == pos + |Varint(|bytes|)|
    ensures HasAt(buf, pos, Varint(|bytes|)) && HasAt(buf, start, bytes)
    ensures start + |bytes| == pos + |Delimited(bytes)|
  {
    HasParts(buf, pos, Varint(|bytes|), bytes);
  }

  lemma {:induction false} ReadsDelimited(buf: Bytes, pos: nat, bytes: Bytes, start: nat)
    requires HasAt(buf, pos, Delimited(bytes)) && |bytes| < UINT32 && start == pos + |Varint(|bytes|)|
    ensures ReadUint32(buf, pos) == Some(At(|bytes|, start)) && HasAt(buf, start, bytes)
    ensures ReadDelimited(buf, pos) == Some(At(bytes, pos + |Delimited(bytes)|))
  {
    DelimitedParts(buf, pos, bytes, start);
    ReadsUint32(buf, pos, |bytes|);
    DelimitedRead(buf, pos, start, bytes);
  }

  // ----- fields -----

  /** The field's bytes, without the tag, for one that holds a single value. */
  function Payload(kind: Kind, v: Value): Bytes
    requires Typed(kind, v) && !kind.KMany? && v != Unset(kind)
  {
    match kind
    case KUint => Varint(v.n)
    case KInt => Varint(Wrap(v.n))
    case KBytes => Delimited(v.bytes)
    case KSub(name) => Delimited(EncodeMsg(name, v.sub.value))
  }

  /** A sub-message whose bytes stand in the buffer is read. */
  predicate ReadsBack(buf: Bytes, name: Name, pos: nat, m: Msg, length: nat) {
    pos + length <= |buf| && DecodeFields(buf, name, pos, pos + length, Base(name).fields) == Some(At(m, pos + length))
  }

  lemma {:induction false} ReadsSub(buf: Bytes, name: Name, pos: nat, m: Msg, e: Bytes)
    requires |e| < UINT32 && HasAt(buf, pos, Delimited(e)) && ReadsBack(buf, name, pos + |Varint(|e|)|, m, |e|)
    ensures DecodeSub(buf, name, pos) == Some(At(m, pos + |Delimited(e)|))
  {
    var start := pos + |Varint(|e|)|;
    assert ReadUint32(buf, pos) == Some(At(|e|, start)) && start + |e| == pos + |Delimited(e)| by {
      ReadsDelimited(buf, pos, e, start);
      DelimitedParts(buf, pos, e, start);
    }
    SubRead(buf, name, pos, m, start, |e|);
  }

  lemma {:induction false} SubRead(buf: Bytes, name: Name, pos: nat, m: Msg, start: nat, length: nat)
    requires pos <= start && ReadUint32(buf, pos) == Some(At(length, start)) && ReadsBack(buf, name, start, m, length)
    ensures DecodeSub(buf, name, pos) == Some(At(m, start + length))
  {
  }

  /** The fields read before field `k`, and nothing yet from there on. */
  predicate ReadSoFar(name: Name, m: Msg, k: nat, fields: seq<Value>) {
    && k <= |m.fields| == |fields| == |Fields(name)|
    && (forall i :: 0 <= i < k ==> fields[i] == m.fields[i])
    && (forall i :: k <= i < |fields| ==> fields[i] == Unset(Fields(name)[i]))
  }

  lemma {:induction false} SoFarShaped(name: Name, m: Msg, k: nat, fields: seq<Value>)
    requires WellTyped(name, m) && ReadSoFar(name, m, k, fields)
    ensures AllShaped(name, fields)
  {
    forall i | 0 <= i < |fields|
      ensures Shaped(Fields(name)[i], fields[i])
    {
      assert Typed(Fields(name)[i], fields[i]);
    }
  }

  /** The value is read, and reading goes on behind its bytes. */
  predicate ReadsValue(buf: Bytes, kind: Kind, pos: nat, v: Value, size: nat, before: Value)
    requires pos <= |buf| && Shaped(kind, before)
  {
    DecodeField(buf, kind, pos, before) == Some(At(v, pos + size))
  }

  lemma {:induction false} ReadsBytes(buf: Bytes, pos: nat, v: Value, before: Value)
    requires v.Raw? && before.Raw? && HasAt(buf, pos, Delimited(v.bytes)) && |v.bytes| < UINT32
    ensures ReadsValue(buf, KBytes, pos, v, |Delimited(v.bytes)|, before)
  {
    ReadsDelimited(buf, pos, v.bytes, pos + |Varint(|v.bytes|)|);
  }

  lemma {:induction false} ReadsUint(buf: Bytes, pos: nat, v: Value, before: Value)
    requires v.Num? && 0 <= v.n < UINT32 && before.Num? && HasAt(buf, pos, Varint(v.n))
    ensures ReadsValue(buf, KUint, pos, v, |Varint(v.n)|, before)
  {
    ReadsUint32(buf, pos, v.n);
  }

  lemma {:induction false} ReadsInt(buf: Bytes, pos: nat, v: Value, before: Value)
    requires v.Num? && -INT32 <= v.n < INT32 && before.Num? && HasAt(buf, pos, Varint(Wrap(v.n)))
    ensures ReadsValue(buf, KInt, pos, v, |Varint(Wrap(v.n))|, before)
  {
    SignedWrap(v.n);
    ReadsUint32(buf, pos, Wrap(v.n));
  }

  lemma {:induction false} ReadsMessage(buf: Bytes, name: Name, pos: nat, m: Msg, e: Bytes, before: Value)
    requires before.Sub? && |e| < UINT32 && HasAt(buf, pos, Delimited(e))
    requires ReadsBack(buf, name, pos + |Varint(|e|)|, m, |e|)
    ensures ReadsValue(buf, KSub(name), pos, Sub(Some(m)), |Delimited(e)|, before)
  {
    ReadsSub(buf, name, pos, m, e);
    MessageRead(buf, name, pos, m, before, pos + |Delimited(e)|);
  }

  lemma {:induction false} MessageRead(buf: Bytes, name: Name, pos: nat, m: Msg, before: Value, next: nat)
    requires pos <= |buf| && before.Sub? && DecodeSub(buf, name, pos) == Some(At(m, next))
    ensures DecodeField(buf, KSub(name), pos, before) == Some(At(Sub(Some(m)), next))
  {
  }

  lemma {:induction false} RepeatedRead(buf: Bytes, name: Name, pos: nat, m: Msg, before: Value, next: nat)
    requires pos <= |buf| && before.Many? && DecodeSub(buf, name, pos) == Some(At(m, next))
    ensures DecodeField(buf, KMany(name), pos, before) == Some(At(Many(before.subs + [m]), next))
  {
  }

  lemma {:induction false} ReadsRepeated(buf: Bytes, name: Name, pos: nat, m: Msg, e: Bytes, before: Value)
    requires before.Many? && |e| < UINT32 && HasAt(buf, pos, Delimited(e))
    requires ReadsBack(buf, name, pos + |Varint(|e|)|, m, |e|)
    ensures ReadsValue(buf, KMany(name), pos, Many(before.subs + [m]), |Delimited(e)|, before)
  {
    ReadsSub(buf, name, pos, m, e);
    RepeatedRead(buf, name, pos, m, before, pos + |Delimited(e)|);
  }

  /** Bytes of a field's value, behind its tag. */
  lemma {:induction false} ReadsPayload(buf: Bytes, kind: Kind, pos: nat, v: Value, before: Value)
    requires Typed(kind, v) && v != Unset(kind) && Shaped(kind, before) && !kind.KMany?
    requires HasAt(buf, pos, Payload(kind, v)) && |Payload(kind, v)| < UINT32
    ensures ReadsValue(buf, kind, pos, v, |Payload(kind, v)|, before)
    decreases v, 0
  {
    match kind
    case KUint => ReadsUint(buf, pos, v, before);
    case KInt => ReadsInt(buf, pos, v, before);
    case KBytes => ReadsBytes(buf, pos, v, before);
    case KSub(name) =>
      var e := EncodeMsg(name, v.sub.value);
      DelimitedParts(buf, pos, e, pos + |Varint(|e|)|);
      ReadsMsg(buf, name, v.sub.value, pos + |Varint(|e|)|);
      ReadsMessage(buf, name, pos, v.sub.value, e, before);
  }

  lemma {:induction false} ReadsMsg(buf: Bytes, name: Name, m: Msg, pos: nat)
    requires WellTyped(name, m) && HasAt(buf, pos, EncodeMsg(name, m)) && |EncodeMsg(name, m)| < UINT32
    ensures ReadsBack(buf, name, pos, m, |EncodeMsg(name, m)|)
    decreases m, |Fields(name)| + 2
  {
    var end, fields := pos + |EncodeMsg(name, m)|, Base(name).fields;
    BaseSoFar(name, m, fields);
    assert EncodeMsg(name, m) == EncodeFields(name, m, 0);
    ReadsFields(buf, name, m, 0, pos, end, fields);
  }

  lemma {:induction false} BaseSoFar(name: Name, m: Msg, fields: seq<Value>)
    requires WellTyped(name, m) && fields == Base(name).fields
    ensures ReadSoFar(name, m, 0, fields) && AllShaped(name, fields)
  {
  }

  /** Decoding from the one place on comes to what decoding from the other place on does. */
  predicate Leads(buf: Bytes, name: Name, pos: nat, end: nat, fields: seq<Value>, p: nat, next: seq<Value>) {
    && pos <= |buf| && p <= |buf| && AllShaped(name, fields) && AllShaped(name, next)
    && DecodeFields(buf, name, pos, end, fields) == DecodeFields(buf, name, p, end, next)
  }

  lemma {:induction false} GoesOn(buf: Bytes, name: Name, pos: nat, end: nat, fields: seq<Value>, next: seq<Value>, p: nat)
    requires pos < end && pos <= |buf| && AllShaped(name, fields) && DecodeStep(buf, name, pos, fields) == Goes(next, p)
    ensures Leads(buf, name, pos, end, fields, p, next)
  {
  }

  /** All fields from `k` on are read. */
  lemma {:induction false} ReadsFields(buf: Bytes, name: Name, m: Msg, k: nat, pos: nat, end: nat, fields: seq<Value>)
    requires WellTyped(name, m) && ReadSoFar(name, m, k, fields) && AllShaped(name, fields)
    requires HasAt(buf, pos, EncodeFields(name, m, k)) && end == pos + |EncodeFields(name, m, k)|
    requires |EncodeFields(name, m, k)| < UINT32
    ensures DecodeFields(buf, name, pos, end, fields) == Some(At(m, end))
    decreases m, |Fields(name)| + 1 - k
  {
    if k == |m.fields| {
      assert fields == m.fields;
    } else {
      var kind, v := Fields(name)[k], m.fields[k];
      assert Typed(kind, v);
      var field := EncodeField(kind, k + 1, v);
      HasParts(buf, pos, field, EncodeFields(name, m, k + 1));
      SoFarNext(name, m, k, fields);
      var p, next := pos + |field|, fields[k := v];
      ReadsField(buf, name, kind, v, k, pos, end, fields, p, next);
      ReadsFields(buf, name, m, k + 1, p, end, next);
    }
  }

  lemma {:induction false} SoFarNext(name: Name, m: Msg, k: nat, fields: seq<Value>)
    requires WellTyped(name, m) && ReadSoFar(name, m, k, fields) && k < |m.fields|
    ensures fields[k] == Unset(Fields(name)[k])
    ensures ReadSoFar(name, m, k + 1, fields[k := m.fields[k]])
    ensures AllShaped(name, fields[k := m.fields[k]])
  {
    SoFarShaped(name, m, k + 1, fields[k := m.fields[k]]);
  }

  /** The fields with the value set at a position of its kind. */
  predicate SetAt(name: Name, kind: Kind, v: Value, k: nat, fields: seq<Value>, next: seq<Value>) {
    && AllShaped(name, fields) && AllShaped(name, next)
    && k < |fields| && kind == Fields(name)[k] && next == fields[k := v]
  }

  /** A field is read, whatever its kind. */
  lemma {:induction false} ReadsField(buf: Bytes, name: Name, kind: Kind, v: Value, k: nat, pos: nat, end: nat, fields: seq<Value>,
                                      p: nat, next: seq<Value>)
    requires SetAt(name, kind, v, k, fields, next) && Typed(kind, v) && fields[k] == Unset(kind)
    requires var field := EncodeField(kind, k + 1, v);
             HasAt(buf, pos, field) && |field| < UINT32 && p == pos + |field| <= end
    ensures Leads(buf, name, pos, end, fields, p, next)
    decreases v, 2
  {
    if v == Unset(kind) {
      assert next == fields;
    } else if kind.KMany? {
      assert v.subs[..0] == [];
      ReadsSubs(buf, name, kind, v, k, 0, pos, end, fields, p, next);
    } else {
      var at := pos + |Varint(Tag(kind, k + 1))|;
      SingleParts(buf, kind, k, v, pos, at);
      ReadsPayload(buf, kind, at, v, fields[k]);
      ReadsTag(buf, kind, k, pos, at);
      TurnReads(buf, name, kind, v, k, pos, at, |Payload(kind, v)|, end, fields, p, next);
    }
  }

  /** Where the tag and the value of a field with a single value stand. */
  lemma {:induction false} SingleParts(buf: Bytes, kind: Kind, k: nat, v: Value, pos: nat, at: nat)
    requires Typed(kind, v) && !kind.KMany? && v != Unset(kind) && HasAt(buf, pos, EncodeField(kind, k + 1, v))
    requires at == pos + |Varint(Tag(kind, k + 1))|
    ensures HasAt(buf, pos, Varint(Tag(kind, k + 1))) && HasAt(buf, at, Payload(kind, v))
    ensures at + |Payload(kind, v)| == pos + |EncodeField(kind, k + 1, v)|
  {
    SingleField(kind, k + 1, v);
    HasParts(buf, pos, Varint(Tag(kind, k + 1)), Payload(kind, v));
  }

  lemma {:induction false} SingleField(kind: Kind, number: nat, v: Value)
    requires Typed(kind, v) && !kind.KMany? && v != Unset(kind)
    ensures EncodeField(kind, number, v) == Varint(Tag(kind, number)) + Payload(kind, v)
  {
  }

  /** The step for a field whose tag has been read, and whose value is read behind it. */
  lemma {:induction false} StepReads(buf: Bytes, name: Name, kind: Kind, v: Value, k: nat, pos: nat, at: nat, size: nat,
                                     fields: seq<Value>, p: nat, next: seq<Value>)
    requires SetAt(name, kind, v, k, fields, next) && pos <= at <= |buf| && p == at + size
    requires ReadUint32(buf, pos) == Some(At(Tag(kind, k + 1), at)) && ReadsValue(buf, kind, at, v, size, fields[k])
    ensures DecodeStep(buf, name, pos, fields) == Goes(next, p)
  {
    assert Tag(kind, k + 1) / 8 == k + 1;
  }

  lemma {:induction false} ReadsTag(buf: Bytes, kind: Kind, k: nat, pos: nat, at: nat)
    requires HasAt(buf, pos, Varint(Tag(kind, k + 1))) && at == pos + |Varint(Tag(kind, k + 1))| && k < 16
    ensures ReadUint32(buf, pos) == Some(At(Tag(kind, k + 1), at))
  {
    ReadsUint32(buf, pos, Tag(kind, k + 1));
  }

  /** A whole turn of the decoder for a field whose value is read behind its tag. */
  lemma {:induction false} TurnReads(buf: Bytes, name: Name, kind: Kind, v: Value, k: nat, pos: nat, at: nat, size: nat,
                                     end: nat, fields: seq<Value>, p: nat, next: seq<Value>)
    requires SetAt(name, kind, v, k, fields, next) && pos < end && pos <= at <= |buf| && p == at + size
    requires ReadUint32(buf, pos) == Some(At(Tag(kind, k + 1), at)) && ReadsValue(buf, kind, at, v, size, fields[k])
    ensures Leads(buf, name, pos, end, fields, p, next)
  {
    StepReads(buf, name, kind, v, k, pos, at, size, fields, p, next);
    GoesOn(buf, name, pos, end, fields, next, p);
  }

  /** One of the repeated messages is read. */
  lemma {:induction false} ReadsOneSub(buf: Bytes, name: Name, sub: Msg, e: Bytes, k: nat, pos: nat, end: nat,
                                       fields: seq<Value>, sn: Name, p: nat, next: seq<Value>)
    requires k < |next| && SetAt(name, KMany(sn), next[k], k, fields, next)
    requires next[k] == Many(fields[k].subs + [sub])
    requires var tag := Varint(Tag(KMany(sn), k + 1));
             && HasAt(buf, pos, tag + Delimited(e)) && |e| < UINT32 && p == pos + |tag + Delimited(e)| <= end
             && ReadsBack(buf, sn, pos + |tag| + |Varint(|e|)|, sub, |e|)
    ensures Leads(buf, name, pos, end, fields, p, next)
  {
    var tag := Varint(Tag(KMany(sn), k + 1));
    HasParts(buf, pos, tag, Delimited(e));
    ReadsRepeated(buf, sn, pos + |tag|, sub, e, fields[k]);
    ReadsTag(buf, KMany(sn), k, pos, pos + |tag|);
    TurnReads(buf, name, KMany(sn), next[k], k, pos, pos + |tag|, |Delimited(e)|, end, fields, p, next);
  }

  /** The repeated messages from `j` on. */
  lemma {:induction false} ReadsSubs(buf: Bytes, name: Name, kind: Kind, v: Value, k: nat, j: nat, pos: nat, end: nat,
                                     fields: seq<Value>, q: nat, last: seq<Value>)
    requires SetAt(name, kind, v, k, fields, last) && kind.KMany?
    requires Typed(kind, v) && j <= |v.subs| && fields[k] == Many(v.subs[..j])
    requires var subs := EncodeSubs(kind, k + 1, v, j);
             HasAt(buf, pos, subs) && |subs| < UINT32 && q == pos + |subs| <= end
    ensures Leads(buf, name, pos, end, fields, q, last)
    decreases v, 1, |v.subs| - j
  {
    if j == |v.subs| {
      assert v.subs[..j] == v.subs;
      assert last == fields;
    } else {
      var part, rest := SubPart(buf, kind, v, k, j, pos);
      var next := NextSubs(name, kind, v, k, j, fields, last);
      var p := pos + |part|;
      ReadsOneSub(buf, name, v.subs[j], EncodeMsg(kind.name, v.subs[j]), k, pos, end, fields, kind.name, p, next);
      ReadsSubs(buf, name, kind, v, k, j + 1, p, end, next, q, last);
      LeadsVia(buf, name, pos, end, fields, p, next, q, last);
    }
  }

  lemma {:induction false} NextSubs(name: Name, kind: Kind, v: Value, k: nat, j: nat, fields: seq<Value>, last: seq<Value>)
    returns (next: seq<Value>)
    requires SetAt(name, kind, v, k, fields, last) && kind.KMany?
    requires v.Many? && j < |v.subs| && fields[k] == Many(v.subs[..j])
    ensures k < |next|
    ensures SetAt(name, kind, next[k], k, fields, next) && SetAt(name, kind, v, k, next, last)
    ensures next[k] == Many(v.subs[..j + 1]) == Many(fields[k].subs + [v.subs[j]])
  {
    next := fields[k := Many(v.subs[..j + 1])];
  }

  lemma {:induction false} LeadsVia(buf: Bytes, name: Name, pos: nat, end: nat, fields: seq<Value>, p: nat, next: seq<Value>,
                                    q: nat, last: seq<Value>)
    requires Leads(buf, name, pos, end, fields, p, next) && Leads(buf, name, p, end, next, q, last)
    ensures Leads(buf, name, pos, end, fields, q, last)
  {
  }

  /** The bytes of the message at `j`, whose reading the induction gives. */
  lemma {:induction false} SubPart(buf: Bytes, kind: Kind, v: Value, k: nat, j: nat, pos: nat)
    returns (part: Bytes, rest: Bytes)
    requires kind.KMany? && Typed(kind, v) && j < |v.subs|
    requires var subs := EncodeSubs(kind, k + 1, v, j); HasAt(buf, pos, subs) && |subs| < UINT32
    ensures var tag, e := Varint(Tag(kind, k + 1)), EncodeMsg(kind.name, v.subs[j]);
            && part == tag + Delimited(e) && HasAt(buf, pos, part) && |e| < UINT32
            && ReadsBack(buf, kind.name, pos + |tag| + |Varint(|e|)|, v.subs[j], |e|)
    ensures rest == EncodeSubs(kind, k + 1, v, j + 1) && HasAt(buf, pos + |part|, rest)
    ensures |EncodeSubs(kind, k + 1, v, j)| == |part| + |rest| && |part| > 0
    decreases v, 0, 0
  {
    var tag, e := Varint(Tag(kind, k + 1)), EncodeMsg(kind.name, v.subs[j]);
    part, rest := tag + Delimited(e), EncodeSubs(kind, k + 1, v, j + 1);
    HasParts(buf, pos, part, rest);
    HasParts(buf, pos, tag, Delimited(e));
    DelimitedParts(buf, pos + |tag|, e, pos + |tag| + |Varint(|e|)|);
    ReadsMsg(buf, kind.name, v.subs[j], pos + |tag| + |Varint(|e|)|);
  }

  /** Decoding the encoding of any message of less than 4 GB gives the message back. */
  lemma {:induction false} RoundTrip(name: Name, m: Msg)
    requires WellTyped(name, m) && |EncodeMsg(name, m)| < UINT32
    ensures Decode(name, EncodeMsg(name, m)) == Some(m)
  {
    ReadsMsg(EncodeMsg(name, m), name, m, 0);
  }

  /** Different messages have different encodings, so a signature covers every field. */
  lemma {:induction false} EncodingTellsApart(name: Name, m: Msg, n: Msg)
    requires WellTyped(name, m) && WellTyped(name, n) && |EncodeMsg(name, m)| < UINT32
    requires EncodeMsg(name, m) == EncodeMsg(name, n)
    ensures m == n
  {
    RoundTrip(name, m);
    RoundTrip(name, n);
  }

  // ----- signatures -----

  /** `signatures: undefined`. */
  function Unsigned(request: Msg): Msg
    requires WellTyped(ClaimTunnelRequest, request)
  {
    Msg(request.fields[SIGNATURES := Sub(None)])
  }

  function WithSignature(request: Msg, signature: Bytes): Msg
    requires WellTyped(ClaimTunnelRequest, request)
  {
    Msg(request.fields[SIGNATURES := Sub(Some(Msg([Raw(signature)])))])
  }

  lemma {:induction false} SignedTyped(request: Msg, signature: Bytes)
    requires WellTyped(ClaimTunnelRequest, request)
    ensures WellTyped(ClaimTunnelRequest, Unsigned(request))
    ensures WellTyped(ClaimTunnelRequest, WithSignature(request, signature))
  {
    var sub := Msg([Raw(signature)]);
    assert Fields(ClaimTunnelRequest)[SIGNATURES] == KSub(Signatures);
    assert WellTyped(Signatures, sub);
    assert Typed(KSub(Signatures), Sub(Some(sub)));
    forall k | 0 <= k < |request.fields|
      ensures Typed(Fields(ClaimTunnelRequest)[k], Unsigned(request).fields[k])
      ensures Typed(Fields(ClaimTunnelRequest)[k], WithSignature(request, signature).fields[k])
    {
      assert Typed(Fields(ClaimTunnelRequest)[k], request.fields[k]);
    }
  }

  /**
   The client signs the encoding of its request without signatures, and sends the
   request with the signature; the attestor decodes it, takes the signatures out and
   encodes it again: these are the bytes that were signed.
   */
  lemma {:induction false} SignatureAgreement(request: Msg, signature: Bytes)
    requires WellTyped(ClaimTunnelRequest, request) && request.fields[SIGNATURES] == Sub(None)
    requires WellTyped(ClaimTunnelRequest, WithSignature(request, signature))
             && |EncodeMsg(ClaimTunnelRequest, WithSignature(request, signature))| < UINT32
    ensures var received := Decode(ClaimTunnelRequest, EncodeMsg(ClaimTunnelRequest, WithSignature(request, signature)));
            && received.Some? && WellTyped(ClaimTunnelRequest, received.value)
            && received.value.fields[SIGNATURES] == Sub(Some(Msg([Raw(signature)])))
            && WellTyped(ClaimTunnelRequest, Unsigned(received.value))
            && EncodeMsg(ClaimTunnelRequest, Unsigned(received.value)) == EncodeMsg(ClaimTunnelRequest, request)
  {
    RoundTrip(ClaimTunnelRequest, WithSignature(request, signature));
    SignedTyped(WithSignature(request, signature), signature);
    assert Unsigned(WithSignature(request, signature)).fields == request.fields;
  }
}
