/**
 The bytes on the wire: the encoding of every message as the Protocol Buffers wire format
 lays it out, and decoders that pass over whatever fields they do not know.
 */
module ProtobufWire {
  import opened ByteData
  import opened Protobuf
  import opened ProtobufRoundTrip

  // ----- numbers in base 128 -----

  /** The number that a run of bytes stands for: 7 bits each, the low ones first. */
  function Base128(e: Bytes): nat {
    if e == [] then 0 else e[0] % 128 + 128 * Base128(e[1..])
  }

  /** The bytes stand for the number: all but the last with the high bit set, and no useless zero at the end. */
  predicate Spells(e: Bytes, n: nat) {
    && e != [] && Base128(e) == n
    && (forall i :: 0 <= i < |e| - 1 ==> e[i] >= 128)
    && e[|e| - 1] < 128 && (|e| > 1 ==> e[|e| - 1] > 0)
  }

  lemma {:induction false} VarintSpells(n: nat)
    ensures Spells(Varint(n), n)
    decreases n
  {
    if n >= 128 {
      VarintSpells(n / 128);
      assert Varint(n)[1..] == Varint(n / 128);
    }
  }

  /** The numbers are written in base 128 in the one shortest way. */
  lemma {:induction false} VarintExactly(e: Bytes, n: nat)
    ensures e == Varint(n) <==> Spells(e, n)
    decreases |e|
  {
    VarintSpells(n);
    if Spells(e, n) {
      if |e| == 1 {
        assert e[1..] == [] && e == [e[0]];
      } else {
        var rest := e[1..];
        assert Spells(rest, n / 128);
        VarintExactly(rest, n / 128);
        LastDigit(e, rest, n);
      }
    }
  }

  lemma {:induction false} LastDigit(e: Bytes, rest: Bytes, n: nat)
    requires |e| > 1 && rest == e[1..] && e[0] >= 128 && Base128(e) == n && rest == Varint(n / 128) && Base128(rest) > 0
    ensures e == Varint(n)
  {
    assert e == [e[0]] + rest;
  }

  // ----- the encoding of messages -----

  /** How a field is laid out: its tag, which holds its number and its wire type, and its kind of value. */
  datatype Wire = Number(tag: Byte) | Text(tag: Byte) | Message(tag: Byte, name: Name) | Messages(tag: Byte, name: Name)

  /** The tags that the generated encoders write, field by field. */
  function Layout(name: Name): seq<Wire> {
    match name
    case ClaimTunnelRequest =>
      [Message(10, CreateTunnelRequest), Message(18, ClaimRequestData), Messages(26, TranscriptMessage),
       Message(34, Signatures), Number(40), Text(50), Text(58)]
    case CreateTunnelRequest => [Number(8), Text(18), Number(24), Text(34)]
    case ClaimRequestData => [Text(10), Text(18), Text(26), Number(32), Text(42)]
    case Signatures => [Text(10)]
    case TranscriptMessage => [Number(8), Text(18), Message(26, MessageReveal)]
    case MessageReveal => [Message(10, MessageRevealDirect), Message(18, MessageRevealZk)]
    case MessageRevealDirect => [Text(10), Text(18), Number(24)]
    case MessageRevealZk => [Messages(10, ZkProof)]
    case ZkProof => [Text(10), Text(18), Text(26), Number(32), Text(42), Message(50, ToprfPayload)]
    case ToprfPayload => [Message(10, DataSlice), Text(18), Messages(26, ToprfResponse)]
    case DataSlice => [Number(8), Number(16)]
    case ToprfResponse => [Text(10), Text(18), Text(26), Text(34)]
  }

  /** The value has the kind that the layout says. */
  predicate Suits(w: Wire, v: Value) {
    match w
    case Number(_) => v.Num? && -0x8000_0000 <= v.n < 0x1_0000_0000
    case Text(_) => v.Raw?
    case Message(_, name) => v.Sub? && (v.sub.Some? ==> WellTyped(name, v.sub.value))
    case Messages(_, name) => v.Many? && forall j :: 0 <= j < |v.subs| ==> WellTyped(name, v.subs[j])
  }

  /** Its bytes: nothing for a value that is not set; negative numbers in 64 bits; lengths in front of bytes. */
  function OnWire(w: Wire, v: Value): Bytes
    requires Suits(w, v)
  {
    match w
    case Number(tag) =>
      if v.n == 0 then [] else [tag] + Varint(if v.n < 0 then v.n + 0x1_0000_0000_0000_0000 else v.n)
    case Text(tag) => if v.bytes == [] then [] else [tag] + (Varint(|v.bytes|) + v.bytes)
    case Message(tag, name) => if v.sub == None then [] else MessageOnWire(tag, name, v.sub.value)
    case Messages(tag, name) => MessagesOnWire(tag, name, v.subs, 0)
  }

  function MessageOnWire(tag: Byte, name: Name, m: Msg): Bytes
    requires WellTyped(name, m)
  {
    [tag] + (Varint(|EncodeMsg(name, m)|) + EncodeMsg(name, m))
  }

  function MessagesOnWire(tag: Byte, name: Name, ms: seq<Msg>, j: nat): Bytes
    requires j <= |ms| && forall i :: 0 <= i < |ms| ==> WellTyped(name, ms[i])
    decreases |ms| - j
  {
    if j == |ms| then [] else MessageOnWire(tag, name, ms[j]) + MessagesOnWire(tag, name, ms, j + 1)
  }

  /** The fields from `k` on, one behind the other. */
  function FieldsOnWire(layout: seq<Wire>, values: seq<Value>, k: nat): Bytes
    requires k <= |layout| == |values| && forall i :: 0 <= i < |layout| ==> Suits(layout[i], values[i])
    decreases |layout| - k
  {
    if k == |layout| then [] else OnWire(layout[k], values[k]) + FieldsOnWire(layout, values, k + 1)
  }

  /** A field is laid out as its kind and number say. */
  predicate LaidOut(w: Wire, kind: Kind, number: nat)
    requires 8 * number + 2 < 128
  {
    match kind
    case KUint => w == Number(8 * number)
    case KInt => w == Number(8 * number)
    case KBytes => w == Text(8 * number + 2)
    case KSub(name) => w == Message(8 * number + 2, name)
    case KMany(name) => w == Messages(8 * number + 2, name)
  }

  lemma {:induction false} LayoutOf(name: Name)
    ensures |Layout(name)| == |Fields(name)|
    ensures forall k :: 0 <= k < |Fields(name)| ==> 8 * (k + 1) + 2 < 128 && LaidOut(Layout(name)[k], Fields(name)[k], k + 1)
  {
  }

  lemma {:induction false} SubsOnWire(w: Wire, kind: Kind, number: nat, v: Value, j: nat)
    requires 8 * number + 2 < 128 && LaidOut(w, kind, number) && kind.KMany? && Typed(kind, v) && j <= |v.subs|
    ensures EncodeSubs(kind, number, v, j) == MessagesOnWire(w.tag, kind.name, v.subs, j)
    decreases |v.subs| - j
  {
    if j < |v.subs| {
      SubsOnWire(w, kind, number, v, j + 1);
      assert Varint(8 * number + 2) == [w.tag];
    }
  }

  lemma {:induction false} FieldOnWire(w: Wire, kind: Kind, number: nat, v: Value)
    requires 8 * number + 2 < 128 && LaidOut(w, kind, number) && Typed(kind, v)
    ensures Suits(w, v) && EncodeField(kind, number, v) == OnWire(w, v)
  {
    assert Varint(w.tag) == [w.tag];
    if kind.KMany? {
      SubsOnWire(w, kind, number, v, 0);
    }
  }

  lemma {:induction false} RestOnWire(name: Name, m: Msg, k: nat)
    requires WellTyped(name, m) && k <= |m.fields|
    requires |Layout(name)| == |m.fields| && forall i :: 0 <= i < |m.fields| ==> Suits(Layout(name)[i], m.fields[i])
    ensures EncodeFields(name, m, k) == FieldsOnWire(Layout(name), m.fields, k)
    decreases |m.fields| - k
  {
    if k < |m.fields| {
      LayoutOf(name);
      FieldOnWire(Layout(name)[k], Fields(name)[k], k + 1, m.fields[k]);
      RestOnWire(name, m, k + 1);
    }
  }

  /** The encoding of every message is its fields as they are laid out, one behind the other. */
  lemma {:induction false} EncodedAsLaidOut(name: Name, m: Msg)
    requires WellTyped(name, m)
    ensures |Layout(name)| == |m.fields| && forall k :: 0 <= k < |m.fields| ==> Suits(Layout(name)[k], m.fields[k])
    ensures EncodeMsg(name, m) == FieldsOnWire(Layout(name), m.fields, 0)
  {
    LayoutOf(name);
    forall k | 0 <= k < |m.fields|
      ensures Suits(Layout(name)[k], m.fields[k])
    {
      FieldOnWire(Layout(name)[k], Fields(name)[k], k + 1, m.fields[k]);
    }
    RestOnWire(name, m, 0);
  }

  // ----- fields that a decoder does not know -----

  /** A field of any wire type: a number, 8 bytes, bytes with their length, a group of fields, 4 bytes. */
  datatype Field =
    | Varied(number: nat, n: nat)
    | Fixed64(number: nat, bytes: Bytes)
    | Delimiting(number: nat, bytes: Bytes)
    | Group(number: nat, fields: seq<Field>)
    | Fixed32(number: nat, bytes: Bytes)

  function WireType(f: Field): nat {
    match f
    case Varied(_, _) => 0
    case Fixed64(_, _) => 1
    case Delimiting(_, _) => 2
    case Group(_, _) => 3
    case Fixed32(_, _) => 5
  }

  predicate Proper(f: Field)
    decreases f
  {
    && 1 <= f.number < 0x2000_0000
    && match f
       case Varied(_, _) => true
       case Fixed64(_, bytes) => |bytes| == 8
       case Delimiting(_, bytes) => |bytes| < 0x1_0000_0000
       case Group(_, fields) => AllProper(fields)
       case Fixed32(_, bytes) => |bytes| == 4
  }

  predicate AllProper(fields: seq<Field>)
    decreases fields
  {
    forall i :: 0 <= i < |fields| ==> Proper(fields[i])
  }

  /** The bytes behind the field's tag; a group ends with a tag of its own. */
  function Behind(f: Field): Bytes
    decreases f, 0
  {
    match f
    case Varied(_, n) => Varint(n)
    case Fixed64(_, bytes) => bytes
    case Delimiting(_, bytes) => Varint(|bytes|) + bytes
    case Group(number, fields) => AllBytes(fields) + Varint(8 * number + 4)
    case Fixed32(_, bytes) => bytes
  }

  function FieldBytes(f: Field): Bytes
    decreases f, 1
  {
    Varint(8 * f.number + WireType(f)) + Behind(f)
  }

  function AllBytes(fields: seq<Field>): Bytes
    decreases fields, 0
  {
    if fields == [] then [] else FieldBytes(fields[0]) + AllBytes(fields[1..])
  }

  lemma {:induction false} SkipsVarint(buf: Bytes, pos: nat, n: nat)
    requires HasAt(buf, pos, Varint(n))
    ensures SkipVarint(buf, pos) == Some(pos + |Varint(n)|)
    decreases n
  {
    assert buf[pos] == buf[pos..pos + |Varint(n)|][0];
    if n >= 128 {
      HasParts(buf, pos, [128 + n % 128], Varint(n / 128));
      SkipsVarint(buf, pos + 1, n / 128);
    }
  }

  lemma {:induction false} ReadsTagOf(buf: Bytes, pos: nat, tag: nat)
    requires HasAt(buf, pos, Varint(tag)) && tag < 0x1_0000_0000
    ensures ReadUint32(buf, pos) == Some(At(tag, pos + |Varint(tag)|))
  {
    ReadsUint32(buf, pos, tag);
  }

  lemma {:induction false} GroupEnds(buf: Bytes, pos: nat, own: nat, p: nat, number: Option<nat>)
    requires ReadUint32(buf, pos) == Some(At(8 * own + 4, p)) && own > 0 && number in {None, Some(own)}
    ensures SkipGroup(buf, pos, number) == Some(p)
  {
  }

  lemma {:induction false} GroupGoesOn(buf: Bytes, pos: nat, f: Field, p: nat, next: nat, number: Option<nat>)
    requires ReadUint32(buf, pos) == Some(At(8 * f.number + WireType(f), p)) && f.number > 0
    requires SkipField(buf, p, WireType(f), Some(f.number)) == Some(next)
    ensures SkipGroup(buf, pos, number) == SkipGroup(buf, next, number)
  {
    var tag := 8 * f.number + WireType(f);
    assert tag / 8 == f.number && tag % 8 == WireType(f);
  }

  lemma {:induction false} SkipsDelimited(buf: Bytes, pos: nat, bytes: Bytes, number: Option<nat>)
    requires |bytes| < 0x1_0000_0000 && HasAt(buf, pos, Varint(|bytes|) + bytes)
    ensures SkipField(buf, pos, 2, number) == Some(pos + |Varint(|bytes|) + bytes|)
  {
    ReadsDelimited(buf, pos, bytes, pos + |Varint(|bytes|)|);
  }

  lemma {:induction false} SkipsFixed(buf: Bytes, pos: nat, f: Field, number: Option<nat>)
    requires Proper(f) && HasAt(buf, pos, Behind(f)) && (f.Fixed64? || f.Fixed32?)
    ensures SkipField(buf, pos, WireType(f), number) == Some(pos + |Behind(f)|)
  {
  }

  lemma {:induction false} IsGroup(buf: Bytes, pos: nat, number: Option<nat>)
    ensures SkipField(buf, pos, 3, number) == SkipGroup(buf, pos, number)
  {
  }

  lemma {:induction false} SkipsVaried(buf: Bytes, pos: nat, n: nat, number: Option<nat>)
    requires HasAt(buf, pos, Varint(n))
    ensures SkipField(buf, pos, 0, number) == Some(pos + |Varint(n)|)
  {
    SkipsVarint(buf, pos, n);
  }

  lemma {:induction false} SkipsPlain(buf: Bytes, pos: nat, f: Field, number: Option<nat>)
    requires Proper(f) && HasAt(buf, pos, Behind(f)) && !f.Group?
    ensures SkipField(buf, pos, WireType(f), number) == Some(pos + |Behind(f)|)
  {
    if f.Varied? {
      SkipsVaried(buf, pos, f.n, number);
    } else if f.Delimiting? {
      SkipsDelimited(buf, pos, f.bytes, number);
    } else {
      SkipsFixed(buf, pos, f, number);
    }
  }

  /** Skipping passes over exactly the field's bytes. */
  lemma {:induction false} SkipsField(buf: Bytes, pos: nat, f: Field, number: Option<nat>)
    requires Proper(f) && HasAt(buf, pos, Behind(f)) && number in {None, Some(f.number)}
    ensures SkipField(buf, pos, WireType(f), number) == Some(pos + |Behind(f)|)
    decreases f, 1
  {
    if f.Group? {
      IsGroup(buf, pos, number);
      var next := SkipsGroup(buf, pos, f.fields, f.number, number, Behind(f));
    } else {
      SkipsPlain(buf, pos, f, number);
    }
  }

  lemma {:induction false} SkipsGroup(buf: Bytes, pos: nat, fields: seq<Field>, own: nat, number: Option<nat>, bytes: Bytes)
    returns (next: nat)
    requires AllProper(fields) && 1 <= own < 0x2000_0000 && number in {None, Some(own)}
    requires bytes == AllBytes(fields) + Varint(8 * own + 4) && HasAt(buf, pos, bytes)
    ensures next == pos + |bytes| && SkipGroup(buf, pos, number) == Some(next)
    decreases fields, 0
  {
    next := pos + |bytes|;
    if fields == [] {
      assert bytes == Varint(8 * own + 4);
      ReadsTagOf(buf, pos, 8 * own + 4);
      GroupEnds(buf, pos, own, next, number);
    } else {
      var f, rest := fields[0], fields[1..];
      assert fields == [f] + rest;
      var p, q, later := FirstOfGroup(buf, pos, f, rest, own, bytes);
      SkipsField(buf, p, f, Some(f.number));
      GroupGoesOn(buf, pos, f, p, q, number);
      next := SkipsGroup(buf, q, rest, own, number, later);
    }
  }

  lemma {:induction false} FirstOfGroup(buf: Bytes, pos: nat, f: Field, rest: seq<Field>, own: nat, bytes: Bytes)
    returns (p: nat, q: nat, later: Bytes)
    requires Proper(f) && bytes == AllBytes([f] + rest) + Varint(8 * own + 4) && HasAt(buf, pos, bytes)
    ensures ReadUint32(buf, pos) == Some(At(8 * f.number + WireType(f), p)) && HasAt(buf, p, Behind(f)) && q == p + |Behind(f)|
    ensures later == AllBytes(rest) + Varint(8 * own + 4) && HasAt(buf, q, later) && q + |later| == pos + |bytes|
  {
    later := AllBytes(rest) + Varint(8 * own + 4);
    assert ([f] + rest)[1..] == rest;
    Regroup(FieldBytes(f), AllBytes(rest), Varint(8 * own + 4));
    HasParts(buf, pos, FieldBytes(f), later);
    p := TagThenValue(buf, pos, f);
    q := pos + |FieldBytes(f)|;
  }

  lemma {:induction false} TagThenValue(buf: Bytes, pos: nat, f: Field) returns (p: nat)
    requires Proper(f) && HasAt(buf, pos, FieldBytes(f))
    ensures ReadUint32(buf, pos) == Some(At(8 * f.number + WireType(f), p)) && HasAt(buf, p, Behind(f))
    ensures p + |Behind(f)| == pos + |FieldBytes(f)|
  {
    var tag := Varint(8 * f.number + WireType(f));
    p := pos + |tag|;
    HasParts(buf, pos, tag, Behind(f));
    ReadsTagOf(buf, pos, 8 * f.number + WireType(f));
  }

  // ----- messages with such fields in between -----

  /** None of the tags of the message is the field's. */
  predicate Unknown(name: Name, f: Field) {
    forall k :: 0 <= k < |Layout(name)| ==> Layout(name)[k].tag != 8 * f.number + WireType(f)
  }

  predicate AllUnknown(name: Name, fields: seq<Field>) {
    forall i :: 0 <= i < |fields| ==> Proper(fields[i]) && Unknown(name, fields[i])
  }

  lemma {:induction false} UnknownTag(name: Name, f: Field)
    requires Unknown(name, f) && f.number > 0
    ensures var tag := 8 * f.number + WireType(f);
            && tag / 8 == f.number && tag % 8 == WireType(f)
            && !(1 <= tag / 8 <= |Fields(name)| && tag == Tag(Fields(name)[tag / 8 - 1], tag / 8))
  {
    var tag := 8 * f.number + WireType(f);
    assert tag / 8 == f.number && tag % 8 == WireType(f);
    LayoutOf(name);
    if f.number <= |Fields(name)| {
      var k := f.number - 1;
      assert LaidOut(Layout(name)[k], Fields(name)[k], k + 1);
    }
  }

  lemma {:induction false} StepSkips(buf: Bytes, name: Name, pos: nat, fields: seq<Value>, f: Field, p: nat, q: nat)
    requires pos <= |buf| && AllShaped(name, fields) && Unknown(name, f) && f.number > 0
    requires ReadUint32(buf, pos) == Some(At(8 * f.number + WireType(f), p))
    requires SkipField(buf, p, WireType(f), None) == Some(q)
    ensures DecodeStep(buf, name, pos, fields) == Goes(fields, q)
  {
    UnknownTag(name, f);
  }

  /** The decoder passes over a field that it does not know. */
  lemma {:induction false} PassesOver(buf: Bytes, name: Name, pos: nat, end: nat, fields: seq<Value>, f: Field)
    requires AllShaped(name, fields) && Proper(f) && Unknown(name, f)
    requires HasAt(buf, pos, FieldBytes(f)) && pos + |FieldBytes(f)| <= end
    ensures Leads(buf, name, pos, end, fields, pos + |FieldBytes(f)|, fields)
  {
    var p := TagThenValue(buf, pos, f);
    SkipsField(buf, p, f, None);
    StepSkips(buf, name, pos, fields, f, p, pos + |FieldBytes(f)|);
    GoesOn(buf, name, pos, end, fields, fields, pos + |FieldBytes(f)|);
  }

  /** Decoding has come to `p`, in front of these fields, with nothing read. */
  predicate PassedTo(buf: Bytes, name: Name, pos: nat, end: nat, fields: seq<Value>, p: nat, left: seq<Field>, q: nat) {
    && Leads(buf, name, pos, end, fields, p, fields) && HasAt(buf, p, AllBytes(left)) && p + |AllBytes(left)| == q <= end
  }

  lemma {:induction false} PassedNext(buf: Bytes, name: Name, pos: nat, end: nat, fields: seq<Value>, p: nat, left: seq<Field>,
                                      q: nat)
    returns (next: nat)
    requires left != [] && Proper(left[0]) && Unknown(name, left[0])
    requires PassedTo(buf, name, pos, end, fields, p, left, q)
    ensures PassedTo(buf, name, pos, end, fields, next, left[1..], q)
  {
    var r: nat;
    next, r := AllBytesParts(buf, p, left);
    PassesOver(buf, name, p, end, fields, left[0]);
    LeadsVia(buf, name, pos, end, fields, p, fields, next, fields);
  }

  lemma {:induction false} PassesOverAll(buf: Bytes, name: Name, pos: nat, end: nat, fields: seq<Value>, us: seq<Field>)
    requires AllShaped(name, fields) && AllUnknown(name, us)
    requires HasAt(buf, pos, AllBytes(us)) && pos + |AllBytes(us)| <= end
    ensures Leads(buf, name, pos, end, fields, pos + |AllBytes(us)|, fields)
  {
    var p, q, left := pos, pos + |AllBytes(us)|, us;
    for i := 0 to |us|
      invariant left == us[i..] && PassedTo(buf, name, pos, end, fields, p, left, q)
    {
      p := PassedNext(buf, name, pos, end, fields, p, left, q);
      left := left[1..];
    }
  }

  lemma {:induction false} AllBytesParts(buf: Bytes, pos: nat, us: seq<Field>) returns (p: nat, q: nat)
    requires us != [] && HasAt(buf, pos, AllBytes(us))
    ensures HasAt(buf, pos, FieldBytes(us[0])) && p == pos + |FieldBytes(us[0])|
    ensures HasAt(buf, p, AllBytes(us[1..])) && q == pos + |AllBytes(us)| == p + |AllBytes(us[1..])|
  {
    HasParts(buf, pos, FieldBytes(us[0]), AllBytes(us[1..]));
    p, q := pos + |FieldBytes(us[0])|, pos + |AllBytes(us)|;
  }

  /** What ends a message before its bytes end: a tag of 0, or one that ends a group, and anything behind it. */
  predicate EndsHere(tail: Bytes, tag: nat, junk: Bytes) {
    tail == Varint(tag) + junk && tag < 0x1_0000_0000 && (tag == 0 || tag % 8 == 4)
  }

  /** The fields from `k` on, with others in front of each of them and behind the last. */
  function Mixed(name: Name, m: Msg, us: seq<seq<Field>>, k: nat): Bytes
    requires WellTyped(name, m) && |us| == |m.fields| + 1 && k <= |m.fields|
    decreases |m.fields| - k
  {
    if k == |m.fields| then AllBytes(us[k])
    else AllBytes(us[k]) + (EncodeField(Fields(name)[k], k + 1, m.fields[k]) + Mixed(name, m, us, k + 1))
  }

  /** Decoding has come to `p`, with the first `k` fields read. */
  predicate MixedTo(buf: Bytes, name: Name, m: Msg, us: seq<seq<Field>>, k: nat, end: nat, p: nat, fields: seq<Value>, q: nat)
    requires WellTyped(name, m) && |us| == |m.fields| + 1
  {
    && k <= |m.fields| && Leads(buf, name, 0, end, Base(name).fields, p, fields) && ReadSoFar(name, m, k, fields)
    && HasAt(buf, p, Mixed(name, m, us, k)) && p + |Mixed(name, m, us, k)| == q <= end
  }

  /** The others in front of field `k` are passed over. */
  lemma {:induction false} FrontPassed(buf: Bytes, name: Name, m: Msg, us: seq<seq<Field>>, k: nat, end: nat, p: nat,
                                       fields: seq<Value>, q: nat)
    returns (at: nat, next: nat)
    requires WellTyped(name, m) && |us| == |m.fields| + 1 && k < |m.fields| && AllUnknown(name, us[k])
    requires MixedTo(buf, name, m, us, k, end, p, fields, q)
    ensures Leads(buf, name, 0, end, Base(name).fields, at, fields) && Typed(Fields(name)[k], m.fields[k])
    ensures var field := EncodeField(Fields(name)[k], k + 1, m.fields[k]);
            HasAt(buf, at, field) && next == at + |field| && |field| <= q - p
    ensures HasAt(buf, next, Mixed(name, m, us, k + 1)) && next + |Mixed(name, m, us, k + 1)| == q
  {
    at, next := MixedParts(buf, name, m, us, k, p);
    PassesOverAll(buf, name, p, end, fields, us[k]);
    LeadsVia(buf, name, 0, end, Base(name).fields, p, fields, at, fields);
  }

  lemma {:induction false} MixedNext(buf: Bytes, name: Name, m: Msg, us: seq<seq<Field>>, k: nat, end: nat, p: nat,
                                     fields: seq<Value>, q: nat)
    returns (next: nat, more: seq<Value>)
    requires WellTyped(name, m) && |us| == |m.fields| + 1 && k < |m.fields| && AllUnknown(name, us[k])
    requires q < p + UINT32 && MixedTo(buf, name, m, us, k, end, p, fields, q)
    ensures MixedTo(buf, name, m, us, k + 1, end, next, more, q)
  {
    var at: nat;
    at, next := FrontPassed(buf, name, m, us, k, end, p, fields, q);
    more := ReadsKth(buf, name, m, k, at, end, fields, next);
    LeadsVia(buf, name, 0, end, Base(name).fields, at, fields, next, more);
  }

  lemma {:induction false} ReadsMixed(buf: Bytes, name: Name, m: Msg, us: seq<seq<Field>>, end: nat)
    requires WellTyped(name, m) && |us| == |m.fields| + 1 && forall i :: 0 <= i < |us| ==> AllUnknown(name, us[i])
    requires HasAt(buf, 0, Mixed(name, m, us, 0)) && |Mixed(name, m, us, 0)| < UINT32 && |Mixed(name, m, us, 0)| <= end
    ensures AllShaped(name, m.fields)
    ensures Leads(buf, name, 0, end, Base(name).fields, |Mixed(name, m, us, 0)|, m.fields)
  {
    var p, q, fields := 0, |Mixed(name, m, us, 0)|, Base(name).fields;
    BaseSoFar(name, m, fields);
    for k := 0 to |m.fields|
      invariant MixedTo(buf, name, m, us, k, end, p, fields, q)
    {
      p, fields := MixedNext(buf, name, m, us, k, end, p, fields, q);
    }
    MixedDone(buf, name, m, us, end, p, fields, q);
  }

  lemma {:induction false} MixedDone(buf: Bytes, name: Name, m: Msg, us: seq<seq<Field>>, end: nat, p: nat,
                                     fields: seq<Value>, q: nat)
    requires WellTyped(name, m) && |us| == |m.fields| + 1 && AllUnknown(name, us[|m.fields|])
    requires MixedTo(buf, name, m, us, |m.fields|, end, p, fields, q)
    ensures AllShaped(name, m.fields) && Leads(buf, name, 0, end, Base(name).fields, q, m.fields)
  {
    assert fields == m.fields;
    PassesOverAll(buf, name, p, end, fields, us[|m.fields|]);
    LeadsVia(buf, name, 0, end, Base(name).fields, p, fields, q, fields);
  }

  lemma {:induction false} ReadsKth(buf: Bytes, name: Name, m: Msg, k: nat, p: nat, end: nat, fields: seq<Value>, q: nat)
    returns (next: seq<Value>)
    requires WellTyped(name, m) && k < |m.fields| && ReadSoFar(name, m, k, fields) && AllShaped(name, fields)
    requires Typed(Fields(name)[k], m.fields[k])
    requires var field := EncodeField(Fields(name)[k], k + 1, m.fields[k]);
             HasAt(buf, p, field) && |field| < UINT32 && q == p + |field| <= end
    ensures ReadSoFar(name, m, k + 1, next) && Leads(buf, name, p, end, fields, q, next)
  {
    next := fields[k := m.fields[k]];
    SoFarNext(name, m, k, fields);
    ReadsField(buf, name, Fields(name)[k], m.fields[k], k, p, end, fields, q, next);
  }

  /** Where the others end, and the field behind them. */
  lemma {:induction false} MixedParts(buf: Bytes, name: Name, m: Msg, us: seq<seq<Field>>, k: nat, pos: nat) returns (p: nat, q: nat)
    requires WellTyped(name, m) && |us| == |m.fields| + 1 && k < |m.fields| && HasAt(buf, pos, Mixed(name, m, us, k))
    ensures Typed(Fields(name)[k], m.fields[k])
    ensures var field := EncodeField(Fields(name)[k], k + 1, m.fields[k]);
            && HasAt(buf, pos, AllBytes(us[k])) && p == pos + |AllBytes(us[k])|
            && HasAt(buf, p, field) && q == p + |field| && |field| <= |Mixed(name, m, us, k)|
            && HasAt(buf, q, Mixed(name, m, us, k + 1))
            && q + |Mixed(name, m, us, k + 1)| == pos + |Mixed(name, m, us, k)|
  {
    assert Typed(Fields(name)[k], m.fields[k]);
    var front, field := AllBytes(us[k]), EncodeField(Fields(name)[k], k + 1, m.fields[k]);
    var rest := Mixed(name, m, us, k + 1);
    HasParts(buf, pos, front, field + rest);
    HasParts(buf, pos + |front|, field, rest);
    p, q := pos + |front|, pos + |front| + |field|;
  }

  /** Decoding ends at a tag that says so. */
  lemma {:induction false} StopsAt(buf: Bytes, name: Name, pos: nat, end: nat, fields: seq<Value>, tag: nat)
    requires AllShaped(name, fields) && pos < end && HasAt(buf, pos, Varint(tag)) && tag < 0x1_0000_0000
    requires tag == 0 || tag % 8 == 4
    ensures DecodeFields(buf, name, pos, end, fields) == Some(At(Msg(fields), pos + |Varint(tag)|))
  {
    ReadsTagOf(buf, pos, tag);
  }

  /**
   Decoders are ready for messages of other versions: between the fields of a message there
   may be any fields with other tags, groups included, and behind them a tag that ends the
   message and anything else. Decoding gives the message back all the same.
   */
  lemma {:induction false} UnknownPassedOver(name: Name, m: Msg, us: seq<seq<Field>>, tail: Bytes, tag: nat, junk: Bytes)
    requires WellTyped(name, m) && |us| == |m.fields| + 1 && forall i :: 0 <= i < |us| ==> AllUnknown(name, us[i])
    requires |Mixed(name, m, us, 0)| < 0x1_0000_0000 && (tail == [] || EndsHere(tail, tag, junk))
    ensures Decode(name, Mixed(name, m, us, 0) + tail) == Some(m)
  {
    var body := Mixed(name, m, us, 0);
    var buf, fields := body + tail, Base(name).fields;
    assert HasAt(buf, 0, body);
    ReadsMixed(buf, name, m, us, |buf|);
    if tail != [] {
      HasTail(body, tail, tag, junk);
      StopsAt(buf, name, |body|, |buf|, m.fields, tag);
    }
  }

  lemma {:induction false} HasTail(body: Bytes, tail: Bytes, tag: nat, junk: Bytes)
    requires EndsHere(tail, tag, junk)
    ensures HasAt(body + tail, |body|, Varint(tag))
  {
    assert (body + tail)[|body|..|body| + |tail|] == tail;
    HasParts(body + tail, |body|, Varint(tag), junk);
  }
}
