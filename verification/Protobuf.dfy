/**
 The binary form of a claim request: the wire format of Protocol Buffers, the fields of
 every message below `ClaimTunnelRequest`, and the generated encoders and decoders.
 */
module Protobuf {
  import opened ByteData

  // ----- messages -----

  datatype Name =
    | ClaimTunnelRequest | CreateTunnelRequest | ClaimRequestData | Signatures | TranscriptMessage
    | MessageReveal | MessageRevealDirect | MessageRevealZk | ZkProof | ToprfPayload | DataSlice | ToprfResponse

  /** Strings are their UTF-8 bytes, and enums their numbers. */
  datatype Kind = KUint | KInt | KBytes | KSub(name: Name) | KMany(name: Name)

  /** The fields in the order of their numbers, which count from 1. */
  function Fields(name: Name): (kinds: seq<Kind>)
    ensures 0 < |kinds| < 8
  {
    match name
    case ClaimTunnelRequest =>  // request, data, transcript, signatures, zkEngine, fixedServerIV, fixedClientIV
      [KSub(CreateTunnelRequest), KSub(ClaimRequestData), KMany(TranscriptMessage), KSub(Signatures), KInt, KBytes, KBytes]
    case CreateTunnelRequest => [KUint, KBytes, KUint, KBytes]  // id, host, port, geoLocation
    case ClaimRequestData => [KBytes, KBytes, KBytes, KUint, KBytes]  // provider, parameters, owner, timestampS, context
    case Signatures => [KBytes]  // requestSignature
    case TranscriptMessage => [KInt, KBytes, KSub(MessageReveal)]  // sender, message, reveal
    case MessageReveal => [KSub(MessageRevealDirect), KSub(MessageRevealZk)]
    case MessageRevealDirect => [KBytes, KBytes, KUint]  // key, iv, recordNumber
    case MessageRevealZk => [KMany(ZkProof)]
    case ZkProof =>  // proofJson, decryptedRedactedCiphertext, redactedPlaintext, startIdx, proofData, toprf
      [KBytes, KBytes, KBytes, KUint, KBytes, KSub(ToprfPayload)]
    case ToprfPayload => [KSub(DataSlice), KBytes, KMany(ToprfResponse)]  // dataLocation, nullifier, responses
    case DataSlice => [KUint, KUint]  // fromIndex, length
    case ToprfResponse => [KBytes, KBytes, KBytes, KBytes]  // publicKeyShare, evaluated, c, r
  }

  const SIGNATURES := 3  // the position of the signatures in a claim request

  datatype Value = Num(n: int) | Raw(bytes: Bytes) | Sub(sub: Option<Msg>) | Many(subs: seq<Msg>)

  datatype Msg = Msg(fields: seq<Value>)

  const UINT32 := 0x1_0000_0000
  const INT32 := 0x8000_0000

  predicate WellTyped(name: Name, m: Msg)
    decreases m, 1
  {
    && |m.fields| == |Fields(name)|
    && forall k :: 0 <= k < |m.fields| ==> Typed(Fields(name)[k], m.fields[k])
  }

  predicate Typed(kind: Kind, v: Value)
    decreases v, 0
  {
    match kind
    case KUint => v.Num? && 0 <= v.n < UINT32
    case KInt => v.Num? && -INT32 <= v.n < INT32
    case KBytes => v.Raw?
    case KSub(name) => v.Sub? && (v.sub.Some? ==> WellTyped(name, v.sub.value))
    case KMany(name) => v.Many? && forall k :: 0 <= k < |v.subs| ==> WellTyped(name, v.subs[k])
  }

  /** The value of a field that is not set. */
  function Unset(kind: Kind): (v: Value)
    ensures Typed(kind, v)
  {
    match kind
    case KUint => Num(0)
    case KInt => Num(0)
    case KBytes => Raw([])
    case KSub(_) => Sub(None)
    case KMany(_) => Many([])
  }

  /** `createBase…`. */
  function Base(name: Name): (m: Msg)
    ensures WellTyped(name, m)
    ensures forall k :: 0 <= k < |m.fields| ==> m.fields[k] == Unset(Fields(name)[k])
  {
    Msg(seq(|Fields(name)|, k requires 0 <= k < |Fields(name)| => Unset(Fields(name)[k])))
  }

  // ----- encoding -----

  /** Base 128, the low digits first. */
  function Varint(n: nat): (e: Bytes)
    ensures e != []
  {
    if n < 128 then [n] else [128 + n % 128] + Varint(n / 128)
  }

  /** A negative number in 64 bits. */
  function Wrap(n: int): (w: nat)
    requires -INT32 <= n < INT32
  {
    if n < 0 then n + UINT32 * UINT32 else n
  }

  function Tag(kind: Kind, number: nat): nat {
    number * 8 + if kind.KUint? || kind.KInt? then 0 else 2
  }

  function Delimited(bytes: Bytes): Bytes {
    Varint(|bytes|) + bytes
  }

  function EncodeMsg(name: Name, m: Msg): Bytes
    requires WellTyped(name, m)
    decreases m, |Fields(name)| + 2
  {
    EncodeFields(name, m, 0)
  }

  /** The fields from position `k` on. */
  function EncodeFields(name: Name, m: Msg, k: nat): Bytes
    requires WellTyped(name, m) && k <= |m.fields|
    decreases m, |Fields(name)| + 1 - k
  {
    if k == |m.fields| then []
    else EncodeField(Fields(name)[k], k + 1, m.fields[k]) + EncodeFields(name, m, k + 1)
  }

  function EncodeField(kind: Kind, number: nat, v: Value): Bytes
    requires Typed(kind, v)
    decreases v, if v.Many? then |v.subs| + 1 else 0
  {
    if v == Unset(kind) then []
    else
      var tag := Varint(Tag(kind, number));
      match kind
      case KUint => tag + Varint(v.n)
      case KInt => tag + Varint(Wrap(v.n))
      case KBytes => tag + Delimited(v.bytes)
      case KSub(name) => tag + Delimited(EncodeMsg(name, v.sub.value))
      case KMany(_) => EncodeSubs(kind, number, v, 0)
  }

  /** The repeated messages from position `j` on. */
  function EncodeSubs(kind: Kind, number: nat, v: Value, j: nat): Bytes
    requires kind.KMany? && Typed(kind, v) && j <= |v.subs|
    decreases v, |v.subs| - j
  {
    if j == |v.subs| then []
    else
      Varint(Tag(kind, number)) + Delimited(EncodeMsg(kind.name, v.subs[j])) + EncodeSubs(kind, number, v, j + 1)
  }

  // ----- decoding -----

  /** A value, and where reading goes on. */
  datatype At<+T> = At(value: T, pos: nat)

  function ReadVarint(buf: Bytes, pos: nat, budget: nat): (r: Option<At<nat>>)
    ensures r.Some? ==> pos < r.value.pos <= |buf|
    decreases budget
  {
    if pos >= |buf| || budget == 0 then None
    else if buf[pos] < 128 then Some(At(buf[pos], pos + 1))
    else
      match ReadVarint(buf, pos + 1, budget - 1)
      case None => None
      case Some(At(high, next)) => Some(At(buf[pos] - 128 + 128 * high, next))
  }

  /** At most ten bytes, of which the low 32 bits count. */
  function ReadUint32(buf: Bytes, pos: nat): (r: Option<At<nat>>)
    ensures r.Some? ==> pos < r.value.pos <= |buf|
  {
    match ReadVarint(buf, pos, 10)
    case None => None
    case Some(At(n, next)) => Some(At(n % UINT32, next))
  }

  function Signed(n: nat): int {
    if n < INT32 then n else n - UINT32
  }

  function ReadDelimited(buf: Bytes, pos: nat): (r: Option<At<Bytes>>)
    ensures r.Some? ==> pos < r.value.pos <= |buf|
  {
    match ReadUint32(buf, pos)
    case None => None
    case Some(At(length, start)) =>
      if start + length > |buf| then None else Some(At(buf[start..start + length], start + length))
  }

  function SkipVarint(buf: Bytes, pos: nat): (next: Option<nat>)
    ensures next.Some? ==> pos < next.value <= |buf|
    decreases |buf| - pos
  {
    if pos >= |buf| then None else if buf[pos] < 128 then Some(pos + 1) else SkipVarint(buf, pos + 1)
  }

  /** An unknown field is passed over; one that begins a group, up to the end of the group. */
  function SkipField(buf: Bytes, pos: nat, wire: nat, number: Option<nat>): (next: Option<nat>)
    ensures next.Some? ==> pos <= next.value <= |buf|
    decreases |buf| - pos, 1
  {
    if wire == 0 then SkipVarint(buf, pos)
    else if wire == 1 then if pos + 8 <= |buf| then Some(pos + 8) else None
    else if wire == 2 then
      match ReadDelimited(buf, pos)
      case None => None
      case Some(At(_, next)) => Some(next)
    else if wire == 3 then SkipGroup(buf, pos, number)
    else if wire == 5 then if pos + 4 <= |buf| then Some(pos + 4) else None
    else None
  }

  /** The fields of a group up to its end, which has the group's number if that is known. */
  function SkipGroup(buf: Bytes, pos: nat, number: Option<nat>): (next: Option<nat>)
    ensures next.Some? ==> pos <= next.value <= |buf|
    decreases |buf| - pos, 0
  {
    match ReadUint32(buf, pos)
    case None => None
    case Some(At(tag, p)) =>
      if tag / 8 == 0 || tag % 8 > 5 then None
      else if tag % 8 == 4 then if number in {None, Some(tag / 8)} then Some(p) else None
      else
        match SkipField(buf, p, tag % 8, Some(tag / 8))
        case None => None
        case Some(next) => SkipGroup(buf, next, number)
  }

  /** Values of the right kinds, whatever is inside. */
  predicate Shaped(kind: Kind, v: Value) {
    match kind
    case KUint => v.Num?
    case KInt => v.Num?
    case KBytes => v.Raw?
    case KSub(_) => v.Sub?
    case KMany(_) => v.Many?
  }

  predicate AllShaped(name: Name, fields: seq<Value>) {
    |fields| == |Fields(name)| && forall k :: 0 <= k < |fields| ==> Shaped(Fields(name)[k], fields[k])
  }

  /** One turn of a decoder's loop: the fields after it, or the end of the message. */
  datatype Step = Fails | Ends(pos: nat) | Goes(fields: seq<Value>, pos: nat)

  function DecodeStep(buf: Bytes, name: Name, pos: nat, fields: seq<Value>): (r: Step)
    requires pos <= |buf| && AllShaped(name, fields)
    ensures r.Ends? || r.Goes? ==> pos < r.pos <= |buf|
    ensures r.Goes? ==> AllShaped(name, r.fields)
    decreases |buf| - pos, 0
  {
    match ReadUint32(buf, pos)
    case None => Fails
    case Some(At(tag, p)) =>
      var number := tag / 8;
      if 1 <= number <= |Fields(name)| && tag == Tag(Fields(name)[number - 1], number) then
        match DecodeField(buf, Fields(name)[number - 1], p, fields[number - 1])
        case None => Fails
        case Some(At(v, q)) => Goes(fields[number - 1 := v], q)
      else if tag % 8 == 4 || tag == 0 then Ends(p)
      else
        match SkipField(buf, p, tag % 8, None)
        case None => Fails
        case Some(q) => Goes(fields, q)
  }

  /** The message in the bytes up to `end`, onto the fields read so far. */
  function DecodeFields(buf: Bytes, name: Name, pos: nat, end: nat, fields: seq<Value>): (r: Option<At<Msg>>)
    requires pos <= |buf| && AllShaped(name, fields)
    ensures r.Some? ==> pos <= r.value.pos <= |buf|
    decreases |buf| - pos, 1
  {
    if pos >= end then Some(At(Msg(fields), pos))
    else
      match DecodeStep(buf, name, pos, fields)
      case Fails => None
      case Ends(p) => Some(At(Msg(fields), p))
      case Goes(next, p) => DecodeFields(buf, name, p, end, next)
  }

  function DecodeSub(buf: Bytes, name: Name, pos: nat): (r: Option<At<Msg>>)
    requires pos <= |buf|
    ensures r.Some? ==> pos <= r.value.pos <= |buf|
    decreases |buf| - pos, 2
  {
    match ReadUint32(buf, pos)
    case None => None
    case Some(At(length, start)) => DecodeFields(buf, name, start, start + length, Base(name).fields)
  }

  /** The field's new value: set, or one more of the repeated ones. */
  function DecodeField(buf: Bytes, kind: Kind, pos: nat, before: Value): (r: Option<At<Value>>)
    requires pos <= |buf| && Shaped(kind, before)
    ensures r.Some? ==> pos <= r.value.pos <= |buf| && Shaped(kind, r.value.value)
    decreases |buf| - pos, 3
  {
    match kind
    case KUint =>
      (match ReadUint32(buf, pos)
       case None => None
       case Some(At(n, next)) => Some(At(Num(n), next)))
    case KInt =>
      (match ReadUint32(buf, pos)
       case None => None
       case Some(At(n, next)) => Some(At(Num(Signed(n)), next)))
    case KBytes =>
      (match ReadDelimited(buf, pos)
       case None => None
       case Some(At(bytes, next)) => Some(At(Raw(bytes), next)))
    case KSub(name) =>
      (match DecodeSub(buf, name, pos)
       case None => None
       case Some(At(m, next)) => Some(At(Sub(Some(m)), next)))
    case KMany(name) =>
      match DecodeSub(buf, name, pos)
      case None => None
      case Some(At(m, next)) => Some(At(Many(before.subs + [m]), next))
  }

  function Decode(name: Name, bytes: Bytes): Option<Msg> {
    match DecodeFields(bytes, name, 0, |bytes|, Base(name).fields)
    case None => None
    case Some(At(m, _)) => Some(m)
  }

  // ----- the program -----

  class BinaryWriter {
    var buf: Bytes
    /** what was written before each `fork` */
    var stack: seq<Bytes>

    constructor ()
      ensures buf == [] && stack == []
    {
      buf, stack := [], [];
    }

    method Uint32(n: nat)
      modifies `buf
      ensures buf == old(buf) + Varint(n)
    {
      var rest := n;
      while rest >= 128
        invariant buf + Varint(rest) == old(buf) + Varint(n)
      {
        buf := buf + [128 + rest % 128];
        rest := rest / 128;
      }
      buf := buf + [rest];
    }

    method Fork()
      modifies this
      ensures buf == [] && stack == old(stack) + [old(buf)]
    {
      stack := stack + [buf];
      buf := [];
    }

    method Join()
      requires stack != []
      modifies this
      ensures stack == old(stack)[..|old(stack)| - 1]
      ensures buf == old(stack)[|old(stack)| - 1] + Delimited(old(buf))
    {
      var chunk := buf;
      buf, stack := stack[|stack| - 1], stack[..|stack| - 1];
      Uint32(|chunk|);
      buf := buf + chunk;
    }
  }

  /** `encode` of a message; the writer's stack is as before. */
  method Encode(writer: BinaryWriter, name: Name, m: Msg)
    requires WellTyped(name, m)
    modifies writer
    ensures writer.buf == old(writer.buf) + EncodeMsg(name, m) && writer.stack == old(writer.stack)
    decreases m, |Fields(name)| + 2
  {
    for k := 0 to |m.fields|
      invariant writer.buf + EncodeFields(name, m, k) == old(writer.buf) + EncodeMsg(name, m)
      invariant writer.stack == old(writer.stack)
    {
      ghost var before := writer.buf;
      WriteField(writer, Fields(name)[k], k + 1, m.fields[k]);
      Regroup(before, EncodeField(Fields(name)[k], k + 1, m.fields[k]), EncodeFields(name, m, k + 1));
    }
  }

  method WriteField(writer: BinaryWriter, kind: Kind, number: nat, v: Value)
    requires Typed(kind, v)
    modifies writer
    ensures writer.buf == old(writer.buf) + EncodeField(kind, number, v) && writer.stack == old(writer.stack)
    decreases v, if v.Many? then |v.subs| + 1 else 0
  {
    if v == Unset(kind) {
      return;
    }
    match kind
    case KUint =>
      writer.Uint32(Tag(kind, number));
      writer.Uint32(v.n);
    case KInt =>
      writer.Uint32(Tag(kind, number));
      writer.Uint32(Wrap(v.n));
    case KBytes =>
      writer.Uint32(Tag(kind, number));
      writer.Uint32(|v.bytes|);
      writer.buf := writer.buf + v.bytes;
    case KSub(name) =>
      WriteSub(writer, kind, number, name, v.sub.value);
    case KMany(name) =>
      WriteSubs(writer, kind, number, v);
  }

  method WriteSubs(writer: BinaryWriter, kind: Kind, number: nat, v: Value)
    requires kind.KMany? && Typed(kind, v)
    modifies writer
    ensures writer.buf == old(writer.buf) + EncodeSubs(kind, number, v, 0) && writer.stack == old(writer.stack)
    decreases v, |v.subs|
  {
    for j := 0 to |v.subs|
      invariant writer.buf + EncodeSubs(kind, number, v, j) == old(writer.buf) + EncodeSubs(kind, number, v, 0)
      invariant writer.stack == old(writer.stack)
    {
      ghost var before := writer.buf;
      WriteSub(writer, kind, number, kind.name, v.subs[j]);
      Regroup(before, Varint(Tag(kind, number)) + Delimited(EncodeMsg(kind.name, v.subs[j])),
              EncodeSubs(kind, number, v, j + 1));
    }
  }

  method WriteSub(writer: BinaryWriter, kind: Kind, number: nat, name: Name, m: Msg)
    requires WellTyped(name, m)
    modifies writer
    ensures writer.buf == old(writer.buf) + (Varint(Tag(kind, number)) + Delimited(EncodeMsg(name, m)))
    ensures writer.stack == old(writer.stack)
    decreases m, |Fields(name)| + 3
  {
    writer.Uint32(Tag(kind, number));
    writer.Fork();
    Encode(writer, name, m);
    assert writer.buf == EncodeMsg(name, m);
    writer.Join();
  }

  class BinaryReader {
    const buf: Bytes
    var pos: nat

    constructor (buf: Bytes)
      ensures this.buf == buf && pos == 0
    {
      this.buf, pos := buf, 0;
    }

    method Uint32() returns (n: Option<nat>)
      modifies this
      ensures match ReadUint32(buf, old(pos))
              case None => n == None && pos == old(pos)
              case Some(At(value, next)) => n == Some(value) && pos == next
    {
      var read := ReadUint32(buf, pos);
      if read == None {
        return None;
      }
      pos := read.value.pos;
      return Some(read.value.value);
    }
  }

  /** `decode`: a loop over the fields, filling a message. */
  method DecodeMessage(reader: BinaryReader, name: Name, end: nat) returns (m: Option<Msg>)
    requires reader.pos <= |reader.buf|
    modifies reader
    ensures match DecodeFields(reader.buf, name, old(reader.pos), end, Base(name).fields)
            case None => m == None
            case Some(At(msg, next)) => m == Some(msg) && reader.pos == next
    ensures reader.pos >= old(reader.pos)
    decreases |reader.buf| - reader.pos, 1
  {
    var fields := Base(name).fields;
    while reader.pos < end
      invariant old(reader.pos) <= reader.pos <= |reader.buf| && AllShaped(name, fields)
      invariant DecodeFields(reader.buf, name, reader.pos, end, fields)
             == DecodeFields(reader.buf, name, old(reader.pos), end, Base(name).fields)
      decreases |reader.buf| - reader.pos
    {
      var step := NextField(reader, name, fields);
      if step.Fails? {
        return None;
      }
      if step.Ends? {
        break;
      }
      fields := step.fields;
    }
    return Some(Msg(fields));
  }

  method NextField(reader: BinaryReader, name: Name, fields: seq<Value>) returns (step: Step)
    requires reader.pos <= |reader.buf| && AllShaped(name, fields)
    modifies reader
    ensures step == DecodeStep(reader.buf, name, old(reader.pos), fields)
    ensures reader.pos >= old(reader.pos) && (!step.Fails? ==> reader.pos == step.pos)
    decreases |reader.buf| - reader.pos, 0
  {
    var tag := reader.Uint32();
    if tag == None {
      return Fails;
    }
    var number := tag.value / 8;
    if 1 <= number <= |Fields(name)| && tag.value == Tag(Fields(name)[number - 1], number) {
      var v := ReadField(reader, Fields(name)[number - 1], fields[number - 1]);
      if v == None {
        return Fails;
      }
      return Goes(fields[number - 1 := v.value], reader.pos);
    }
    if tag.value % 8 == 4 || tag.value == 0 {
      return Ends(reader.pos);
    }
    var next := SkipField(reader.buf, reader.pos, tag.value % 8, None);
    if next == None {
      return Fails;
    }
    reader.pos := next.value;
    return Goes(fields, reader.pos);
  }

  method ReadField(reader: BinaryReader, kind: Kind, before: Value) returns (v: Option<Value>)
    requires reader.pos <= |reader.buf| && Shaped(kind, before)
    modifies reader
    ensures match DecodeField(reader.buf, kind, old(reader.pos), before)
            case None => v == None
            case Some(At(value, next)) => v == Some(value) && reader.pos == next
    ensures reader.pos >= old(reader.pos)
    decreases |reader.buf| - reader.pos, 3
  {
    match kind {
      case KSub(name) =>
        var sub := ReadSub(reader, name);
        return if sub.Some? then Some(Sub(Some(sub.value))) else None;
      case KMany(name) =>
        var sub := ReadSub(reader, name);
        return if sub.Some? then Some(Many(before.subs + [sub.value])) else None;
      case _ =>
    }
    var read := DecodeField(reader.buf, kind, reader.pos, before);
    if read == None {
      return None;
    }
    reader.pos := read.value.pos;
    return Some(read.value.value);
  }

  method ReadSub(reader: BinaryReader, name: Name) returns (m: Option<Msg>)
    requires reader.pos <= |reader.buf|
    modifies reader
    ensures match DecodeSub(reader.buf, name, old(reader.pos))
            case None => m == None
            case Some(At(msg, next)) => m == Some(msg) && reader.pos == next
    ensures reader.pos >= old(reader.pos)
    decreases |reader.buf| - reader.pos, 2
  {
    var length := reader.Uint32();
    if length == None {
      return None;
    }
    m := DecodeMessage(reader, name, reader.pos + length.value);
  }
}
