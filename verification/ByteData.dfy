/**
 Bytes, slices and the few sequence facts every other module needs.

 A `Uint8Array` is a `seq<Byte>`; text that the program handles byte by byte
 (header lines, templates, redaction stars) stays a byte sequence here.
 */
module ByteData {

  type Byte = b: int | 0 <= b < 256
  type Bytes = seq<Byte>

  datatype Option<+T> = None | Some(value: T)

  /** A half-open range of positions, as in `ArraySlice`. */
  datatype Slice = Slice(fromIndex: nat, toIndex: nat)

  const STAR: Byte := 42  // the redaction character '*'
  const CR: Byte := 13
  const LF: Byte := 10
  const CRLF: Bytes := [CR, LF]

  function Min(a: int, b: int): int {
    if a <= b then a else b
  }

  /** An ASCII literal as bytes. */
  function Ascii(text: string): (bytes: Bytes)
    requires forall i :: 0 <= i < |text| ==> text[i] as int < 256
    ensures |bytes| == |text|
    ensures forall i :: 0 <= i < |text| ==> bytes[i] == text[i] as int
  {
    seq(|text|, i requires 0 <= i < |text| => text[i] as int)
  }

  function Fill(b: Byte, n: nat): (bytes: Bytes)
    ensures |bytes| == n
    ensures forall i :: 0 <= i < n ==> bytes[i] == b
  {
    seq(n, _ => b)
  }

  /** `slice(from, to)` of a byte array, which stops at its end. */
  function Take(s: Bytes, from: nat, until: nat): Bytes {
    if Min(until, |s|) <= from then [] else s[from..Min(until, |s|)]
  }

  /** `concatenateUint8Arrays`. */
  function Concat(parts: seq<Bytes>): Bytes {
    if parts == [] then [] else parts[0] + Concat(parts[1..])
  }

  lemma {:induction false} ConcatAppend(xs: seq<Bytes>, ys: seq<Bytes>)
    ensures Concat(xs + ys) == Concat(xs) + Concat(ys)
  {
    if xs == [] {
      assert xs + ys == ys;
    } else {
      assert (xs + ys)[1..] == xs[1..] + ys;
      ConcatAppend(xs[1..], ys);
    }
  }

  lemma Regroup(a: Bytes, b: Bytes, c: Bytes)
    ensures (a + b) + c == a + (b + c)
  {
  }

  lemma SliceJoin(input: Bytes, a: nat, b: nat, c: nat)
    requires a <= b <= c <= |input|
    ensures input[a..b] + input[b..c] == input[a..c]
  {
  }

  lemma TailTake(input: Bytes, a: nat, n: nat)
    requires a + n <= |input|
    ensures input[a..][..n] == input[a..a + n]
  {
  }

  lemma SliceOfConcat(input: Bytes, data: Bytes, from: nat, until: nat)
    requires from <= until <= |input|
    ensures (input + data)[from..until] == input[from..until]
  {
  }

  lemma SliceOfSlice(input: Bytes, from: nat, until: nat, i: nat, j: nat)
    requires from <= until <= |input| && i <= j <= until - from
    ensures input[from..until][i..j] == input[from + i..from + j]
  {
    var left, right := input[from..until][i..j], input[from + i..from + j];
    assert |left| == |right|;
    forall k | 0 <= k < |left|
      ensures left[k] == right[k]
    {
      assert left[k] == input[from..until][i + k] == input[from + (i + k)];
    }
  }

  lemma NothingMore(a: Bytes)
    ensures a + [] == a
  {
  }

  lemma ConcatSnoc(xs: seq<Bytes>, y: Bytes)
    ensures Concat(xs + [y]) == Concat(xs) + y
  {
    ConcatAppend(xs, [y]);
    assert Concat([y]) == y;
  }
}
