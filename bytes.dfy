/**
 * Byte arrays (`Uint8Array`) and the "binary string" conversions every
 * helper class carries: `convertToString` turns each byte into the code unit
 * of the same value, `stringToArray` turns each code unit back into a byte.
 */
module Bytes {
  import opened JsText

  newtype byte = x: int | 0 <= x < 256

  type Bytes = seq<byte>

  function Min(a: int, b: int): int {
    if a <= b then a else b
  }

  /** `String.fromCharCode` applied to each byte in turn. */
  function CharCodes(bytes: Bytes): (t: Text)
    ensures |t| == |bytes|
    ensures forall i :: 0 <= i < |bytes| ==> t[i] as int == bytes[i] as int
  {
    if bytes == [] then [] else [bytes[0] as CodeUnit] + CharCodes(bytes[1..])
  }

  /**
   * The bytes of `new Uint8Array(codes)` where `codes` are the code units of
   * `t`: the array constructor keeps the low eight bits of each unit.
   */
  function LowBytes(t: Text): (b: Bytes)
    ensures |b| == |t|
    ensures forall i :: 0 <= i < |t| ==> b[i] as int == t[i] as int % 256
  {
    if t == [] then [] else [(t[0] as int % 256) as byte] + LowBytes(t[1..])
  }

  /** A binary string made of bytes turns back into exactly those bytes. */
  lemma {:induction false} LowBytesInvertsCharCodes(bytes: Bytes)
    ensures LowBytes(CharCodes(bytes)) == bytes
  {
    var t := CharCodes(bytes);
    forall i | 0 <= i < |bytes|
      ensures LowBytes(t)[i] == bytes[i]
    {
      assert t[i] as int == bytes[i] as int;
    }
  }

  /** A string whose code units all fit a byte is a binary string: the round trip the other way. */
  lemma {:induction false} CharCodesInvertsLowBytes(t: Text)
    requires forall i :: 0 <= i < |t| ==> t[i] < 256
    ensures CharCodes(LowBytes(t)) == t
  {
    var b := LowBytes(t);
    forall i | 0 <= i < |t|
      ensures CharCodes(b)[i] == t[i]
    {
      assert b[i] as int == t[i] as int % 256 == t[i] as int;
    }
  }

  /** `convertToString`: appends `String.fromCharCode(bytes[idx])` for each index. */
  method ConvertToString(bytes: array<byte>) returns (result: Text)
    ensures result == CharCodes(bytes[..])
  {
    result := [];
    for idx := 0 to bytes.Length
      invariant |result| == idx
      invariant forall k :: 0 <= k < idx ==> result[k] as int == bytes[k] as int
    {
      result := result + [bytes[idx] as CodeUnit];
    }
  }

  /**
   * `stringToArray`: pushes `str.charCodeAt(i)` for each index and wraps the
   * list in a `Uint8Array`, whose constructor keeps the low eight bits; here
   * the truncation is applied as each unit is pushed.
   */
  method StringToArray(str: Text) returns (result: Bytes)
    ensures result == LowBytes(str)
  {
    result := [];
    for i := 0 to |str|
      invariant |result| == i
      invariant forall k :: 0 <= k < i ==> result[k] as int == str[k] as int % 256
    {
      result := result + [(str[i] as int % 256) as byte];
    }
  }

  /** `target.set(source, offset)`, which requires the source to fit. */
  method Set(target: array<byte>, source: Bytes, offset: nat)
    requires offset + |source| <= target.Length
    modifies target
    ensures target[..offset] == old(target[..offset])
    ensures target[offset..offset + |source|] == source
    ensures target[offset + |source|..] == old(target[offset + |source|..])
  {
    for i := 0 to |source|
      invariant forall k :: 0 <= k < offset ==> target[k] == old(target[k])
      invariant forall k :: 0 <= k < i ==> target[offset + k] == source[k]
      invariant forall k :: offset + i <= k < target.Length ==> target[k] == old(target[k])
    {
      target[offset + i] := source[i];
    }
  }

  /** How `slice` reads a position: negative counts from the end, then clamp to the array. */
  function RelativeIndex(x: int, len: nat): (r: nat)
    ensures r <= len
    ensures 0 <= x ==> r == Min(x, len)
  {
    if x < 0 then (if len + x < 0 then 0 else len + x) else Min(x, len)
  }

  /** `bytes.slice(start, end)`: never out of range, empty when the bounds cross. */
  function Slice(bytes: Bytes, start: int, end: int): (r: Bytes)
    ensures |r| <= |bytes|
    ensures 0 <= start <= end <= |bytes| ==> r == bytes[start..end]
    ensures 0 <= end <= start ==> r == []
  {
    var k, fin := RelativeIndex(start, |bytes|), RelativeIndex(end, |bytes|);
    if k < fin then bytes[k..fin] else []
  }

  /** `bytes.slice(start)` */
  function SliceFrom(bytes: Bytes, start: int): (r: Bytes)
    ensures 0 <= start <= |bytes| ==> r == bytes[start..]
    ensures |bytes| <= start ==> r == []
    ensures start <= -|bytes| ==> r == bytes
  {
    Slice(bytes, start, |bytes|)
  }
}
