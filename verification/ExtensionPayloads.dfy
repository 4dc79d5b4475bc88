/** Structures carried inside extension objects (lib/src/types/extension_object.rs). */
module ExtensionPayloads {
  import opened Prelude
  import opened Wire
  import opened UaTypes
  import opened Records
  import opened Schema
  import opened SchemaLaws

  /** Writing from the start of a buffer that already has bytes: what is not reached stays. */
  function Overwrite(buffer: bytes, b: bytes): bytes {
    if |b| < |buffer| then b + buffer[|b|..] else b
  }

  /** `from_encodable`: the buffer starts as `byte_len` zeros. */
  function FromEncodable(nodeId: NodeId, t: TypeRef, v: Value): ExtensionObject
    requires HasType(v, t)
  {
    ExtensionObject(nodeId, Binary(Bytes(Overwrite(seq(TypeLength(t, v), _ => 0), EncodeType(t, v)))))
  }

  /** `decode_inner`: only a byte string that is not null has a content. */
  function DecodeInner(x: ExtensionObject, t: TypeRef, o: Options, depth: nat): Result<Value> {
    if x.body.Binary? && x.body.data.Bytes? then
      var d := DecodeType(t, x.body.data.data, o, depth);
      if d.Got? then Ok(d.value) else Err(d.status)
    else Err(BadDecodingError)
  }

  /** No byte of the zeroed buffer survives, and the content comes back. */
  lemma PayloadComesBack(nodeId: NodeId, t: TypeRef, v: Value, o: Options, depth: nat)
    requires HasType(v, t) && Fits(v, t, o, depth)
    ensures FromEncodable(nodeId, t, v).body == Binary(Bytes(EncodeType(t, v)))
    ensures DecodeInner(FromEncodable(nodeId, t, v), t, o, depth) == Ok(Normal(v, t, o))
  {
    hide EncodeType, DecodeType, TypeLength, Normal;
    GeneratedLengthExact(t, v);
    GeneratedRoundTrip(t, v, o, depth, []);
    assert EncodeType(t, v) + [] == EncodeType(t, v);
  }

  /** The same across the wire: the object is decoded one level of the gauge down, its content afterwards. */
  lemma PayloadCrossesWire(nodeId: NodeId, t: TypeRef, v: Value, o: Options, depth: nat, rest: bytes)
    requires HasType(v, t) && Fits(v, t, o, depth) && depth < o.maxDepth
    requires ExtensionObjectFits(FromEncodable(nodeId, t, v), o)
    ensures
      var d := DecodeExtensionObject(EncodeExtensionObject(FromEncodable(nodeId, t, v)) + rest, o, depth);
      d.Got? && d.rest == rest && DecodeInner(d.value, t, o, depth) == Ok(Normal(v, t, o))
  {
    hide FromEncodable, DecodeInner, EncodeExtensionObject, DecodeExtensionObject, Normal;
    PayloadComesBack(nodeId, t, v, o, depth);
    ExtensionObjectRoundTrip(FromEncodable(nodeId, t, v), o, depth, rest);
  }
}
