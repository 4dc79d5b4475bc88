/** The codec as it runs: streams that are consumed and filled, and a shared depth gauge that is locked and released
    (lib/src/types/{encoding,variant,data_value,extension_object}.rs). */
module CodecStreams {
  import opened Prelude
  import opened Wire
  import opened Builtins
  import NodeIds
  import Records
  import opened Scalars
  import opened Variants
  import opened VariantLaws

  // ---------------------------------------------------------------- streams and the gauge

  class Reader {
    var rest: bytes

    constructor (input: bytes)
      ensures rest == input
    {
      rest := input;
    }

    /** One step of reading: advances past what `d` took, or fails and stays. */
    method Accept<T(==)>(d: Decoded<T>) returns (out: Result<T>)
      modifies this
      ensures Follows(out, rest, d)
    {
      if d.Bad? { return Err(d.status); }
      rest := d.rest;
      out := Ok(d.value);
    }
  }

  class Writer {
    var written: bytes

    constructor ()
      ensures written == []
    {
      written := [];
    }

    /** Returns the number of bytes written. */
    method Put(b: bytes) returns (size: nat)
      modifies this
      ensures written == old(written) + b && size == |b|
    {
      written := written + b;
      size := |b|;
    }
  }

  /** `DepthGauge`, with `DepthLock::obtain` and the lock's `drop`. */
  class DepthGauge {
    const maxDepth: nat
    var currentDepth: nat

    constructor (max: nat)
      ensures maxDepth == max && currentDepth == 0
    {
      maxDepth := max;
      currentDepth := 0;
    }

    method Obtain() returns (locked: bool)
      modifies this
      ensures locked == (old(currentDepth) < maxDepth)
      ensures currentDepth == old(currentDepth) + if locked then 1 else 0
    {
      if currentDepth >= maxDepth { return false; }
      currentDepth := currentDepth + 1;
      locked := true;
    }

    method Drop()
      modifies this
      ensures currentDepth == if old(currentDepth) > 0 then old(currentDepth) - 1 else 0
    {
      if currentDepth > 0 { currentDepth := currentDepth - 1; }
    }
  }

  /** A call returned what the decoder `d` describes, and left the stream where it says. */
  predicate Follows<T(==)>(out: Result<T>, rest: bytes, d: Decoded<T>) {
    match d
    case Got(value, left) => out == Ok(value) && rest == left
    case Bad(status) => out == Err(status)
  }

  // ---------------------------------------------------------------- decoding

  /** `ExtensionObject::decode`: the lock is released on every way out. */
  method ReadExtensionObject(r: Reader, g: DepthGauge, o: Options) returns (out: Result<Records.ExtensionObject>)
    requires g.maxDepth == o.maxDepth
    modifies r, g
    ensures g.currentDepth == old(g.currentDepth)
    ensures Follows(out, r.rest, Records.DecodeExtensionObject(old(r.rest), o, old(g.currentDepth)))
  {
    ghost var depth := g.currentDepth;
    var locked := g.Obtain();
    if !locked { return Err(BadDecodingError); }
    out := ReadLockedExtensionObject(r, o, depth);
    g.Drop();
  }

  /** What is read while the lock is held. */
  method ReadLockedExtensionObject(r: Reader, o: Options, ghost depth: nat) returns (out: Result<Records.ExtensionObject>)
    requires depth < o.maxDepth
    modifies r
    ensures Follows(out, r.rest, Records.DecodeExtensionObject(old(r.rest), o, depth))
  {
    var nodeId :- r.Accept(NodeIds.DecodeNodeId(r.rest, o));
    var kind :- r.Accept(ReadU8(r.rest));
    if kind == 0 {
      out := Ok(Records.ExtensionObject(nodeId, Records.NoBody));
    } else if kind == 1 {
      var data :- r.Accept(DecodeByteString(r.rest, o));
      out := Ok(Records.ExtensionObject(nodeId, Records.Binary(data)));
    } else if kind == 2 {
      var element :- r.Accept(DecodeString(r.rest, o));
      out := Ok(Records.ExtensionObject(nodeId, Records.Xml(element)));
    } else {
      out := Err(BadDecodingError);
    }
  }

  /** `Variant::decode`: the gauge is back where it was, whatever the outcome. */
  method ReadVariant(r: Reader, g: DepthGauge, o: Options) returns (out: Result<Variant>)
    requires g.maxDepth == o.maxDepth
    modifies r, g
    ensures g.currentDepth == old(g.currentDepth)
    ensures Follows(out, r.rest, DecodeVariant(old(r.rest), o, old(g.currentDepth)))
    decreases |r.rest|, 0
  {
    ghost var s, depth := r.rest, g.currentDepth;
    var mask :- r.Accept(ReadU8(r.rest));
    var t := mask % 64;
    if HasBit(mask, 7) {
      out := ReadArray(t, HasBit(mask, 6), r, g, o);
    } else if HasBit(mask, 6) {
      out := Err(BadDecodingError);
    } else {
      out := ReadValue(t, r, g, o);
    }
  }

  /** The array branches of `Variant::decode`. */
  method ReadArray(t: u8, hasDimensions: bool, r: Reader, g: DepthGauge, o: Options) returns (out: Result<Variant>)
    requires g.maxDepth == o.maxDepth
    modifies r, g
    ensures g.currentDepth == old(g.currentDepth)
    ensures Follows(out, r.rest, DecodeArray(t, hasDimensions, old(r.rest), o, old(g.currentDepth)))
    decreases |r.rest|, 5
  {
    hide DecodeValues, WithDimensions, NewArray, ReadI32;
    var len :- r.Accept(ReadI32(r.rest));
    if len < -1 { return Err(BadDecodingError); }
    if len <= 0 {
      out := r.Accept(NewArray(t, [], Some([]), r.rest));
      return;
    }
    if len > o.maxArrayLength { return Err(BadEncodingLimitsExceeded); }
    var values :- ReadValues(len, t, r, g, o);
    if hasDimensions {
      out := ReadDimensions(t, values, r, o);
    } else {
      out := r.Accept(NewArray(t, values, None, r.rest));
    }
  }

  /** The loop that reads the values of an array. */
  method ReadValues(n: nat, t: u8, r: Reader, g: DepthGauge, o: Options) returns (out: Result<seq<Variant>>)
    requires g.maxDepth == o.maxDepth
    modifies r, g
    ensures g.currentDepth == old(g.currentDepth)
    ensures Follows(out, r.rest, DecodeValues(n, t, old(r.rest), o, old(g.currentDepth)))
    decreases |r.rest|, 4
  {
    hide DecodeValue;
    var values: seq<Variant> := [];
    ghost var s, depth := r.rest, g.currentDepth;
    PrefixedNothing(DecodeValues(n, t, s, o, depth));
    for i := 0 to n
      invariant g.currentDepth == depth && |r.rest| <= |s|
      invariant Prefixed(values, DecodeValues(n - i, t, r.rest, o, depth)) == DecodeValues(n, t, s, o, depth)
    {
      PrefixedStep(values, n - i, t, r.rest, o, depth);
      var value :- ReadValue(t, r, g, o);
      values := values + [value];
    }
    assert values + [] == values;
    out := Ok(values);
  }

  /** Values already read, put before those still to come. */
  function Prefixed(values: seq<Variant>, d: Decoded<seq<Variant>>): Decoded<seq<Variant>> {
    if d.Bad? then d else Got(values + d.value, d.rest)
  }

  lemma PrefixedNothing(d: Decoded<seq<Variant>>)
    ensures Prefixed([], d) == d
  {
    if d.Got? { assert [] + d.value == d.value; }
  }

  lemma PrefixedStep(values: seq<Variant>, n: nat, t: u8, s: bytes, o: Options, depth: nat)
    requires n > 0
    ensures
      var d := DecodeValue(t, s, o, depth);
      Prefixed(values, DecodeValues(n, t, s, o, depth)) ==
      if d.Bad? then Bad(d.status) else Prefixed(values + [d.value], DecodeValues(n - 1, t, d.rest, o, depth))
  {
    hide DecodeValue;
    var d := DecodeValue(t, s, o, depth);
    if d.Got? {
      var more := DecodeValues(n - 1, t, d.rest, o, depth);
      if more.Got? { assert values + ([d.value] + more.value) == values + [d.value] + more.value; }
    }
  }

  /** The dimensions: none may be zero, and a 32-bit product that does not overflow must be the number of values. */
  method ReadDimensions(t: u8, values: seq<Variant>, r: Reader, o: Options) returns (out: Result<Variant>)
    modifies r
    ensures Follows(out, r.rest, WithDimensions(t, values, old(r.rest), o))
  {
    hide NewArray, DecodeDimensions;
    if t > 25 { return Err(BadDecodingError); }
    var dimensions :- r.Accept(DecodeDimensions(r.rest, o));
    if dimensions.None? || 0 in dimensions.value { return Err(BadDecodingError); }
    var ns := dimensions.value;
    var length: u32 := 1;
    for i := 0 to |ns|
      invariant CheckedProduct(length, ns[i..]) == CheckedProduct(1, ns)
    {
      assert ns[i..][1..] == ns[i + 1..];
      if length * ns[i] >= 0x1_0000_0000 { return Err(BadDecodingError); }
      length := length * ns[i];
    }
    if length != |values| % 0x1_0000_0000 { return Err(BadDecodingError); }
    out := r.Accept(NewArray(t, values, dimensions, r.rest));
  }

  lemma ScalarIsExtension(s: bytes, o: Options, depth: nat)
    ensures DecodeScalar(22, s, o, depth) == Map(Records.DecodeExtensionObject(s, o, depth), x => Extension(x))
  {
  }

  /** `decode_variant_value` */
  method ReadValue(t: u8, r: Reader, g: DepthGauge, o: Options) returns (out: Result<Variant>)
    requires g.maxDepth == o.maxDepth
    modifies r, g
    ensures g.currentDepth == old(g.currentDepth)
    ensures Follows(out, r.rest, DecodeValue(t, old(r.rest), o, old(g.currentDepth)))
    decreases |r.rest|, 3
  {
    hide DecodeScalar, DecodeVariant, DecodeDataValue, Records.DecodeExtensionObject;
    if t == 24 {
      var locked := g.Obtain();
      if !locked { return Err(BadDecodingError); }
      var inner := ReadVariant(r, g, o);
      g.Drop();
      if inner.Err? { return Err(inner.status); }
      out := Ok(Nested(inner.value));
    } else if t == 23 {
      var data :- ReadDataValue(r, g, o);
      out := Ok(Data(data));
    } else if t == 22 {
      ScalarIsExtension(r.rest, o, g.currentDepth);
      var x :- ReadExtensionObject(r, g, o);
      out := Ok(Single(Extension(x)));
    } else {
      var x :- r.Accept(DecodeScalar(t, r.rest, o, g.currentDepth));
      out := Ok(Single(x));
    }
  }

  /** `DataValue::decode` */
  method ReadDataValue(r: Reader, g: DepthGauge, o: Options) returns (out: Result<DataValue>)
    requires g.maxDepth == o.maxDepth
    modifies r, g
    ensures g.currentDepth == old(g.currentDepth)
    ensures Follows(out, r.rest, DecodeDataValue(old(r.rest), o, old(g.currentDepth)))
    decreases |r.rest|, 2
  {
    var mask :- r.Accept(ReadU8(r.rest));
    var value: Option<Variant> := None;
    if HasBit(mask, 0) {
      var v :- ReadVariant(r, g, o);
      value := Some(v);
    }
    out := r.Accept(DecodeDataValueTail(mask, value, r.rest, o));
  }

  // ---------------------------------------------------------------- encoding

  /** What an encoding call did: the bytes and their number, or `BadEncodingError` after some of them. */
  predicate Wrote(out: Result<nat>, before: bytes, after: bytes, encodable: bool, b: bytes, length: nat) {
    if encodable then out == Ok(length) && after == before + b else out == Err(BadEncodingError) && before <= after
  }

  /** `Variant::encode`: fails exactly on an array held directly by an array, and its final assertion holds. */
  method WriteVariant(w: Writer, v: Variant) returns (out: Result<nat>)
    modifies w
    ensures Wrote(out, old(w.written), w.written, Encodable(v), if Encodable(v) then EncodeVariant(v) else [], VariantLength(v))
    decreases v, 1
  {
    hide EncodePayload, PayloadLength;
    var size := w.Put(WriteU8(VariantMask(v)));
    var payload: nat;
    if v.Array? {
      payload :- WriteArray(w, v);
    } else {
      payload :- WriteValue(w, v);
    }
    size := size + payload;
    assert size == VariantLength(v);
    out := Ok(size);
  }

  /** The array arm of `Variant::encode`. */
  method WriteArray(w: Writer, v: Variant) returns (out: Result<nat>)
    requires v.Array?
    modifies w
    ensures Wrote(out, old(w.written), w.written, Encodable(v), if Encodable(v) then EncodePayload(v) else [], PayloadLength(v))
    decreases v, 0, 1
  {
    hide WriteI32, EncodeU32s, EncodeValues;
    ghost var before := w.written;
    LengthPrefix(|v.values|);
    var size := w.Put(WriteI32(AsI32(|v.values|)));
    var values :- WriteValues(w, v.values);
    size := size + values;
    if v.dimensions.Some? {
      LengthPrefix(|v.dimensions.value|);
      var head := w.Put(WriteI32(AsI32(|v.dimensions.value|)));
      var tail := WriteU32s(w, v.dimensions.value);
      size := size + head + tail;
    }
    out := Ok(size);
  }

  method WriteU32s(w: Writer, ns: seq<u32>) returns (size: nat)
    modifies w
    ensures w.written == old(w.written) + EncodeU32s(ns) && size == 4 * |ns|
  {
    hide WriteI32;
    ghost var before := w.written;
    size := 0;
    for i := 0 to |ns|
      invariant w.written + EncodeU32s(ns[i..]) == before + EncodeU32s(ns) && size == 4 * i
    {
      assert ns[i..][1..] == ns[i + 1..];
      ghost var written := w.written;
      LengthPrefix(ns[i]);
      var step := w.Put(WriteI32(AsI32(ns[i])));
      assert written + WriteI32(AsI32(ns[i])) + EncodeU32s(ns[i + 1..]) == written + EncodeU32s(ns[i..]);
      size := size + step;
    }
    assert w.written + [] == w.written;
  }

  method WriteValues(w: Writer, values: seq<Variant>) returns (out: Result<nat>)
    modifies w
    ensures
      var encodable := forall e <- values :: !e.Array? && Encodable(e);
      Wrote(out, old(w.written), w.written, encodable, if encodable then EncodeValues(values) else [], ValuesLength(values))
    decreases values
  {
    hide EncodePayload, PayloadLength;
    ghost var before := w.written;
    var size := 0;
    for i := 0 to |values|
      invariant before <= w.written
      invariant forall e <- values[..i] :: !e.Array? && Encodable(e)
      invariant size + ValuesLength(values[i..]) == ValuesLength(values)
      invariant (forall e <- values :: !e.Array? && Encodable(e)) ==>
                w.written + EncodeValues(values[i..]) == before + EncodeValues(values)
    {
      assert values[i..][1..] == values[i + 1..] && values[..i + 1] == values[..i] + [values[i]];
      ghost var written := w.written;
      var step :- WriteValue(w, values[i]);
      if forall e <- values :: !e.Array? && Encodable(e) {
        assert written + EncodePayload(values[i]) + EncodeValues(values[i + 1..]) == written + EncodeValues(values[i..]);
      }
      size := size + step;
    }
    assert values[..|values|] == values;
    out := Ok(size);
  }

  /** `encode_variant_value` and the scalar arms of `Variant::encode`. */
  method WriteValue(w: Writer, v: Variant) returns (out: Result<nat>)
    modifies w
    ensures
      var encodable := !v.Array? && Encodable(v);
      Wrote(out, old(w.written), w.written, encodable, if encodable then EncodePayload(v) else [], PayloadLength(v))
    decreases v, 0
  {
    hide EncodeScalar, ScalarLength, EncodeVariant, VariantLength, EncodeDataValue, DataValueLength;
    match v {
      case Single(x) =>
        ScalarLengthExact(x);
        var size := w.Put(EncodeScalar(x));
        out := Ok(size);
      case Nested(inner) =>
        out := WriteVariant(w, inner);
      case Data(d) =>
        out := WriteDataValue(w, d);
      case Array(_, _, _) =>
        out := Err(BadEncodingError);
    }
  }

  /** `DataValue::encode` */
  method WriteDataValue(w: Writer, d: DataValue) returns (out: Result<nat>)
    modifies w
    ensures
      var encodable := d.value.Some? ==> Encodable(d.value.value);
      Wrote(out, old(w.written), w.written, encodable, if encodable then EncodeDataValue(d) else [], DataValueLength(d))
    decreases d
  {
    hide EncodeVariant, VariantLength, EncodeDataValueTail;
    MaskIsByte(DataValueBits(d));
    var size := w.Put(WriteU8(Mask(DataValueBits(d))));
    if d.value.Some? {
      var value :- WriteVariant(w, d.value.value);
      size := size + value;
    }
    TailLength(d);
    var tail := w.Put(EncodeDataValueTail(d));
    size := size + tail;
    out := Ok(size);
  }

  lemma TailLength(d: DataValue)
    ensures |EncodeDataValueTail(d)| ==
            (if d.status.None? then 0 else 4)
            + StampLength(d.sourceTimestamp, d.sourcePicoseconds) + StampLength(d.serverTimestamp, d.serverPicoseconds)
  {
  }
}
