/** Variants and data values: the mutually recursive part of the binary codec, bounded by the depth gauge
    (lib/src/types/{variant,data_value,array}.rs; OPC UA Part 6, sections 5.2.2.16 and 5.2.2.17). */
module Variants {
  import opened Prelude
  import opened Wire
  import opened Builtins
  import Records
  import opened DateTimes
  import opened Scalars

  /** `VariantTypeId` without `Array`, as the number on the wire. */
  type TypeId = t: int | 0 <= t <= 25

  datatype Variant =
    | Single(scalar: Scalar)
    | Nested(inner: Variant)
    | Data(data: DataValue)
    | Array(valueType: TypeId, values: seq<Variant>, dimensions: Option<seq<u32>>)

  datatype DataValue = DataValue(
    value: Option<Variant>,
    status: Option<u32>,
    sourceTimestamp: Option<DateTime>,
    sourcePicoseconds: Option<u16>,
    serverTimestamp: Option<DateTime>,
    serverPicoseconds: Option<u16>)

  /** The type of a variant that is not an array. */
  function TypeOf(v: Variant): TypeId
    requires !v.Array?
  {
    match v
    case Single(x) => ScalarType(x)
    case Data(_) => 23
    case Nested(_) => 24
  }

  // ---------------------------------------------------------------- encoding

  /** Encoding refuses an array that directly holds an array. */
  predicate Encodable(v: Variant) {
    match v
    case Single(_) => true
    case Nested(inner) => Encodable(inner)
    case Data(d) => d.value.Some? ==> Encodable(d.value.value)
    case Array(_, values, _) => forall e <- values :: !e.Array? && Encodable(e)
  }

  function VariantMask(v: Variant): u8 {
    if v.Array? then v.valueType + 0x80 + (if v.dimensions.Some? then 0x40 else 0) else TypeOf(v)
  }

  function EncodeVariant(v: Variant): bytes
    requires Encodable(v)
    decreases v, 1
  {
    [VariantMask(v)] + EncodePayload(v)
  }

  /** What follows the encoding mask. */
  function EncodePayload(v: Variant): bytes
    requires Encodable(v)
    decreases v, 0
  {
    match v
    case Single(x) => EncodeScalar(x)
    case Nested(inner) => EncodeVariant(inner)
    case Data(d) => EncodeDataValue(d)
    case Array(_, values, dimensions) =>
      WriteI32(AsI32(|values|)) + EncodeValues(values)
      + (if dimensions.None? then [] else EncodeDimensions(dimensions.value))
  }

  function EncodeValues(values: seq<Variant>): bytes
    requires forall e <- values :: !e.Array? && Encodable(e)
    decreases values
  {
    if values == [] then [] else EncodePayload(values[0]) + EncodeValues(values[1..])
  }

  /** Dimensions are written as `Int32`. */
  function EncodeDimensions(dimensions: seq<u32>): bytes {
    WriteI32(AsI32(|dimensions|)) + EncodeU32s(dimensions)
  }

  function EncodeU32s(ns: seq<u32>): bytes {
    if ns == [] then [] else WriteI32(AsI32(ns[0])) + EncodeU32s(ns[1..])
  }

  /** Picoseconds are announced only together with their timestamp. */
  function DataValueBits(d: DataValue): seq<bool> {
    [d.value.Some?, d.status.Some?, d.sourceTimestamp.Some?, d.serverTimestamp.Some?,
     d.sourceTimestamp.Some? && d.sourcePicoseconds.Some?, d.serverTimestamp.Some? && d.serverPicoseconds.Some?]
  }

  function EncodeStamp(time: Option<DateTime>, picoseconds: Option<u16>): bytes {
    if time.None? then []
    else EncodeDateTime(time.value) + (if picoseconds.None? then [] else WriteU16(picoseconds.value))
  }

  function EncodeDataValue(d: DataValue): bytes
    requires d.value.Some? ==> Encodable(d.value.value)
    decreases d
  {
    MaskIsByte(DataValueBits(d));
    [Mask(DataValueBits(d))]
    + (if d.value.None? then [] else EncodeVariant(d.value.value))
    + EncodeDataValueTail(d)
  }

  function EncodeDataValueTail(d: DataValue): bytes {
    (if d.status.None? then [] else WriteU32(d.status.value))
    + EncodeStamp(d.sourceTimestamp, d.sourcePicoseconds)
    + EncodeStamp(d.serverTimestamp, d.serverPicoseconds)
  }

  // ---------------------------------------------------------------- lengths

  /** `byte_len` */
  function VariantLength(v: Variant): nat
    decreases v, 1
  {
    1 + PayloadLength(v)
  }

  function PayloadLength(v: Variant): nat
    decreases v, 0
  {
    match v
    case Single(x) => ScalarLength(x)
    case Nested(inner) => VariantLength(inner)
    case Data(d) => DataValueLength(d)
    case Array(_, values, dimensions) =>
      4 + ValuesLength(values) + (if dimensions.None? then 0 else 4 + |dimensions.value| * 4)
  }

  /** An array inside an array counts as nothing. */
  function ValuesLength(values: seq<Variant>): nat
    decreases values
  {
    if values == [] then 0
    else (if values[0].Array? then 0 else PayloadLength(values[0])) + ValuesLength(values[1..])
  }

  function StampLength(time: Option<DateTime>, picoseconds: Option<u16>): nat {
    if time.None? then 0 else 8 + (if picoseconds.None? then 0 else 2)
  }

  function DataValueLength(d: DataValue): nat
    decreases d
  {
    1 + (if d.value.None? then 0 else VariantLength(d.value.value)) + (if d.status.None? then 0 else 4)
    + StampLength(d.sourceTimestamp, d.sourcePicoseconds) + StampLength(d.serverTimestamp, d.serverPicoseconds)
  }

  // ---------------------------------------------------------------- decoding

  function DecodeU32s(n: nat, s: bytes): (d: Decoded<seq<u32>>)
    ensures d.Got? ==> |d.value| == n && Taken(s, d) == 4 * n
  {
    if n == 0 then Got([], s)
    else
      var (v, s) :- ReadU32(s);
      var (vs, s) :- DecodeU32s(n - 1, s);
      Got([v] + vs, s)
  }

  /** `read_array` of the dimensions. */
  function DecodeDimensions(s: bytes, o: Options): (d: Decoded<Option<seq<u32>>>)
    ensures d.Got? ==> |d.rest| <= |s|
  {
    var (len, s) :- ReadI32(s);
    if len == -1 then Got(None, s)
    else if len < -1 || len > o.maxArrayLength then Bad(BadDecodingError)
    else
      var (vs, s) :- DecodeU32s(len, s);
      Got(Some(vs), s)
  }

  /** The product by `checked_mul` on 32 bits: `None` when it overflows. */
  function CheckedProduct(start: u32, ns: seq<u32>): Option<u32>
    decreases |ns|
  {
    if ns == [] then Some(start)
    else if start * ns[0] >= 0x1_0000_0000 then None
    else CheckedProduct(start * ns[0], ns[1..])
  }

  /** `Array::new` and `Array::new_multi`: the type must not be empty and every value must have it. */
  function NewArray(t: u8, values: seq<Variant>, dimensions: Option<seq<u32>>, s: bytes): Decoded<Variant> {
    if 1 <= t <= 25 && forall e <- values :: !e.Array? && TypeOf(e) == t then Got(Array(t, values, dimensions), s)
    else Bad(BadDecodingError)
  }

  function DecodeVariant(s: bytes, o: Options, depth: nat): (d: Decoded<Variant>)
    ensures d.Got? ==> |d.rest| < |s|
    decreases |s|, 0
  {
    var (mask, s) :- ReadU8(s);
    var t := mask % 64;
    if HasBit(mask, 7) then DecodeArray(t, HasBit(mask, 6), s, o, depth)
    else if HasBit(mask, 6) then Bad(BadDecodingError)
    else DecodeValue(t, s, o, depth)
  }

  function DecodeArray(t: u8, hasDimensions: bool, s: bytes, o: Options, depth: nat): (d: Decoded<Variant>)
    ensures d.Got? ==> |d.rest| <= |s|
    decreases |s|, 5
  {
    var (len, s) :- ReadI32(s);
    if len < -1 then Bad(BadDecodingError)
    else if len <= 0 then NewArray(t, [], Some([]), s)
    else if len > o.maxArrayLength then Bad(BadEncodingLimitsExceeded)
    else
      var (values, s) :- DecodeValues(len, t, s, o, depth);
      if hasDimensions then WithDimensions(t, values, s, o) else NewArray(t, values, None, s)
  }

  function WithDimensions(t: u8, values: seq<Variant>, s: bytes, o: Options): (d: Decoded<Variant>)
    ensures d.Got? ==> |d.rest| <= |s|
  {
    if t > 25 then Bad(BadDecodingError)
    else
      var (dimensions, s) :- DecodeDimensions(s, o);
      if dimensions.None? || 0 in dimensions.value || CheckedProduct(1, dimensions.value) != Some(|values| % 0x1_0000_0000)
      then Bad(BadDecodingError)
      else NewArray(t, values, dimensions, s)
  }

  function DecodeValues(n: nat, t: u8, s: bytes, o: Options, depth: nat): (d: Decoded<seq<Variant>>)
    ensures d.Got? ==> |d.rest| <= |s| && |d.value| == n
    decreases |s|, 4, n
  {
    if n == 0 then Got([], s)
    else
      var (v, s) :- DecodeValue(t, s, o, depth);
      var (vs, s) :- DecodeValues(n - 1, t, s, o, depth);
      Got([v] + vs, s)
  }

  /** `decode_variant_value`: a nested variant holds a depth lock while it is read. */
  function DecodeValue(t: u8, s: bytes, o: Options, depth: nat): (d: Decoded<Variant>)
    ensures d.Got? ==> |d.rest| <= |s|
    decreases |s|, 3
  {
    if t == 24 then
      if depth >= o.maxDepth then Bad(BadDecodingError)
      else
        var (v, s) :- DecodeVariant(s, o, depth + 1);
        Got(Nested(v), s)
    else if t == 23 then
      var (d, s) :- DecodeDataValue(s, o, depth);
      Got(Data(d), s)
    else
      var (x, r) :- DecodeScalar(t, s, o, depth);
      DecodedScalar(t, s, o, depth);
      Got(Single(x), r)
  }

  function DecodeStamp(present: bool, s: bytes, o: Options): (d: Decoded<Option<DateTime>>)
    ensures d.Got? ==> |d.rest| <= |s|
  {
    if !present then Got(None, s)
    else
      var (time, s) :- DecodeDateTime(s, o);
      Got(Some(time), s)
  }

  function DecodePicoseconds(present: bool, s: bytes): (d: Decoded<Option<u16>>)
    ensures d.Got? ==> |d.rest| <= |s|
  {
    if !present then Got(None, s)
    else
      var (n, s) :- ReadU16(s);
      Got(Some(n), s)
  }

  function DecodeOptionalVariant(present: bool, s: bytes, o: Options, depth: nat): (d: Decoded<Option<Variant>>)
    ensures d.Got? ==> |d.rest| <= |s|
    decreases |s|, 1
  {
    if !present then Got(None, s)
    else
      var (v, s) :- DecodeVariant(s, o, depth);
      Got(Some(v), s)
  }

  /** The fields after the value; the source timestamp is never shifted by the clock offset. */
  function DecodeDataValueTail(mask: nat, value: Option<Variant>, s: bytes, o: Options): (d: Decoded<DataValue>)
    ensures d.Got? ==> |d.rest| <= |s|
  {
    var (status, s) :- Records.DecodeOptionalU32(HasBit(mask, 1), s);
    var (sourceTimestamp, s) :- DecodeStamp(HasBit(mask, 2), s, o.(clientOffset := 0));
    var (sourcePicoseconds, s) :- DecodePicoseconds(HasBit(mask, 4), s);
    var (serverTimestamp, s) :- DecodeStamp(HasBit(mask, 3), s, o);
    var (serverPicoseconds, s) :- DecodePicoseconds(HasBit(mask, 5), s);
    Got(DataValue(value, status,
                  sourceTimestamp, if sourceTimestamp.Some? then sourcePicoseconds else None,
                  serverTimestamp, if serverTimestamp.Some? then serverPicoseconds else None), s)
  }

  function DecodeDataValue(s: bytes, o: Options, depth: nat): (d: Decoded<DataValue>)
    ensures d.Got? ==> |d.rest| < |s|
    decreases |s|, 2
  {
    var (mask, s) :- ReadU8(s);
    var (value, s) :- DecodeOptionalVariant(HasBit(mask, 0), s, o, depth);
    DecodeDataValueTail(mask, value, s, o)
  }
}
