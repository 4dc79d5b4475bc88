/** What encoding and decoding a variant preserve. */
module VariantLaws {
  import opened Prelude
  import opened Wire
  import opened Builtins
  import Records
  import opened DateTimes
  import opened Scalars
  import opened Variants

  // ---------------------------------------------------------------- which variants

  /** Every length is within the decoding limits. */
  predicate VariantFits(v: Variant, o: Options) {
    match v
    case Single(x) => ScalarFits(x, o)
    case Nested(inner) => VariantFits(inner, o)
    case Data(d) => d.value.Some? ==> VariantFits(d.value.value, o)
    case Array(_, values, dimensions) =>
      && |values| <= o.maxArrayLength && |values| < 0x8000_0000
      && (forall e <- values :: VariantFits(e, o))
      && (dimensions.Some? ==> |dimensions.value| <= o.maxArrayLength && |dimensions.value| < 0x8000_0000)
  }

  /** Every array was accepted by `Array::new` or `Array::new_multi`. */
  predicate WellTyped(v: Variant) {
    match v
    case Single(_) => true
    case Nested(inner) => WellTyped(inner)
    case Data(d) => d.value.Some? ==> WellTyped(d.value.value)
    case Array(t, values, _) => t != 0 && forall e <- values :: !e.Array? && TypeOf(e) == t && WellTyped(e)
  }

  function Product(ns: seq<u32>): nat {
    if ns == [] then 1 else ns[0] * Product(ns[1..])
  }

  /** Dimensions are absent, or multiply to the number of values, of which there is at least one. */
  predicate DimensionsMatch(values: seq<Variant>, dimensions: Option<seq<u32>>) {
    dimensions.None? || (values != [] && Product(dimensions.value) == |values|)
  }

  predicate Rectangular(v: Variant) {
    match v
    case Single(_) => true
    case Nested(inner) => Rectangular(inner)
    case Data(d) => d.value.Some? ==> Rectangular(d.value.value)
    case Array(_, values, dimensions) => DimensionsMatch(values, dimensions) && forall e <- values :: Rectangular(e)
  }

  /** The depth locks that reading the variant holds at once. */
  function Depth(v: Variant): nat
    decreases v, 1
  {
    match v
    case Single(x) => ScalarDepth(x)
    case Nested(inner) => 1 + Depth(inner)
    case Data(d) => if d.value.None? then 0 else Depth(d.value.value)
    case Array(_, values, _) => ValuesDepth(values)
  }

  function ValuesDepth(values: seq<Variant>): nat
    decreases values, 0
  {
    if values == [] then 0 else Max(Depth(values[0]), ValuesDepth(values[1..]))
  }

  function Max(a: nat, b: nat): nat { if a < b then b else a }

  /** What a variant becomes on the way through the codec. */
  function NormalVariant(v: Variant, o: Options): (n: Variant)
    ensures n.Array? == v.Array? && (!v.Array? ==> TypeOf(n) == TypeOf(v))
    decreases v, 1
  {
    match v
    case Single(x) => Single(NormalScalar(x, o))
    case Nested(inner) => Nested(NormalVariant(inner, o))
    case Data(d) => Data(NormalDataValue(d, o))
    case Array(t, values, dimensions) =>
      // an empty array comes back with an empty list of dimensions
      Array(t, NormalValues(values, o), if values == [] then Some([]) else dimensions)
  }

  function NormalValues(values: seq<Variant>, o: Options): (ns: seq<Variant>)
    ensures |ns| == |values|
    ensures forall i :: 0 <= i < |ns| ==> ns[i].Array? == values[i].Array? && (!ns[i].Array? ==> TypeOf(ns[i]) == TypeOf(values[i]))
    decreases values, 0
  {
    if values == [] then [] else [NormalVariant(values[0], o)] + NormalValues(values[1..], o)
  }

  /** Picoseconds without a timestamp are dropped; the source timestamp ignores the clock offset. */
  function NormalDataValue(d: DataValue, o: Options): DataValue
    decreases d, 0
  {
    DataValue(
      if d.value.None? then None else Some(NormalVariant(d.value.value, o)),
      d.status,
      NormalStamp(d.sourceTimestamp, o.(clientOffset := 0)),
      if d.sourceTimestamp.None? then None else d.sourcePicoseconds,
      NormalStamp(d.serverTimestamp, o),
      if d.serverTimestamp.None? then None else d.serverPicoseconds)
  }

  function NormalStamp(time: Option<DateTime>, o: Options): Option<DateTime> {
    if time.None? then None else Some(NormalDateTime(time.value, o))
  }

  /** A decoder's answer when it succeeds exactly if `ok`. */
  function Expect<T>(ok: bool, v: T, rest: bytes): Decoded<T> {
    if ok then Got(v, rest) else Bad(BadDecodingError)
  }

  // ---------------------------------------------------------------- dimensions

  lemma {:induction false} ProductZero(ns: seq<u32>)
    ensures 0 in ns <==> Product(ns) == 0
  {
    if ns != [] {
      ProductZero(ns[1..]);
      if ns[0] != 0 { AtLeast(Product(ns[1..]), ns[0]); }
    }
  }

  /** Without zeros, the checked product is the product when that fits in 32 bits. */
  lemma {:induction false} CheckedProductIs(start: u32, ns: seq<u32>)
    requires start > 0 && 0 !in ns
    ensures CheckedProduct(start, ns) ==
            if start * Product(ns) < 0x1_0000_0000 then Some(start * Product(ns)) else None
    decreases |ns|
  {
    if ns != [] {
      var next, tail := start * ns[0], Product(ns[1..]);
      Associate(start, ns[0], tail);
      ProductZero(ns[1..]);
      AtLeast(start, ns[0]);
      if next < 0x1_0000_0000 {
        CheckedProductIs(next, ns[1..]);
      } else {
        AtLeast(next, tail);
      }
    }
  }

  /** The decoder's test on dimensions is that they multiply to the number of values. */
  lemma DimensionTest(ns: seq<u32>, count: u32)
    requires count > 0
    ensures 0 !in ns && CheckedProduct(1, ns) == Some(count) <==> Product(ns) == count
  {
    ProductZero(ns);
    if 0 !in ns { CheckedProductIs(1, ns); }
  }

  lemma Associate(a: nat, b: nat, c: nat)
    ensures a * (b * c) == (a * b) * c
  {
  }

  lemma AtLeast(a: nat, b: nat)
    requires b > 0
    ensures a <= a * b
  {
  }

  lemma {:induction false} U32sRoundTrip(ns: seq<u32>, rest: bytes)
    ensures DecodeU32s(|ns|, EncodeU32s(ns) + rest) == Got(ns, rest)
    ensures |EncodeU32s(ns)| == 4 * |ns|
  {
    if ns == [] {
      assert EncodeU32s(ns) + rest == rest;
    } else {
      hide WriteI32, ReadU32, WriteU32;
      var tail := EncodeU32s(ns[1..]);
      assert EncodeU32s(ns) + rest == WriteI32(AsI32(ns[0])) + (tail + rest);
      CastWrites(ns[0]);
      ReadU32Written(ns[0], tail + rest);
      U32sRoundTrip(ns[1..], rest);
      assert [ns[0]] + ns[1..] == ns;
    }
  }

  /** Casting a dimension to `Int32` keeps its bytes. */
  lemma CastWrites(n: u32)
    ensures WriteI32(AsI32(n)) == WriteU32(n) && |WriteU32(n)| == 4
  {
    PowersOf256();
  }

  lemma LengthWritten(n: nat, rest: bytes)
    requires n < 0x8000_0000
    ensures ReadI32(WriteI32(AsI32(n)) + rest) == Got(n, rest)
  {
    hide WriteI32, ReadI32;
    AsI32Keeps(n);
    ReadI32Written(n, rest);
  }

  lemma DimensionsRoundTrip(ns: seq<u32>, o: Options, rest: bytes)
    requires |ns| <= o.maxArrayLength && |ns| < 0x8000_0000
    ensures DecodeDimensions(EncodeDimensions(ns) + rest, o) == Got(Some(ns), rest)
    ensures |EncodeDimensions(ns)| == 4 + 4 * |ns|
  {
    hide WriteI32, ReadI32;
    assert EncodeDimensions(ns) + rest == WriteI32(AsI32(|ns|)) + (EncodeU32s(ns) + rest);
    LengthWritten(|ns|, EncodeU32s(ns) + rest);
    U32sRoundTrip(ns, rest);
    LengthPrefix(|ns|);
  }

  lemma LengthPrefix(n: nat)
    ensures |WriteI32(AsI32(n))| == 4
  {
  }

  // ---------------------------------------------------------------- the round trip

  lemma {:induction false} WellTypedIsEncodable(v: Variant)
    requires WellTyped(v)
    ensures Encodable(v)
  {
    match v
    case Single(_) =>
    case Nested(inner) => WellTypedIsEncodable(inner);
    case Data(d) => if d.value.Some? { WellTypedIsEncodable(d.value.value); }
    case Array(_, values, _) => forall e | e in values ensures Encodable(e) { WellTypedIsEncodable(e); }
  }

  lemma MaskOfArray(v: Variant)
    requires v.Array?
    ensures var m := VariantMask(v); m % 64 == v.valueType && HasBit(m, 7) && HasBit(m, 6) == v.dimensions.Some?
  {
    var m := VariantMask(v);
    assert m / 2 / 2 / 2 / 2 / 2 / 2 == if v.dimensions.Some? then 3 else 2;
    BitSix(m);
  }

  lemma MaskOfSingle(v: Variant)
    requires !v.Array?
    ensures var m := VariantMask(v); m % 64 == TypeOf(v) && !HasBit(m, 7) && !HasBit(m, 6)
  {
    var m := VariantMask(v);
    assert m / 2 / 2 / 2 / 2 / 2 / 2 == 0;
    BitSix(m);
  }

  lemma BitSix(m: nat)
    ensures HasBit(m, 6) == (m / 2 / 2 / 2 / 2 / 2 / 2 % 2 == 1)
    ensures HasBit(m, 7) == (m / 2 / 2 / 2 / 2 / 2 / 2 / 2 % 2 == 1)
  {
    var h := m / 2 / 2 / 2;
    assert HasBit(m, 6) == HasBit(m / 2, 5) == HasBit(m / 2 / 2, 4) == HasBit(h, 3);
    assert HasBit(m, 7) == HasBit(m / 2, 6) == HasBit(m / 2 / 2, 5) == HasBit(h, 4);
    assert HasBit(h, 3) == HasBit(h / 2, 2) == HasBit(h / 2 / 2, 1) == HasBit(h / 2 / 2 / 2, 0);
    assert HasBit(h, 4) == HasBit(h / 2, 3) == HasBit(h / 2 / 2, 2) == HasBit(h / 2 / 2 / 2, 1);
  }

  /** Reading the mask of an encoded variant. */
  lemma VariantReads(v: Variant, o: Options, depth: nat, rest: bytes)
    requires Encodable(v)
    ensures DecodeVariant(EncodeVariant(v) + rest, o, depth) ==
            if v.Array? then DecodeArray(v.valueType, v.dimensions.Some?, EncodePayload(v) + rest, o, depth)
            else DecodeValue(TypeOf(v), EncodePayload(v) + rest, o, depth)
  {
    hide HasBit, VariantMask, DecodeArray, DecodeValue, EncodePayload;
    var mask, payload := VariantMask(v), EncodePayload(v);
    assert EncodeVariant(v) + rest == WriteU8(mask) + (payload + rest);
    ReadU8Written(mask, payload + rest);
    if v.Array? { MaskOfArray(v); } else { MaskOfSingle(v); }
  }

  /** Within the limits, a well-typed rectangular variant comes back in normal form with the following bytes intact,
      exactly when the depth gauge admits it; otherwise it is refused. */
  lemma {:induction false} VariantRoundTrip(v: Variant, o: Options, depth: nat, rest: bytes)
    requires VariantFits(v, o) && WellTyped(v) && Rectangular(v) && depth <= o.maxDepth
    ensures Encodable(v)
    ensures DecodeVariant(EncodeVariant(v) + rest, o, depth) ==
            Expect(depth + Depth(v) <= o.maxDepth, NormalVariant(v, o), rest)
    decreases v, 1
  {
    hide EncodeVariant, DecodeVariant, DecodeArray, DecodeValue, EncodePayload, NormalVariant, Depth;
    WellTypedIsEncodable(v);
    VariantReads(v, o, depth, rest);
    if v.Array? {
      ArrayRoundTrip(v, o, depth, rest);
    } else {
      PayloadRoundTrip(v, o, depth, rest);
    }
  }

  lemma {:induction false} PayloadRoundTrip(v: Variant, o: Options, depth: nat, rest: bytes)
    requires !v.Array? && VariantFits(v, o) && WellTyped(v) && Rectangular(v) && depth <= o.maxDepth
    ensures Encodable(v)
    ensures DecodeValue(TypeOf(v), EncodePayload(v) + rest, o, depth) ==
            Expect(depth + Depth(v) <= o.maxDepth, NormalVariant(v, o), rest)
    decreases v, 0
  {
    hide DecodeScalar, EncodeScalar, NormalScalar;
    WellTypedIsEncodable(v);
    match v
    case Single(x) => ScalarRoundTrip(x, o, depth, rest);
    case Nested(inner) => if depth < o.maxDepth { VariantRoundTrip(inner, o, depth + 1, rest); }
    case Data(d) => DataValueRoundTrip(d, o, depth, rest);
  }

  lemma {:induction false} ValuesRoundTrip(values: seq<Variant>, t: TypeId, o: Options, depth: nat, rest: bytes)
    requires depth <= o.maxDepth
    requires forall e <- values :: !e.Array? && TypeOf(e) == t && VariantFits(e, o) && WellTyped(e) && Rectangular(e)
    ensures forall e <- values :: Encodable(e)
    ensures DecodeValues(|values|, t, EncodeValues(values) + rest, o, depth) ==
            Expect(depth + ValuesDepth(values) <= o.maxDepth, NormalValues(values, o), rest)
    decreases values
  {
    forall e | e in values ensures Encodable(e) { WellTypedIsEncodable(e); }
    if values == [] {
      assert EncodeValues(values) + rest == rest;
    } else {
      hide DecodeValue, EncodePayload, NormalVariant;
      var tail := EncodeValues(values[1..]);
      assert EncodeValues(values) + rest == EncodePayload(values[0]) + (tail + rest);
      PayloadRoundTrip(values[0], o, depth, tail + rest);
      ValuesRoundTrip(values[1..], t, o, depth, rest);
    }
  }

  lemma {:induction false} ArrayRoundTrip(v: Variant, o: Options, depth: nat, rest: bytes)
    requires v.Array? && VariantFits(v, o) && WellTyped(v) && Rectangular(v) && depth <= o.maxDepth
    ensures Encodable(v)
    ensures DecodeArray(v.valueType, v.dimensions.Some?, EncodePayload(v) + rest, o, depth) ==
            Expect(depth + Depth(v) <= o.maxDepth, NormalVariant(v, o), rest)
    decreases v, 0
  {
    WellTypedIsEncodable(v);
    ValuesRoundTrip(v.values, v.valueType, o, depth,
                    (if v.dimensions.None? then [] else EncodeDimensions(v.dimensions.value)) + rest);
    ArrayDecodes(v, o, depth, rest);
    if v.dimensions.Some? { DimensionTest(v.dimensions.value, |v.values|); }
  }

  /** How the array decoder answers once its values are known to decode: everything hangs on the dimensions. */
  lemma ArrayDecodes(v: Variant, o: Options, depth: nat, rest: bytes)
    requires v.Array? && VariantFits(v, o) && WellTyped(v) && Encodable(v)
    requires var dims := if v.dimensions.None? then [] else EncodeDimensions(v.dimensions.value);
             DecodeValues(|v.values|, v.valueType, EncodeValues(v.values) + (dims + rest), o, depth) ==
             Expect(depth + ValuesDepth(v.values) <= o.maxDepth, NormalValues(v.values, o), dims + rest)
    ensures var dims := if v.dimensions.None? then [] else EncodeDimensions(v.dimensions.value);
            DecodeArray(v.valueType, v.dimensions.Some?, EncodePayload(v) + rest, o, depth) ==
            if v.values == [] then Got(NormalVariant(v, o), dims + rest)
            else Expect(
              && depth + Depth(v) <= o.maxDepth
              && (v.dimensions.Some? ==>
                    0 !in v.dimensions.value && CheckedProduct(1, v.dimensions.value) == Some(|v.values|)),
              NormalVariant(v, o), rest)
  {
    hide WriteI32, ReadI32, DecodeValues, EncodeValues, NormalValues, EncodeDimensions, DecodeDimensions;
    hide ValuesDepth, CheckedProduct;
    var dims := if v.dimensions.None? then [] else EncodeDimensions(v.dimensions.value);
    var n := |v.values|;
    assert EncodePayload(v) + rest == WriteI32(AsI32(n)) + (EncodeValues(v.values) + (dims + rest));
    LengthWritten(n, EncodeValues(v.values) + (dims + rest));
    if n == 0 {
      NoValues();
      assert v.values == [];
      assert EncodeValues(v.values) + (dims + rest) == dims + rest;
    } else {
      var normal := NormalValues(v.values, o);
      assert forall e <- normal :: !e.Array? && TypeOf(e) == v.valueType;
      if v.dimensions.Some? {
        DimensionsRoundTrip(v.dimensions.value, o, rest);
      } else {
        assert dims + rest == rest;
      }
    }
  }

  lemma NoValues()
    ensures EncodeValues([]) == []
    ensures forall o :: NormalValues([], o) == []
  {
  }

  lemma StampRoundTrip(time: Option<DateTime>, picoseconds: Option<u16>, o: Options, rest: bytes)
    ensures var s := EncodeStamp(time, picoseconds) + rest;
            var d := DecodeStamp(time.Some?, s, o);
            && d.Got? && d.value == NormalStamp(time, o)
            && DecodePicoseconds(time.Some? && picoseconds.Some?, d.rest) ==
               Got(if time.None? then None else picoseconds, rest)
    ensures |EncodeStamp(time, picoseconds)| == StampLength(time, picoseconds)
  {
    if time.None? {
      assert EncodeStamp(time, picoseconds) + rest == rest;
    } else {
      hide DecodeDateTime, EncodeDateTime, ReadU16, WriteU16;
      var tail := if picoseconds.None? then [] else WriteU16(picoseconds.value);
      assert EncodeStamp(time, picoseconds) + rest == EncodeDateTime(time.value) + (tail + rest);
      DateTimeRoundTrip(time.value, o, tail + rest);
      NumberWidths();
      if picoseconds.None? { assert tail + rest == rest; } else { ReadU16Written(picoseconds.value, rest); }
    }
  }

  lemma DataValueTailRoundTrip(d: DataValue, value: Option<Variant>, o: Options, rest: bytes)
    ensures DecodeDataValueTail(Mask(DataValueBits(d)), value, EncodeDataValueTail(d) + rest, o) ==
            Got(NormalDataValue(d.(value := None), o).(value := value), rest)
  {
    hide Mask, HasBit, DecodeStamp, EncodeStamp, DecodePicoseconds, NormalDateTime, WriteU32, ReadU32;
    var bits := DataValueBits(d);
    BitOfMask(bits, 1);
    BitOfMask(bits, 2);
    BitOfMask(bits, 3);
    BitOfMask(bits, 4);
    BitOfMask(bits, 5);
    var status := Records.OptionalU32(d.status);
    var source, server :=
      EncodeStamp(d.sourceTimestamp, d.sourcePicoseconds), EncodeStamp(d.serverTimestamp, d.serverPicoseconds);
    assert EncodeDataValueTail(d) + rest == status + (source + (server + rest));
    Records.OptionalU32RoundTrip(d.status, source + (server + rest));
    StampRoundTrip(d.sourceTimestamp, d.sourcePicoseconds, o.(clientOffset := 0), server + rest);
    StampRoundTrip(d.serverTimestamp, d.serverPicoseconds, o, rest);
  }

  /** A data value comes back in normal form exactly when the depth gauge admits its value. */
  lemma {:induction false} DataValueRoundTrip(d: DataValue, o: Options, depth: nat, rest: bytes)
    requires d.value.Some? ==> VariantFits(d.value.value, o) && WellTyped(d.value.value) && Rectangular(d.value.value)
    requires depth <= o.maxDepth
    ensures d.value.Some? ==> Encodable(d.value.value)
    ensures DecodeDataValue(EncodeDataValue(d) + rest, o, depth) ==
            Expect(d.value.None? || depth + Depth(d.value.value) <= o.maxDepth, NormalDataValue(d, o), rest)
    decreases d, 2
  {
    hide Mask, HasBit, EncodeDataValueTail, DecodeDataValueTail;
    if d.value.Some? { WellTypedIsEncodable(d.value.value); }
    var bits := DataValueBits(d);
    var value := if d.value.None? then [] else EncodeVariant(d.value.value);
    var tail := EncodeDataValueTail(d);
    MaskIsByte(bits);
    BitOfMask(bits, 0);
    assert EncodeDataValue(d) + rest == WriteU8(Mask(bits)) + (value + (tail + rest));
    ReadU8Written(Mask(bits), value + (tail + rest));
    if d.value.None? {
      assert value + (tail + rest) == tail + rest;
      DataValueTailRoundTrip(d, None, o, rest);
    } else {
      VariantRoundTrip(d.value.value, o, depth, tail + rest);
      DataValueTailRoundTrip(d, Some(NormalVariant(d.value.value, o)), o, rest);
    }
  }

  // ---------------------------------------------------------------- arrays, exactly

  /** An array whose values survive comes back, with the following bytes intact, exactly when its dimensions are absent
      or multiply to the number of values, of which there must then be one. */
  lemma ArrayRoundTripIff(v: Variant, o: Options, depth: nat, rest: bytes)
    requires v.Array? && VariantFits(v, o) && WellTyped(v) && (forall e <- v.values :: Rectangular(e))
    requires depth + Depth(v) <= o.maxDepth
    ensures Encodable(v)
    ensures DecodeVariant(EncodeVariant(v) + rest, o, depth) == Got(NormalVariant(v, o), rest) <==>
            DimensionsMatch(v.values, v.dimensions)
  {
    hide EncodeVariant, DecodeVariant, EncodeDimensions, DecodeArray, EncodePayload, NormalVariant, CheckedProduct, Product;
    WellTypedIsEncodable(v);
    VariantReads(v, o, depth, rest);
    var dims := if v.dimensions.None? then [] else EncodeDimensions(v.dimensions.value);
    ValuesRoundTrip(v.values, v.valueType, o, depth, dims + rest);
    ArrayDecodes(v, o, depth, rest);
    if v.dimensions.None? {
      assert dims + rest == rest;
    } else if v.values == [] {
      DimensionsRoundTrip(v.dimensions.value, o, rest);
      assert |dims + rest| != |rest|;
    } else {
      DimensionTest(v.dimensions.value, |v.values|);
    }
  }

  /** An empty array comes back with an empty list of dimensions, and that value does not survive: re-encoded, it
      leaves the four bytes of its dimension count in front of whatever follows. */
  lemma EmptyArrayLosesStep(t: TypeId, o: Options, rest: bytes)
    requires t != 0
    ensures var decoded := Array(t, [], Some([]));
            && DecodeVariant(EncodeVariant(Array(t, [], None)) + rest, o, 0) == Got(decoded, rest)
            && DecodeVariant(EncodeVariant(decoded) + rest, o, 0) == Got(decoded, [0, 0, 0, 0] + rest)
  {
    hide EncodeVariant, DecodeVariant, EncodeDimensions;
    EmptyArrayDecodes(Array(t, [], None), o, rest);
    EmptyArrayDecodes(Array(t, [], Some([])), o, rest);
    NoDimensions();
    assert [] + rest == rest;
  }

  lemma NoDimensions()
    ensures EncodeDimensions([]) == [0, 0, 0, 0]
  {
    PowersOf256();
    assert EncodeU32s([]) == [];
    assert Le(0, 4) == [0] + Le(0, 3) && Le(0, 3) == [0] + Le(0, 2) && Le(0, 2) == [0] + Le(0, 1) && Le(0, 1) == [0] + Le(0, 0);
  }

  lemma EmptyArrayDecodes(v: Variant, o: Options, rest: bytes)
    requires v.Array? && v.valueType != 0 && v.values == []
    ensures var dims := if v.dimensions.None? then [] else EncodeDimensions(v.dimensions.value);
            DecodeVariant(EncodeVariant(v) + rest, o, 0) == Got(Array(v.valueType, [], Some([])), dims + rest)
  {
    hide EncodeVariant, DecodeVariant, WriteI32, ReadI32, EncodeDimensions;
    var dims := if v.dimensions.None? then [] else EncodeDimensions(v.dimensions.value);
    NoValues();
    VariantReads(v, o, 0, rest);
    assert EncodePayload(v) + rest == WriteI32(AsI32(0)) + (dims + rest);
    LengthWritten(0, dims + rest);
  }

  // ---------------------------------------------------------------- lengths

  /** `byte_len` is the number of bytes `encode` writes. */
  lemma {:induction false} VariantLengthExact(v: Variant)
    requires Encodable(v)
    ensures |EncodeVariant(v)| == VariantLength(v)
    decreases v, 1
  {
    PayloadLengthExact(v);
  }

  lemma {:induction false} PayloadLengthExact(v: Variant)
    requires Encodable(v)
    ensures |EncodePayload(v)| == PayloadLength(v)
    decreases v, 0
  {
    match v
    case Single(x) => ScalarLengthExact(x);
    case Nested(inner) => VariantLengthExact(inner);
    case Data(d) => DataValueLengthExact(d);
    case Array(_, values, dimensions) =>
      ValuesLengthExact(values);
      LengthPrefix(|values|);
      if dimensions.Some? {
        LengthPrefix(|dimensions.value|);
        U32sRoundTrip(dimensions.value, []);
      }
  }

  lemma {:induction false} ValuesLengthExact(values: seq<Variant>)
    requires forall e <- values :: !e.Array? && Encodable(e)
    ensures |EncodeValues(values)| == ValuesLength(values)
    decreases values
  {
    if values != [] {
      PayloadLengthExact(values[0]);
      ValuesLengthExact(values[1..]);
    }
  }

  lemma {:induction false} DataValueLengthExact(d: DataValue)
    requires d.value.Some? ==> Encodable(d.value.value)
    ensures |EncodeDataValue(d)| == DataValueLength(d)
    decreases d, 2
  {
    if d.value.Some? { VariantLengthExact(d.value.value); }
    var o := Options(0, 0, 0, 0, 0);
    StampRoundTrip(d.sourceTimestamp, d.sourcePicoseconds, o, []);
    StampRoundTrip(d.serverTimestamp, d.serverPicoseconds, o, []);
  }

  // ---------------------------------------------------------------- a prefix code

  /** More input never changes what was decoded. */
  lemma {:induction false} VariantExtends(s: bytes, o: Options, depth: nat, more: bytes)
    ensures Stable(DecodeVariant(s, o, depth), DecodeVariant(s + more, o, depth), more)
    decreases |s|, 0
  {
    hide HasBit;
    if DecodeVariant(s, o, depth).Got? {
      TakeExtends(s, 1, more);
      if HasBit(s[0], 7) {
        ArrayExtends(s[0] % 64, HasBit(s[0], 6), s[1..], o, depth, more);
      } else {
        ValueExtends(s[0] % 64, s[1..], o, depth, more);
      }
    }
  }

  lemma {:induction false} ArrayExtends(t: u8, hasDimensions: bool, s: bytes, o: Options, depth: nat, more: bytes)
    ensures Stable(DecodeArray(t, hasDimensions, s, o, depth), DecodeArray(t, hasDimensions, s + more, o, depth), more)
    decreases |s|, 5
  {
    hide DecodeValues, WithDimensions;
    if DecodeArray(t, hasDimensions, s, o, depth).Got? {
      TakeExtends(s, 4, more);
      var len, s1 := ReadI32(s).value, ReadI32(s).rest;
      if len > 0 {
        ValuesExtends(len, t, s1, o, depth, more);
        var d := DecodeValues(len, t, s1, o, depth);
        WithDimensionsExtends(t, d.value, d.rest, o, more);
      }
    }
  }

  lemma {:induction false} ValuesExtends(n: nat, t: u8, s: bytes, o: Options, depth: nat, more: bytes)
    ensures Stable(DecodeValues(n, t, s, o, depth), DecodeValues(n, t, s + more, o, depth), more)
    decreases |s|, 4, n
  {
    hide DecodeValue;
    if DecodeValues(n, t, s, o, depth).Got? && n > 0 {
      ValueExtends(t, s, o, depth, more);
      ValuesExtends(n - 1, t, DecodeValue(t, s, o, depth).rest, o, depth, more);
    }
  }

  lemma {:induction false} ValueExtends(t: u8, s: bytes, o: Options, depth: nat, more: bytes)
    ensures Stable(DecodeValue(t, s, o, depth), DecodeValue(t, s + more, o, depth), more)
    decreases |s|, 3
  {
    hide DecodeScalar;
    if t == 24 {
      VariantExtends(s, o, depth + 1, more);
    } else if t == 23 {
      DataValueExtends(s, o, depth, more);
    } else {
      ScalarExtends(t, s, o, depth, more);
    }
  }

  lemma {:induction false} DataValueExtends(s: bytes, o: Options, depth: nat, more: bytes)
    ensures Stable(DecodeDataValue(s, o, depth), DecodeDataValue(s + more, o, depth), more)
    decreases |s|, 2
  {
    hide HasBit, DecodeDataValueTail;
    if DecodeDataValue(s, o, depth).Got? {
      TakeExtends(s, 1, more);
      if HasBit(s[0], 0) { VariantExtends(s[1..], o, depth, more); }
      var d := DecodeOptionalVariant(HasBit(s[0], 0), s[1..], o, depth);
      DataValueTailExtends(s[0], d.value, d.rest, o, more);
    }
  }

  lemma WithDimensionsExtends(t: u8, values: seq<Variant>, s: bytes, o: Options, more: bytes)
    ensures Stable(WithDimensions(t, values, s, o), WithDimensions(t, values, s + more, o), more)
  {
    if WithDimensions(t, values, s, o).Got? {
      TakeExtends(s, 4, more);
      U32sExtends(ReadI32(s).value, ReadI32(s).rest, more);
    }
  }

  lemma {:induction false} U32sExtends(n: nat, s: bytes, more: bytes)
    ensures Stable(DecodeU32s(n, s), DecodeU32s(n, s + more), more)
  {
    if n > 0 && DecodeU32s(n, s).Got? {
      TakeExtends(s, 4, more);
      U32sExtends(n - 1, s[4..], more);
    }
  }

  lemma StampExtends(present: bool, s: bytes, o: Options, more: bytes)
    ensures Stable(DecodeStamp(present, s, o), DecodeStamp(present, s + more, o), more)
  {
    if present && |s| >= 8 { TakeExtends(s, 8, more); }
  }

  lemma PicosecondsExtends(present: bool, s: bytes, more: bytes)
    ensures Stable(DecodePicoseconds(present, s), DecodePicoseconds(present, s + more), more)
  {
    if present && |s| >= 2 { TakeExtends(s, 2, more); }
  }

  lemma DataValueTailExtends(mask: nat, value: Option<Variant>, s: bytes, o: Options, more: bytes)
    ensures Stable(DecodeDataValueTail(mask, value, s, o), DecodeDataValueTail(mask, value, s + more, o), more)
  {
    hide HasBit, DecodeStamp, DecodePicoseconds, Records.DecodeOptionalU32;
    if DecodeDataValueTail(mask, value, s, o).Got? {
      var s1 := Records.DecodeOptionalU32(HasBit(mask, 1), s).rest;
      var s2 := DecodeStamp(HasBit(mask, 2), s1, o.(clientOffset := 0)).rest;
      var s3 := DecodePicoseconds(HasBit(mask, 4), s2).rest;
      var s4 := DecodeStamp(HasBit(mask, 3), s3, o).rest;
      Records.OptionalU32Extends(HasBit(mask, 1), s, more);
      StampExtends(HasBit(mask, 2), s1, o.(clientOffset := 0), more);
      PicosecondsExtends(HasBit(mask, 4), s2, more);
      StampExtends(HasBit(mask, 3), s3, o, more);
      PicosecondsExtends(HasBit(mask, 5), s4, more);
    }
  }

  /** No proper prefix of an encoding decodes. */
  lemma NoPrefixDecodes(v: Variant, o: Options, depth: nat, k: nat)
    requires VariantFits(v, o) && WellTyped(v) && Rectangular(v) && depth + Depth(v) <= o.maxDepth
    requires Encodable(v) && k < |EncodeVariant(v)|
    ensures DecodeVariant(EncodeVariant(v)[..k], o, depth).Bad?
  {
    hide DecodeVariant, EncodeVariant, NormalVariant;
    var e := EncodeVariant(v);
    VariantExtends(e[..k], o, depth, e[k..]);
    assert e[..k] + e[k..] == e && e + [] == e;
    VariantRoundTrip(v, o, depth, []);
  }

  // ---------------------------------------------------------------- what any bytes decode to

  predicate NoEmptyArrays(v: Variant) {
    match v
    case Single(_) => true
    case Nested(inner) => NoEmptyArrays(inner)
    case Data(d) => d.value.Some? ==> NoEmptyArrays(d.value.value)
    case Array(_, values, _) => values != [] && forall e <- values :: NoEmptyArrays(e)
  }

  /** A value the round trip applies to, unless it holds an empty array. */
  predicate Sound(v: Variant, o: Options, depth: nat) {
    VariantFits(v, o) && WellTyped(v) && (NoEmptyArrays(v) ==> Rectangular(v)) && depth + Depth(v) <= o.maxDepth
  }

  lemma {:induction false} DecodedVariantIsSound(s: bytes, o: Options, depth: nat)
    requires depth <= o.maxDepth && DecodeVariant(s, o, depth).Got?
    ensures Sound(DecodeVariant(s, o, depth).value, o, depth)
    decreases |s|, 0
  {
    hide HasBit, Sound;
    if HasBit(s[0], 7) {
      DecodedArrayIsSound(s[0] % 64, HasBit(s[0], 6), s[1..], o, depth);
    } else {
      DecodedValueIsSound(s[0] % 64, s[1..], o, depth);
    }
  }

  lemma {:induction false} DecodedArrayIsSound(t: u8, hasDimensions: bool, s: bytes, o: Options, depth: nat)
    requires depth <= o.maxDepth && DecodeArray(t, hasDimensions, s, o, depth).Got?
    ensures Sound(DecodeArray(t, hasDimensions, s, o, depth).value, o, depth)
    decreases |s|, 5
  {
    hide DecodeValues, DecodeDimensions, CheckedProduct, Product, ReadI32;
    var v := DecodeArray(t, hasDimensions, s, o, depth).value;
    var len, s1 := ReadI32(s).value, ReadI32(s).rest;
    if len > 0 {
      DecodedValuesAreSound(len, t, s1, o, depth);
      var d := DecodeValues(len, t, s1, o, depth);
      assert v.values == d.value;
      if v.dimensions.Some? {
        DimensionTest(v.dimensions.value, |v.values|);
        DecodedDimensions(d.rest, o);
      }
    } else {
      assert v == Array(t, [], Some([])) && ValuesDepth([]) == 0;
    }
  }

  lemma DecodedDimensions(s: bytes, o: Options)
    ensures var d := DecodeDimensions(s, o);
            d.Got? && d.value.Some? ==> |d.value.value| <= o.maxArrayLength && |d.value.value| < 0x8000_0000
  {
  }

  lemma {:induction false} DecodedValuesAreSound(n: nat, t: u8, s: bytes, o: Options, depth: nat)
    requires depth <= o.maxDepth && DecodeValues(n, t, s, o, depth).Got?
    ensures forall e <- DecodeValues(n, t, s, o, depth).value :: Sound(e, o, depth)
    ensures depth + ValuesDepth(DecodeValues(n, t, s, o, depth).value) <= o.maxDepth
    decreases |s|, 4, n
  {
    hide DecodeValue;
    if n > 0 {
      DecodedValueIsSound(t, s, o, depth);
      var first := DecodeValue(t, s, o, depth);
      DecodedValuesAreSound(n - 1, t, first.rest, o, depth);
      var others := DecodeValues(n - 1, t, first.rest, o, depth).value;
      assert ([first.value] + others)[1..] == others;
    }
  }

  lemma {:induction false} DecodedValueIsSound(t: u8, s: bytes, o: Options, depth: nat)
    requires depth <= o.maxDepth && DecodeValue(t, s, o, depth).Got?
    ensures Sound(DecodeValue(t, s, o, depth).value, o, depth)
    decreases |s|, 3
  {
    hide DecodeScalar, DecodeVariant, DecodeDataValue;
    if t == 24 {
      DecodedVariantIsSound(s, o, depth + 1);
    } else if t == 23 {
      DecodedDataValueIsSound(s, o, depth);
    } else {
      DecodedScalar(t, s, o, depth);
    }
  }

  lemma {:induction false} DecodedDataValueIsSound(s: bytes, o: Options, depth: nat)
    requires depth <= o.maxDepth && DecodeDataValue(s, o, depth).Got?
    ensures Sound(Data(DecodeDataValue(s, o, depth).value), o, depth)
    decreases |s|, 2
  {
    hide HasBit, DecodeVariant, DecodeStamp, DecodePicoseconds, Records.DecodeOptionalU32;
    if HasBit(s[0], 0) {
      DecodedVariantIsSound(s[1..], o, depth);
    }
  }

  /** Whatever bytes a variant was read from, re-encoding it gives bytes that decode to its normal form, unless it
      holds an empty array. */
  lemma DecodedVariantReencodes(s: bytes, o: Options, depth: nat, rest: bytes)
    requires depth <= o.maxDepth && DecodeVariant(s, o, depth).Got?
    requires NoEmptyArrays(DecodeVariant(s, o, depth).value)
    ensures var v := DecodeVariant(s, o, depth).value;
            Encodable(v) && DecodeVariant(EncodeVariant(v) + rest, o, depth) == Got(NormalVariant(v, o), rest)
  {
    hide DecodeVariant, EncodeVariant, NormalVariant;
    DecodedVariantIsSound(s, o, depth);
    VariantRoundTrip(DecodeVariant(s, o, depth).value, o, depth, rest);
  }
}
