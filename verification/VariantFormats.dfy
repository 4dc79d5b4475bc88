/** The layout of variants, response headers and arguments on the wire, and what readers make of bytes that no writer
    produces (lib/src/types/{variant,variant_type_id,response_header,argument,encoding}.rs). */
module VariantFormats {
  import opened Prelude
  import opened Wire
  import opened UaTypes
  import opened Builtins
  import opened NodeIds
  import opened Records
  import opened DateTimes
  import opened Scalars
  import opened Variants
  import VariantLaws
  import opened ResponseHeaders
  import opened Arguments
  import WireFormats

  // ---------------------------------------------------------------- variants

  /** A variant that holds one value: the number of its type, and the value. */
  lemma ScalarLayout(x: Scalar)
    ensures EncodeVariant(Single(x)) ==
            match x
            case Empty => [0]
            case Boolean(b) => [1, if b then 1 else 0]
            case SByte(n) => [2] + WriteI8(n)
            case Byte(n) => [3, n]
            case Int16(n) => [4] + WriteI16(n)
            case UInt16(n) => [5] + Le(n, 2)
            case Int32(n) => [6] + WriteI32(n)
            case UInt32(n) => [7] + Le(n, 4)
            case Int64(n) => [8] + WriteI64(n)
            case UInt64(n) => [9] + Le(n, 8)
            case Float(bits) => [10] + Le(bits, 4)
            case Double(bits) => [11] + Le(bits, 8)
            case Text(text) => [12] + EncodeString(text)
            case Date(date) => [13] + EncodeDateTime(date)
            case GuidValue(guid) => [14] + guid
            case Octets(data) => [15] + EncodeByteString(data)
            case XmlElement(element) => [16] + EncodeString(element)
            case Node(id) => [17] + EncodeNodeId(id)
            case ExpandedNode(id) => [18] + EncodeExpanded(id)
            case StatusCode(code) => [19] + Le(code, 4)
            case Qualified(name) => [20] + EncodeQualifiedName(name)
            case Localized(text) => [21] + EncodeLocalizedText(text)
            case Extension(holder) => [22] + EncodeExtensionObject(holder)
            case Diagnostic(info) => [25] + EncodeDiagnosticInfo(info)
  {
    hide Le, WriteI8, WriteI16, WriteI32, WriteI64, EncodeString, EncodeDateTime, EncodeByteString, EncodeNodeId;
    hide EncodeExpanded, EncodeQualifiedName, EncodeLocalizedText, EncodeExtensionObject, EncodeDiagnosticInfo;
  }

  /** Data values have type 23, and variants held by variants 24. */
  lemma HolderLayout(d: DataValue, inner: Variant)
    requires Encodable(Data(d)) && Encodable(Nested(inner))
    ensures EncodeVariant(Data(d)) == [23] + EncodeDataValue(d)
    ensures EncodeVariant(Nested(inner)) == [24] + EncodeVariant(inner)
  {
  }

  /** The values of an array one after another, without their types. */
  function Elements(values: seq<Variant>): bytes
    requires forall e <- values :: Encodable(e)
  {
    if values == [] then [] else EncodeVariant(values[0])[1..] + Elements(values[1..])
  }

  function Words(ns: seq<u32>): bytes { if ns == [] then [] else Le(ns[0], 4) + Words(ns[1..]) }

  lemma {:induction false} ElementsAre(values: seq<Variant>)
    requires forall e <- values :: !e.Array? && Encodable(e)
    ensures EncodeValues(values) == Elements(values)
    decreases |values|
  {
    if values != [] {
      ElementsAre(values[1..]);
      assert EncodeVariant(values[0])[1..] == EncodePayload(values[0]);
    }
  }

  lemma {:induction false} WordsAre(ns: seq<u32>)
    ensures EncodeU32s(ns) == Words(ns)
  {
    if ns != [] {
      VariantLaws.CastWrites(ns[0]);
      WordsAre(ns[1..]);
      hide Le, WriteI32, AsI32;
    }
  }

  /** An array: 0x80 on the type of its values, 0x40 when it has dimensions; the number of values, the values, and the
      number of dimensions and the dimensions. */
  lemma ArrayLayout(t: TypeId, values: seq<Variant>, dimensions: Option<seq<u32>>)
    requires Encodable(Array(t, values, dimensions)) && |values| < 0x8000_0000
    requires dimensions.Some? ==> |dimensions.value| < 0x8000_0000
    ensures EncodeVariant(Array(t, values, dimensions)) ==
            [t + 0x80 + if dimensions.Some? then 0x40 else 0] + Le(|values|, 4) + Elements(values)
            + (if dimensions.Some? then Le(|dimensions.value|, 4) + Words(dimensions.value) else [])
  {
    hide Le, WriteI32, AsI32, EncodeValues, Elements, EncodeDimensions, Words, EncodePayload;
    WireFormats.LengthBytes(|values|);
    ElementsAre(values);
    if dimensions.Some? { DimensionsAre(dimensions.value); }
    ArrayPayload(t, values, dimensions);
    var tail := if dimensions.Some? then Le(|dimensions.value|, 4) + Words(dimensions.value) else [];
    Associate([t + 0x80 + if dimensions.Some? then 0x40 else 0], Le(|values|, 4), Elements(values), tail);
  }

  lemma ArrayPayload(t: TypeId, values: seq<Variant>, dimensions: Option<seq<u32>>)
    requires Encodable(Array(t, values, dimensions))
    ensures EncodePayload(Array(t, values, dimensions)) ==
            WriteI32(AsI32(|values|)) + EncodeValues(values)
            + (if dimensions.Some? then EncodeDimensions(dimensions.value) else [])
  {
    hide WriteI32, AsI32, EncodeDimensions;
  }

  lemma DimensionsAre(dimensions: seq<u32>)
    requires |dimensions| < 0x8000_0000
    ensures EncodeDimensions(dimensions) == Le(|dimensions|, 4) + Words(dimensions)
  {
    hide Le, WriteI32, AsI32, EncodeU32s, Words;
    WireFormats.LengthBytes(|dimensions|);
    WordsAre(dimensions);
  }

  lemma Associate(a: bytes, b: bytes, c: bytes, d: bytes)
    ensures a + (b + c + d) == a + b + c + d
  {
  }

  // ---------------------------------------------------------------- what readers make of other bytes

  /** Only the byte one is true. */
  lemma BooleanReads(n: u8, rest: bytes, o: Options, depth: nat)
    ensures DecodeVariant([1, n] + rest, o, depth) == Got(Single(Boolean(n == 1)), rest)
  {
    var s := [1, n] + rest;
    assert s[1..][0] == n && s[1..][1..] == rest;
    LowBits(1);
  }

  /** A type number that no type has is read as an empty variant. */
  lemma UnknownTypeReads(t: u8, rest: bytes, o: Options, depth: nat)
    requires 26 <= t < 0x40
    ensures DecodeVariant([t] + rest, o, depth) == Got(Single(Empty), rest)
  {
    assert ([t] + rest)[1..] == rest;
    LowBits(t);
  }

  lemma LowBits(t: u8)
    requires t < 0x40
    ensures t % 64 == t && !HasBit(t, 6) && !HasBit(t, 7)
  {
    TopBits(t);
  }

  /** The two highest bits of a byte. */
  lemma TopBits(mask: u8)
    ensures HasBit(mask, 7) <==> mask >= 0x80
    ensures HasBit(mask, 6) <==> mask % 0x80 >= 0x40
  {
    hide HasBit;
    assert HasBit(mask, 7) == HasBit(mask / 2 / 2 / 2 / 2 / 2 / 2 / 2, 0) by {
      BitStep(mask, 7);
      BitStep(mask / 2, 6);
      BitStep(mask / 2 / 2, 5);
      BitStep(mask / 2 / 2 / 2, 4);
      BitStep(mask / 2 / 2 / 2 / 2, 3);
      BitStep(mask / 2 / 2 / 2 / 2 / 2, 2);
      BitStep(mask / 2 / 2 / 2 / 2 / 2 / 2, 1);
    }
    assert HasBit(mask, 6) == HasBit(mask / 2 / 2 / 2 / 2 / 2 / 2, 0) by {
      BitStep(mask, 6);
      BitStep(mask / 2, 5);
      BitStep(mask / 2 / 2, 4);
      BitStep(mask / 2 / 2 / 2, 3);
      BitStep(mask / 2 / 2 / 2 / 2, 2);
      BitStep(mask / 2 / 2 / 2 / 2 / 2, 1);
    }
    LowestBit(mask / 2 / 2 / 2 / 2 / 2 / 2 / 2);
    LowestBit(mask / 2 / 2 / 2 / 2 / 2 / 2);
  }

  lemma LowestBit(mask: nat)
    ensures HasBit(mask, 0) <==> mask % 2 == 1
  {
  }

  lemma BitStep(mask: nat, i: nat)
    requires i > 0
    ensures HasBit(mask, i) == HasBit(mask / 2, i - 1)
  {
  }

  /** Dimensions without values are refused. */
  lemma LoneDimensionsAreRefused(mask: u8, rest: bytes, o: Options, depth: nat)
    requires 0x40 <= mask < 0x80
    ensures DecodeVariant([mask] + rest, o, depth) == Bad(BadDecodingError)
  {
    hide HasBit, DecodeArray, DecodeValue;
    TopBits(mask);
  }

  lemma ArrayReads(mask: u8, s: bytes, o: Options, depth: nat)
    requires mask >= 0x80
    ensures DecodeVariant([mask] + s, o, depth) == DecodeArray(mask % 64, HasBit(mask, 6), s, o, depth)
  {
    hide HasBit, DecodeArray, DecodeValue;
    TopBits(mask);
    assert ([mask] + s)[1..] == s;
  }

  /** The length of an array: below minus one it is refused; minus one and zero are an empty array; above the limit it is
      refused with a status of its own. */
  lemma ArrayLengthReads(mask: u8, n: i32, rest: bytes, o: Options, depth: nat)
    requires 0x81 <= mask <= 0x99 || 0xC1 <= mask <= 0xD9
    ensures n < -1 ==> DecodeVariant([mask] + WriteI32(n) + rest, o, depth) == Bad(BadDecodingError)
    ensures -1 <= n <= 0 ==>
              DecodeVariant([mask] + WriteI32(n) + rest, o, depth) == Got(Array(mask % 0x40, [], Some([])), rest)
    ensures n > 0 && n > o.maxArrayLength ==>
              DecodeVariant([mask] + WriteI32(n) + rest, o, depth) == Bad(BadEncodingLimitsExceeded)
  {
    hide ReadI32, WriteI32, HasBit, DecodeVariant, DecodeValues, WithDimensions;
    assert [mask] + WriteI32(n) + rest == [mask] + (WriteI32(n) + rest);
    ArrayReads(mask, WriteI32(n) + rest, o, depth);
    ReadI32Written(n, rest);
  }

  /** Ticks read as instants less the offset of the clock. */
  lemma TicksRead(ticks: nat, o: Options, rest: bytes)
    requires ticks < 0x7FFF_FFFF_FFFF_FFFF && o.clientOffset % 100 == 0
    ensures DecodeDateTime(WriteI64(ticks) + rest, o) == Got(DateTime(ticks * 100 - o.clientOffset), rest)
  {
    hide FromTicks, FromChrono, WriteI64, ReadI64;
    ReadI64Written(ticks, rest);
    FromTicksIsExact(ticks);
    FromChronoFloors(ticks * 100 - o.clientOffset);
  }

  /** In a data value whose times are whole ticks from 1601 to 9999, the server's time is read less the offset and the
      source's as it was written; picoseconds go with their time. */
  lemma TimesRead(d: DataValue, time: nat, o: Options)
    requires time % 100 == 0 && time < 265046774399 * 1_000_000_000 && o.clientOffset % 100 == 0
    ensures
      var n := VariantLaws.NormalDataValue(d, o);
      && n.status == d.status
      && (d.sourceTimestamp == Some(DateTime(time)) ==>
            n.sourceTimestamp == Some(DateTime(time)) && n.sourcePicoseconds == d.sourcePicoseconds)
      && (d.serverTimestamp == Some(DateTime(time)) ==>
            n.serverTimestamp == Some(DateTime(time - o.clientOffset)) && n.serverPicoseconds == d.serverPicoseconds)
      && (d.sourceTimestamp.None? ==> n.sourceTimestamp == None && n.sourcePicoseconds == None)
      && (d.serverTimestamp.None? ==> n.serverTimestamp == None && n.serverPicoseconds == None)
  {
    hide VariantLaws.NormalVariant;
  }

  /** A length-prefixed run of bytes is refused exactly when its length is below minus one or above the limit, or when
      the bytes run out. */
  lemma RunIsRefusedIff(n: i32, rest: bytes, max: nat)
    ensures DecodeRun(WriteI32(n) + rest, max).Bad? <==> n < -1 || n > max || n > |rest|
    ensures DecodeRun(WriteI32(n) + rest, max).Bad? ==> DecodeRun(WriteI32(n) + rest, max) == Bad(BadDecodingError)
  {
    ReadI32Written(n, rest);
    hide ReadI32, WriteI32;
  }

  /** Strings and byte strings have limits of their own. */
  lemma LongStringIsRefused(b: bytes, rest: bytes, o: Options)
    requires |b| < 0x8000_0000
    ensures |b| > o.maxStringLength ==> DecodeString(Le(|b|, 4) + b + rest, o) == Bad(BadDecodingError)
    ensures |b| > o.maxByteStringLength ==> DecodeByteString(Le(|b|, 4) + b + rest, o) == Bad(BadDecodingError)
    ensures |b| <= o.maxByteStringLength ==> DecodeByteString(Le(|b|, 4) + b + rest, o) == Got(Bytes(b), rest)
  {
    hide DecodeRun, Le, WriteI32, AsI32, EncodeByteString;
    WireFormats.LengthBytes(|b|);
    AsI32Keeps(|b|);
    assert Le(|b|, 4) + b + rest == WriteI32(|b|) + (b + rest);
    RunIsRefusedIff(|b|, b + rest, o.maxStringLength);
    RunIsRefusedIff(|b|, b + rest, o.maxByteStringLength);
    if |b| <= o.maxByteStringLength {
      hide DecodeByteString;
      WireFormats.ByteStringLayout(Bytes(b));
      ByteStringRoundTrip(Bytes(b), o, rest);
    }
  }

  /** A node id form above five, and an extension object body kind above two, are refused. */
  lemma UnknownFormsAreRefused(form: u8, kind: u8, nodeId: NodeId, rest: bytes, o: Options, depth: nat)
    requires form > 5 && kind > 2 && NodeIdFits(nodeId, o)
    ensures DecodeNodeId([form] + rest, o) == Bad(BadDecodingError)
    ensures DecodeExtensionObject(EncodeNodeId(nodeId) + ([kind] + rest), o, depth) == Bad(BadDecodingError)
  {
    NodeIdRoundTrip(nodeId, o, [kind] + rest);
    hide EncodeNodeId;
  }

  // ---------------------------------------------------------------- response headers and arguments

  function Strings(table: seq<UAString>): bytes { if table == [] then [] else EncodeString(table[0]) + Strings(table[1..]) }

  lemma {:induction false} StringsAre(table: seq<UAString>)
    ensures EncodeStrings(table) == Strings(table)
  {
    if table != [] { StringsAre(table[1..]); }
  }

  /** A table of strings: null as minus one, otherwise their number and the strings. */
  lemma TableLayout(table: Option<seq<UAString>>)
    requires table.Some? ==> |table.value| < 0x8000_0000
    ensures EncodeTable(table) ==
            if table.None? then [0xFF, 0xFF, 0xFF, 0xFF] else Le(|table.value|, 4) + Strings(table.value)
  {
    WireFormats.MinusOne();
    if table.Some? {
      WireFormats.LengthBytes(|table.value|);
      StringsAre(table.value);
    }
    hide Le, WriteI32, AsI32, EncodeStrings, Strings;
  }

  /** Timestamp, request handle, result, diagnostics, string table, additional header. */
  lemma ResponseHeaderLayout(timestamp: DateTime, handle: u32, result: u32, diagnostics: DiagnosticInfo,
                             table: Option<seq<UAString>>, additional: ExtensionObject)
    ensures EncodeHeader(ResponseHeader(timestamp, handle, result, diagnostics, table, additional)) ==
            EncodeDateTime(timestamp) + Le(handle, 4) + Le(result, 4) + EncodeDiagnosticInfo(diagnostics)
            + EncodeTable(table) + EncodeExtensionObject(additional)
  {
  }

  /** Name, type, rank, dimensions, description; without a positive rank there are no dimensions. */
  lemma ArgumentLayout(name: UAString, dataType: NodeId, rank: i32, dimensions: Option<seq<u32>>, description: LocalizedText)
    requires rank > 0 ==> dimensions.Some? && |dimensions.value| == rank
    ensures EncodeArgument(Argument(name, dataType, rank, dimensions, description)) ==
            Ok(EncodeString(name) + EncodeNodeId(dataType) + WriteI32(rank)
               + (if rank > 0 then Le(rank, 4) + Words(dimensions.value) else [0, 0, 0, 0]) + EncodeLocalizedText(description))
  {
    if rank > 0 {
      WireFormats.LengthBytes(rank);
      WordsAre(dimensions.value);
    } else {
      WireFormats.LengthBytes(0);
      WireFormats.SmallBytes(0);
      WordsAre([]);
      assert Le(0, 4) + [] == [0, 0, 0, 0];
    }
    hide EncodeString, EncodeNodeId, WriteI32, AsI32, Le, EncodeU32s, EncodeLocalizedText;
  }

  /** A rank that does not say how many dimensions there are is refused by the writer. */
  lemma InconsistentArgumentIsRefused(a: Argument)
    ensures EncodeArgument(a) == Err(BadDataEncodingInvalid) <==>
            a.valueRank > 0 && (a.arrayDimensions.None? || |a.arrayDimensions.value| != a.valueRank)
  {
  }
}
