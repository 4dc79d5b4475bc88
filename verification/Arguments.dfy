/** Method arguments, whose codec is exact only for some values (lib/src/types/argument.rs). */
module Arguments {
  import opened Prelude
  import opened Wire
  import opened UaTypes
  import opened Builtins
  import opened NodeIds
  import opened Records
  import opened Variants
  import VariantLaws

  datatype Argument = Argument(
    name: UAString,
    dataType: NodeId,
    valueRank: i32,
    arrayDimensions: Option<seq<u32>>,
    description: LocalizedText)

  /** A positive rank must be the number of dimensions. */
  predicate Consistent(a: Argument) {
    a.valueRank > 0 ==> a.arrayDimensions.Some? && |a.arrayDimensions.value| == a.valueRank
  }

  /** Without a positive rank an empty array is written, whatever the dimensions. */
  function WrittenDimensions(a: Argument): seq<u32>
    requires Consistent(a)
  {
    if a.valueRank > 0 then a.arrayDimensions.value else []
  }

  function EncodeArgument(a: Argument): Result<bytes> {
    if !Consistent(a) then Err(BadDataEncodingInvalid)
    else
      Ok(EncodeString(a.name) + EncodeNodeId(a.dataType) + WriteI32(a.valueRank)
         + EncodeDimensions(WrittenDimensions(a)) + EncodeLocalizedText(a.description))
  }

  /** `byte_len` */
  function ArgumentLength(a: Argument): nat {
    StringLength(a.name) + NodeIdLength(a.dataType) + 4
    + (4 + if a.arrayDimensions.None? then 0 else 4 * |a.arrayDimensions.value|) + LocalizedTextLength(a.description)
  }

  function DecodeArgument(s: bytes, o: Options): Decoded<Argument> {
    var (name, s) :- DecodeString(s, o);
    var (dataType, s) :- DecodeNodeId(s, o);
    var (valueRank, s) :- ReadI32(s);
    var (arrayDimensions, s) :- DecodeDimensions(s, o);
    if arrayDimensions.Some? && valueRank > 0 && |arrayDimensions.value| != valueRank then Bad(BadDataEncodingInvalid)
    else
      var (description, s) :- DecodeLocalizedText(s, o);
      Got(Argument(name, dataType, valueRank, arrayDimensions, description), s)
  }

  predicate ArgumentFits(a: Argument, o: Options) {
    && StringFits(a.name, o) && NodeIdFits(a.dataType, o) && LocalizedTextFits(a.description, o)
    && (a.valueRank > 0 ==> a.valueRank <= o.maxArrayLength)
  }

  lemma DimensionsLength(ns: seq<u32>)
    ensures |EncodeDimensions(ns)| == 4 + 4 * |ns|
  {
    VariantLaws.LengthPrefix(|ns|);
    VariantLaws.U32sRoundTrip(ns, []);
  }

  /** `byte_len` is the number of bytes written exactly when the rank is positive or there are no dimensions to lose. */
  lemma ArgumentLengthIff(a: Argument)
    requires Consistent(a)
    ensures |EncodeArgument(a).value| == ArgumentLength(a) <==>
            a.valueRank > 0 || a.arrayDimensions.None? || a.arrayDimensions.value == []
  {
    hide EncodeString, EncodeNodeId, EncodeDimensions, EncodeLocalizedText, NodeIdLength, StringLength, LocalizedTextLength;
    StringLengthExact(a.name);
    NodeIdLengthExact(a.dataType);
    LocalizedTextLengthExact(a.description);
    DimensionsLength(WrittenDimensions(a));
  }

  /** A scalar argument with one dimension: four bytes fewer are written than announced. */
  lemma RankZeroExample()
    ensures
      var a := Argument(UAString.Null, NodeId(0, Numeric(1)), 0, Some([5]), LocalizedText(UAString.Null, UAString.Null));
      EncodeArgument(a).Ok? && |EncodeArgument(a).value| + 4 == ArgumentLength(a)
  {
    var a := Argument(UAString.Null, NodeId(0, Numeric(1)), 0, Some([5]), LocalizedText(UAString.Null, UAString.Null));
    hide EncodeString, EncodeNodeId, EncodeDimensions, EncodeLocalizedText, NodeIdLength, StringLength, LocalizedTextLength;
    StringLengthExact(a.name);
    NodeIdLengthExact(a.dataType);
    LocalizedTextLengthExact(a.description);
    DimensionsLength([]);
  }

  lemma Regroup(a: bytes, b: bytes, c: bytes, d: bytes, e: bytes, rest: bytes)
    ensures a + b + c + d + e + rest == a + (b + (c + (d + (e + rest))))
  {
  }

  /** An argument comes back with its text in normal form and the dimensions that were written. */
  lemma ArgumentDecodes(a: Argument, o: Options, rest: bytes)
    requires Consistent(a) && ArgumentFits(a, o)
    ensures DecodeArgument(EncodeArgument(a).value + rest, o) ==
            Got(a.(arrayDimensions := Some(WrittenDimensions(a)), description := NormalLocalizedText(a.description)), rest)
  {
    hide EncodeString, DecodeString, EncodeNodeId, DecodeNodeId, WriteI32, ReadI32, EncodeDimensions, DecodeDimensions;
    hide EncodeLocalizedText, DecodeLocalizedText, NormalLocalizedText, StringFits, NodeIdFits, LocalizedTextFits;
    var dimensions := WrittenDimensions(a);
    var s4 := EncodeLocalizedText(a.description) + rest;
    var s3 := EncodeDimensions(dimensions) + s4;
    var s2 := WriteI32(a.valueRank) + s3;
    var s1 := EncodeNodeId(a.dataType) + s2;
    Regroup(EncodeString(a.name), EncodeNodeId(a.dataType), WriteI32(a.valueRank), EncodeDimensions(dimensions),
            EncodeLocalizedText(a.description), rest);
    StringRoundTrip(a.name, o, s1);
    NodeIdRoundTrip(a.dataType, o, s2);
    ReadI32Written(a.valueRank, s3);
    VariantLaws.DimensionsRoundTrip(dimensions, o, s4);
    LocalizedTextRoundTrip(a.description, o, rest);
  }

  /** It comes back unchanged exactly when its rank is positive or its dimensions are an empty array, and its text is in
      normal form. */
  lemma ArgumentRoundTripIff(a: Argument, o: Options, rest: bytes)
    requires Consistent(a) && ArgumentFits(a, o)
    ensures DecodeArgument(EncodeArgument(a).value + rest, o) == Got(a, rest) <==>
            (a.valueRank > 0 || a.arrayDimensions == Some([])) && NormalLocalizedText(a.description) == a.description
  {
    hide EncodeArgument, DecodeArgument, NormalLocalizedText, ArgumentFits;
    ArgumentDecodes(a, o, rest);
  }
}
