/** The payload of every variant type that holds no other variant (lib/src/types/variant.rs, basic_types.rs). */
module Scalars {
  import opened Prelude
  import opened Wire
  import opened UaTypes
  import opened Builtins
  import opened NodeIds
  import opened Records
  import opened DateTimes

  /** Floating point values are their bit patterns. */
  datatype Scalar =
    | Empty
    | Boolean(flag: bool)
    | SByte(sbyte: i8)
    | Byte(byte: u8)
    | Int16(int16: i16)
    | UInt16(uint16: u16)
    | Int32(int32: i32)
    | UInt32(uint32: u32)
    | Int64(int64: i64)
    | UInt64(uint64: u64)
    | Float(float: u32)
    | Double(double: u64)
    | Text(text: UAString)
    | Date(date: DateTime)
    | GuidValue(guid: Guid)
    | Octets(octets: ByteString)
    | XmlElement(xml: UAString)
    | Node(node: NodeId)
    | ExpandedNode(expanded: ExpandedNodeId)
    | StatusCode(code: u32)
    | Qualified(qualified: QualifiedName)
    | Localized(localized: LocalizedText)
    | Extension(extension: ExtensionObject)
    | Diagnostic(diagnostic: DiagnosticInfo)

  /** The type number on the wire; 23 and 24 are the data value and the nested variant. */
  function ScalarType(v: Scalar): (t: u8)
    ensures t <= 25 && t != 23 && t != 24
  {
    match v
    case Empty => 0
    case Boolean(_) => 1
    case SByte(_) => 2
    case Byte(_) => 3
    case Int16(_) => 4
    case UInt16(_) => 5
    case Int32(_) => 6
    case UInt32(_) => 7
    case Int64(_) => 8
    case UInt64(_) => 9
    case Float(_) => 10
    case Double(_) => 11
    case Text(_) => 12
    case Date(_) => 13
    case GuidValue(_) => 14
    case Octets(_) => 15
    case XmlElement(_) => 16
    case Node(_) => 17
    case ExpandedNode(_) => 18
    case StatusCode(_) => 19
    case Qualified(_) => 20
    case Localized(_) => 21
    case Extension(_) => 22
    case Diagnostic(_) => 25
  }

  function EncodeScalar(v: Scalar): bytes {
    match v
    case Empty => []
    case Boolean(b) => WriteU8(if b then 1 else 0)
    case SByte(n) => WriteI8(n)
    case Byte(n) => WriteU8(n)
    case Int16(n) => WriteI16(n)
    case UInt16(n) => WriteU16(n)
    case Int32(n) => WriteI32(n)
    case UInt32(n) => WriteU32(n)
    case Int64(n) => WriteI64(n)
    case UInt64(n) => WriteU64(n)
    case Float(n) => WriteU32(n)
    case Double(n) => WriteU64(n)
    case Text(x) => EncodeString(x)
    case Date(x) => EncodeDateTime(x)
    case GuidValue(x) => x
    case Octets(x) => EncodeByteString(x)
    case XmlElement(x) => EncodeString(x)
    case Node(x) => EncodeNodeId(x)
    case ExpandedNode(x) => EncodeExpanded(x)
    case StatusCode(n) => WriteU32(n)
    case Qualified(x) => EncodeQualifiedName(x)
    case Localized(x) => EncodeLocalizedText(x)
    case Extension(x) => EncodeExtensionObject(x)
    case Diagnostic(x) => EncodeDiagnosticInfo(x)
  }

  function ScalarLength(v: Scalar): nat {
    match v
    case Empty => 0
    case Boolean(_) => 1
    case SByte(_) => 1
    case Byte(_) => 1
    case Int16(_) => 2
    case UInt16(_) => 2
    case Int32(_) => 4
    case UInt32(_) => 4
    case Int64(_) => 8
    case UInt64(_) => 8
    case Float(_) => 4
    case Double(_) => 8
    case Text(x) => StringLength(x)
    case Date(_) => 8
    case GuidValue(_) => 16
    case Octets(x) => ByteStringLength(x)
    case XmlElement(x) => StringLength(x)
    case Node(x) => NodeIdLength(x)
    case ExpandedNode(x) => ExpandedLength(x)
    case StatusCode(_) => 4
    case Qualified(x) => 2 + StringLength(x.name)
    case Localized(x) => LocalizedTextLength(x)
    case Extension(x) => ExtensionObjectLength(x)
    case Diagnostic(x) => DiagnosticInfoLength(x)
  }

  function Map<T, U>(d: Decoded<T>, f: T -> U): Decoded<U> {
    match d
    case Got(v, rest) => Got(f(v), rest)
    case Bad(status) => Bad(status)
  }

  /** `decode_variant_value` for the type numbers other than 23 and 24; an unknown number reads nothing. */
  function DecodeScalar(t: u8, s: bytes, o: Options, depth: nat): (d: Decoded<Scalar>) {
    if t == 1 then Map(ReadU8(s), n => Boolean(n == 1))
    else if t == 2 then Map(ReadI8(s), n => SByte(n))
    else if t == 3 then Map(ReadU8(s), n => Byte(n))
    else if t == 4 then Map(ReadI16(s), n => Int16(n))
    else if t == 5 then Map(ReadU16(s), n => UInt16(n))
    else if t == 6 then Map(ReadI32(s), n => Int32(n))
    else if t == 7 then Map(ReadU32(s), n => UInt32(n))
    else if t == 8 then Map(ReadI64(s), n => Int64(n))
    else if t == 9 then Map(ReadU64(s), n => UInt64(n))
    else if t == 10 then Map(ReadU32(s), n => Float(n))
    else if t == 11 then Map(ReadU64(s), n => Double(n))
    else if t == 12 then Map(DecodeString(s, o), x => Text(x))
    else if t == 13 then Map(DecodeDateTime(s, o), x => Date(x))
    else if t == 14 then Map(DecodeGuid(s), x => GuidValue(x))
    else if t == 15 then Map(DecodeByteString(s, o), x => Octets(x))
    else if t == 16 then Map(DecodeString(s, o), x => XmlElement(x))
    else if t == 17 then Map(DecodeNodeId(s, o), x => Node(x))
    else if t == 18 then Map(DecodeExpanded(s, o), x => ExpandedNode(x))
    else if t == 19 then Map(ReadU32(s), n => StatusCode(n))
    else if t == 20 then Map(DecodeQualifiedName(s, o), x => Qualified(x))
    else if t == 21 then Map(DecodeLocalizedText(s, o), x => Localized(x))
    else if t == 22 then Map(DecodeExtensionObject(s, o, depth), x => Extension(x))
    else if t == 25 then Map(DecodeDiagnosticInfo(s, o), x => Diagnostic(x))
    else Got(Empty, s)
  }

  predicate ScalarFits(v: Scalar, o: Options) {
    match v
    case Text(x) => StringFits(x, o)
    case Octets(x) => ByteStringFits(x, o)
    case XmlElement(x) => StringFits(x, o)
    case Node(x) => NodeIdFits(x, o)
    case ExpandedNode(x) => ExpandedFits(x, o)
    case Qualified(x) => StringFits(x.name, o)
    case Localized(x) => LocalizedTextFits(x, o)
    case Extension(x) => ExtensionObjectFits(x, o)
    case Diagnostic(x) => DiagnosticInfoFits(x, o)
    case _ => true
  }

  /** What a scalar becomes on the way through the codec. */
  function NormalScalar(v: Scalar, o: Options): (n: Scalar)
    ensures ScalarType(n) == ScalarType(v)
  {
    match v
    case Date(x) => Date(NormalDateTime(x, o))
    case Localized(x) => Localized(NormalLocalizedText(x))
    case _ => v
  }

  /** An extension object holds one depth lock while it is read. */
  function ScalarDepth(v: Scalar): nat { if v.Extension? then 1 else 0 }

  lemma NumberRoundTrip(v: Scalar, o: Options, depth: nat, rest: bytes)
    requires ScalarType(v) <= 11 || v.StatusCode?
    ensures DecodeScalar(ScalarType(v), EncodeScalar(v) + rest, o, depth) == Got(v, rest)
  {
    hide WriteI8, WriteI16, WriteI32, WriteI64, WriteU16, WriteU32, WriteU64;
    hide ReadI8, ReadI16, ReadI32, ReadI64, ReadU16, ReadU32, ReadU64, ReadU8;
    match v
    case Empty => assert EncodeScalar(v) + rest == rest;
    case Boolean(b) => ReadU8Written(if b then 1 else 0, rest);
    case SByte(n) => ReadI8Written(n, rest);
    case Byte(n) => ReadU8Written(n, rest);
    case Int16(n) => ReadI16Written(n, rest);
    case UInt16(n) => ReadU16Written(n, rest);
    case Int32(n) => ReadI32Written(n, rest);
    case UInt32(n) => ReadU32Written(n, rest);
    case Int64(n) => ReadI64Written(n, rest);
    case UInt64(n) => ReadU64Written(n, rest);
    case Float(n) => ReadU32Written(n, rest);
    case Double(n) => ReadU64Written(n, rest);
    case StatusCode(n) => ReadU32Written(n, rest);
  }

  lemma NumberWidths()
    ensures forall n: i8 :: |WriteI8(n)| == 1
    ensures forall n: i16 :: |WriteI16(n)| == 2
    ensures forall n: u16 :: |WriteU16(n)| == 2
    ensures forall n: i32 :: |WriteI32(n)| == 4
    ensures forall n: u32 :: |WriteU32(n)| == 4
    ensures forall n: i64 :: |WriteI64(n)| == 8
    ensures forall n: u64 :: |WriteU64(n)| == 8
  {
  }

  /** Within the limits, a scalar comes back in normal form exactly when the depth gauge admits it. */
  lemma ScalarRoundTrip(v: Scalar, o: Options, depth: nat, rest: bytes)
    requires ScalarFits(v, o) && depth <= o.maxDepth
    ensures DecodeScalar(ScalarType(v), EncodeScalar(v) + rest, o, depth) ==
            if depth + ScalarDepth(v) <= o.maxDepth then Got(NormalScalar(v, o), rest) else Bad(BadDecodingError)
  {
    hide EncodeString, DecodeString, EncodeByteString, DecodeByteString, EncodeNodeId, DecodeNodeId;
    hide EncodeExpanded, DecodeExpanded, EncodeQualifiedName, DecodeQualifiedName, EncodeDateTime, DecodeDateTime;
    hide EncodeLocalizedText, DecodeLocalizedText, EncodeExtensionObject, DecodeExtensionObject;
    hide EncodeDiagnosticInfo, DecodeDiagnosticInfo, DiagnosticInfoLength, ExtensionObjectLength;
    match v
    case Text(x) => StringRoundTrip(x, o, rest);
    case Date(x) => DateTimeRoundTrip(x, o, rest);
    case GuidValue(x) => TakeWritten(x, rest);
    case Octets(x) => ByteStringRoundTrip(x, o, rest);
    case XmlElement(x) => StringRoundTrip(x, o, rest);
    case Node(x) => NodeIdRoundTrip(x, o, rest);
    case ExpandedNode(x) => ExpandedRoundTrip(x, o, rest);
    case Qualified(x) => QualifiedNameRoundTrip(x, o, rest);
    case Localized(x) => LocalizedTextRoundTrip(x, o, rest);
    case Extension(x) => ExtensionObjectRoundTrip(x, o, depth, rest);
    case Diagnostic(x) => DiagnosticInfoRoundTrip(x, o, rest);
    case _ => NumberRoundTrip(v, o, depth, rest);
  }

  lemma ScalarLengthExact(v: Scalar)
    ensures |EncodeScalar(v)| == ScalarLength(v)
  {
    match v
    case Text(x) => StringLengthExact(x);
    case Octets(x) => ByteStringLengthExact(x);
    case XmlElement(x) => StringLengthExact(x);
    case Node(x) => NodeIdLengthExact(x);
    case ExpandedNode(x) => ExpandedLengthExact(x);
    case Qualified(x) => QualifiedNameLengthExact(x);
    case Localized(x) => LocalizedTextLengthExact(x);
    case Extension(x) => ExtensionObjectLengthExact(x);
    case Diagnostic(x) => DiagnosticInfoLengthExact(x);
    case _ => NumberWidths();
  }

  lemma QualifiedNameLengthExact(v: QualifiedName)
    ensures |EncodeQualifiedName(v)| == 2 + StringLength(v.name)
  {
  }

  lemma ScalarExtends(t: u8, s: bytes, o: Options, depth: nat, more: bytes)
    ensures Stable(DecodeScalar(t, s, o, depth), DecodeScalar(t, s + more, o, depth), more)
  {
    hide DecodeString, DecodeByteString, DecodeNodeId, DecodeExpanded, DecodeQualifiedName;
    hide DecodeLocalizedText, DecodeExtensionObject, DecodeDiagnosticInfo;
    if t == 12 || t == 16 {
      StringExtends(s, o, more);
    } else if t == 15 {
      ByteStringExtends(s, o, more);
    } else if t == 17 {
      NodeIdExtends(s, o, more);
    } else if t == 18 {
      ExpandedExtends(s, o, more);
    } else if t == 20 {
      QualifiedNameExtends(s, o, more);
    } else if t == 21 {
      LocalizedTextExtends(s, o, more);
    } else if t == 22 {
      ExtensionObjectExtends(s, o, depth, more);
    } else if t == 25 {
      DiagnosticInfoExtends(s, o, more);
    } else {
      if |s| >= 1 { TakeExtends(s, 1, more); }
      if |s| >= 2 { TakeExtends(s, 2, more); }
      if |s| >= 4 { TakeExtends(s, 4, more); }
      if |s| >= 8 { TakeExtends(s, 8, more); }
      if |s| >= 16 { TakeExtends(s, 16, more); }
    }
  }

  /** What is read is of the requested type, leaves a suffix, fits the limits and would not encode longer. */
  lemma DecodedScalar(t: u8, s: bytes, o: Options, depth: nat)
    requires DecodeScalar(t, s, o, depth).Got?
    ensures var d := DecodeScalar(t, s, o, depth);
            && ScalarLength(d.value) <= Taken(s, d) && ScalarFits(d.value, o)
            && (t <= 25 && t != 23 && t != 24 ==> ScalarType(d.value) == t)
            && (d.value.Extension? ==> depth < o.maxDepth)
  {
    hide DecodeString, DecodeByteString, DecodeNodeId, DecodeExpanded, DecodeQualifiedName;
    hide DecodeLocalizedText, DecodeDiagnosticInfo;
    hide ReadI8, ReadI16, ReadI32, ReadI64, ReadU16, ReadU32, ReadU64;
    hide StringLength, ByteStringLength, NodeIdLength, ExpandedLength, LocalizedTextLength, DiagnosticInfoLength;
    hide StringFits, ByteStringFits, NodeIdFits, ExpandedFits, LocalizedTextFits, DiagnosticInfoFits;
    hide ExtensionObjectLength, ExtensionObjectFits;
  }
}
