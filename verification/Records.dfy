/** Masked and recursive built-in records: qualified names, localized text, extension objects and diagnostic info
    (lib/src/types/{qualified_name,localized_text,extension_object,diagnostic_info}.rs;
    OPC UA Part 6, sections 5.2.2.12 to 5.2.2.15). */
module Records {
  import opened Prelude
  import opened Wire
  import opened UaTypes
  import opened Builtins
  import opened NodeIds

  // ---------------------------------------------------------------- qualified names

  function EncodeQualifiedName(v: QualifiedName): bytes { WriteU16(v.ns) + EncodeString(v.name) }

  function DecodeQualifiedName(s: bytes, o: Options): (d: Decoded<QualifiedName>)
    ensures d.Got? ==> Taken(s, d) == 2 + StringLength(d.value.name) && StringFits(d.value.name, o)
  {
    var (ns, s) :- ReadU16(s);
    var (name, s) :- DecodeString(s, o);
    Got(QualifiedName(ns, name), s)
  }

  lemma QualifiedNameRoundTrip(v: QualifiedName, o: Options, rest: bytes)
    requires StringFits(v.name, o)
    ensures DecodeQualifiedName(EncodeQualifiedName(v) + rest, o) == Got(v, rest)
  {
    hide WriteU16, ReadU16, EncodeString, DecodeString;
    assert EncodeQualifiedName(v) + rest == WriteU16(v.ns) + (EncodeString(v.name) + rest);
    ReadU16Written(v.ns, EncodeString(v.name) + rest);
    StringRoundTrip(v.name, o, rest);
  }

  lemma QualifiedNameExtends(s: bytes, o: Options, more: bytes)
    ensures Stable(DecodeQualifiedName(s, o), DecodeQualifiedName(s + more, o), more)
  {
    if DecodeQualifiedName(s, o).Got? {
      TakeExtends(s, 2, more);
      StringExtends(s[2..], o, more);
    }
  }

  // ---------------------------------------------------------------- localized text

  datatype LocalizedText = LocalizedText(locale: UAString, text: UAString)

  /** The part is on the wire only when it has characters. */
  function EncodeIfAny(v: UAString): bytes { if v.IsEmpty() then [] else EncodeString(v) }

  function LocalizedTextBits(v: LocalizedText): seq<bool> { [!v.locale.IsEmpty(), !v.text.IsEmpty()] }

  function EncodeLocalizedText(v: LocalizedText): bytes {
    MaskIsByte(LocalizedTextBits(v));
    [Mask(LocalizedTextBits(v))] + EncodeIfAny(v.locale) + EncodeIfAny(v.text)
  }

  function LocalizedTextLength(v: LocalizedText): nat {
    1 + (if v.locale.IsEmpty() then 0 else StringLength(v.locale)) + (if v.text.IsEmpty() then 0 else StringLength(v.text))
  }

  function DecodeLocalizedText(s: bytes, o: Options): (d: Decoded<LocalizedText>)
    ensures d.Got? ==> LocalizedTextLength(d.value) <= Taken(s, d) && LocalizedTextFits(d.value, o)
  {
    var (mask, s) :- ReadU8(s);
    var (locale, s) :- DecodeUri(HasBit(mask, 0), s, o);
    var (text, s) :- DecodeUri(HasBit(mask, 1), s, o);
    Got(LocalizedText(locale, text), s)
  }

  predicate LocalizedTextFits(v: LocalizedText, o: Options) { StringFits(v.locale, o) && StringFits(v.text, o) }

  /** Empty parts come back as null. */
  function NormalText(v: UAString): UAString { if v.IsEmpty() then Null else v }

  function NormalLocalizedText(v: LocalizedText): LocalizedText {
    LocalizedText(NormalText(v.locale), NormalText(v.text))
  }

  lemma IfAnyRoundTrip(v: UAString, o: Options, rest: bytes)
    requires StringFits(v, o)
    ensures DecodeUri(!v.IsEmpty(), EncodeIfAny(v) + rest, o) == Got(NormalText(v), rest)
  {
    if v.IsEmpty() {
      assert EncodeIfAny(v) + rest == rest;
    } else {
      StringRoundTrip(v, o, rest);
    }
  }

  lemma LocalizedTextRoundTrip(v: LocalizedText, o: Options, rest: bytes)
    requires LocalizedTextFits(v, o)
    ensures DecodeLocalizedText(EncodeLocalizedText(v) + rest, o) == Got(NormalLocalizedText(v), rest)
  {
    hide EncodeIfAny, DecodeUri, Mask, HasBit, NormalText, UAString.IsEmpty;
    var bits := LocalizedTextBits(v);
    var locale, text := EncodeIfAny(v.locale), EncodeIfAny(v.text);
    MaskIsByte(bits);
    assert EncodeLocalizedText(v) + rest == WriteU8(Mask(bits)) + (locale + (text + rest));
    ReadU8Written(Mask(bits), locale + (text + rest));
    BitOfMask(bits, 0);
    BitOfMask(bits, 1);
    IfAnyRoundTrip(v.locale, o, text + rest);
    IfAnyRoundTrip(v.text, o, rest);
  }

  lemma LocalizedTextLengthExact(v: LocalizedText)
    ensures |EncodeLocalizedText(v)| == LocalizedTextLength(v)
  {
  }

  lemma UriExtends(present: bool, s: bytes, o: Options, more: bytes)
    ensures Stable(DecodeUri(present, s, o), DecodeUri(present, s + more, o), more)
  {
    StringExtends(s, o, more);
  }

  lemma LocalizedTextExtends(s: bytes, o: Options, more: bytes)
    ensures Stable(DecodeLocalizedText(s, o), DecodeLocalizedText(s + more, o), more)
  {
    hide DecodeUri, HasBit;
    if DecodeLocalizedText(s, o).Got? {
      TakeExtends(s, 1, more);
      UriExtends(HasBit(s[0], 0), s[1..], o, more);
      UriExtends(HasBit(s[0], 1), DecodeUri(HasBit(s[0], 0), s[1..], o).rest, o, more);
    }
  }

  // ---------------------------------------------------------------- extension objects

  datatype ExtensionBody = NoBody | Binary(data: ByteString) | Xml(element: UAString)

  datatype ExtensionObject = ExtensionObject(nodeId: NodeId, body: ExtensionBody)

  function EncodeExtensionObject(v: ExtensionObject): bytes {
    EncodeNodeId(v.nodeId) +
    match v.body
    case NoBody => [0]
    case Binary(data) => [1] + EncodeByteString(data)
    case Xml(element) => [2] + EncodeString(element)
  }

  function ExtensionObjectLength(v: ExtensionObject): nat {
    NodeIdLength(v.nodeId) +
    match v.body
    case NoBody => 1
    case Binary(data) => 1 + ByteStringLength(data)
    case Xml(element) => 1 + StringLength(element)
  }

  /** Takes a depth lock for its duration: refused once `depth` locks are as many as the gauge allows. */
  function DecodeExtensionObject(s: bytes, o: Options, depth: nat): (d: Decoded<ExtensionObject>)
    ensures d.Got? ==> ExtensionObjectLength(d.value) <= Taken(s, d) && ExtensionObjectFits(d.value, o)
  {
    if depth >= o.maxDepth then Bad(BadDecodingError)
    else
      var (nodeId, s) :- DecodeNodeId(s, o);
      var (kind, s) :- ReadU8(s);
      if kind == 0 then Got(ExtensionObject(nodeId, NoBody), s)
      else if kind == 1 then
        var (data, s) :- DecodeByteString(s, o);
        Got(ExtensionObject(nodeId, Binary(data)), s)
      else if kind == 2 then
        var (element, s) :- DecodeString(s, o);
        Got(ExtensionObject(nodeId, Xml(element)), s)
      else Bad(BadDecodingError)
  }

  predicate ExtensionObjectFits(v: ExtensionObject, o: Options) {
    && NodeIdFits(v.nodeId, o)
    && match v.body
       case NoBody => true
       case Binary(data) => ByteStringFits(data, o)
       case Xml(element) => StringFits(element, o)
  }

  /** Within the limits, an extension object comes back exactly when a depth lock is still free. */
  lemma ExtensionObjectRoundTrip(v: ExtensionObject, o: Options, depth: nat, rest: bytes)
    requires ExtensionObjectFits(v, o)
    ensures DecodeExtensionObject(EncodeExtensionObject(v) + rest, o, depth) ==
            if depth < o.maxDepth then Got(v, rest) else Bad(BadDecodingError)
  {
    hide EncodeNodeId, DecodeNodeId, EncodeString, DecodeString, EncodeByteString, DecodeByteString;
    var id := EncodeNodeId(v.nodeId);
    match v.body
    case NoBody =>
      assert EncodeExtensionObject(v) + rest == id + (WriteU8(0) + rest);
      NodeIdRoundTrip(v.nodeId, o, WriteU8(0) + rest);
      ReadU8Written(0, rest);
    case Binary(data) =>
      var b := EncodeByteString(data);
      assert EncodeExtensionObject(v) + rest == id + (WriteU8(1) + (b + rest));
      NodeIdRoundTrip(v.nodeId, o, WriteU8(1) + (b + rest));
      ReadU8Written(1, b + rest);
      ByteStringRoundTrip(data, o, rest);
    case Xml(element) =>
      var b := EncodeString(element);
      assert EncodeExtensionObject(v) + rest == id + (WriteU8(2) + (b + rest));
      NodeIdRoundTrip(v.nodeId, o, WriteU8(2) + (b + rest));
      ReadU8Written(2, b + rest);
      StringRoundTrip(element, o, rest);
  }

  lemma ExtensionObjectLengthExact(v: ExtensionObject)
    ensures |EncodeExtensionObject(v)| == ExtensionObjectLength(v)
  {
    NodeIdLengthExact(v.nodeId);
  }

  lemma ByteStringLengthExact(v: ByteString)
    ensures |EncodeByteString(v)| == ByteStringLength(v)
  {
  }

  lemma StringLengthExact(v: UAString)
    ensures |EncodeString(v)| == StringLength(v)
  {
  }

  lemma ExtensionObjectExtends(s: bytes, o: Options, depth: nat, more: bytes)
    ensures Stable(DecodeExtensionObject(s, o, depth), DecodeExtensionObject(s + more, o, depth), more)
  {
    hide DecodeNodeId, DecodeString, DecodeByteString;
    if DecodeExtensionObject(s, o, depth).Got? {
      NodeIdExtends(s, o, more);
      var s1 := DecodeNodeId(s, o).rest;
      TakeExtends(s1, 1, more);
      StringExtends(s1[1..], o, more);
      ByteStringExtends(s1[1..], o, more);
    }
  }

  // ---------------------------------------------------------------- diagnostic info

  datatype DiagnosticInfo = DiagnosticInfo(
    symbolicId: Option<i32>,
    namespaceUri: Option<i32>,
    locale: Option<i32>,
    localizedText: Option<i32>,
    additionalInfo: Option<UAString>,
    innerStatusCode: Option<u32>,
    inner: Option<DiagnosticInfo>)

  function OptionalI32(v: Option<i32>): bytes { if v.None? then [] else WriteI32(v.value) }

  function OptionalU32(v: Option<u32>): bytes { if v.None? then [] else WriteU32(v.value) }

  function OptionalString(v: Option<UAString>): bytes { if v.None? then [] else EncodeString(v.value) }

  function DecodeOptionalI32(present: bool, s: bytes): (d: Decoded<Option<i32>>)
    ensures d.Got? ==> Taken(s, d) == (if present then 4 else 0) && d.value.Some? == present
  {
    if !present then Got(None, s)
    else
      var (v, s) :- ReadI32(s);
      Got(Some(v), s)
  }

  function DecodeOptionalU32(present: bool, s: bytes): (d: Decoded<Option<u32>>)
    ensures d.Got? ==> Taken(s, d) == (if present then 4 else 0) && d.value.Some? == present
  {
    if !present then Got(None, s)
    else
      var (v, s) :- ReadU32(s);
      Got(Some(v), s)
  }

  function DecodeOptionalString(present: bool, s: bytes, o: Options): (d: Decoded<Option<UAString>>)
    ensures d.Got? ==> d.value.Some? == present
    ensures d.Got? ==> Taken(s, d) == if present then StringLength(d.value.value) else 0
    ensures d.Got? && present ==> StringFits(d.value.value, o)
  {
    if !present then Got(None, s)
    else
      var (v, s) :- DecodeString(s, o);
      Got(Some(v), s)
  }

  /** Bits in the order of the mask, which is not the order of the fields. */
  function DiagnosticBits(v: DiagnosticInfo): seq<bool> {
    [v.symbolicId.Some?, v.namespaceUri.Some?, v.localizedText.Some?, v.locale.Some?,
     v.additionalInfo.Some?, v.innerStatusCode.Some?, v.inner.Some?]
  }

  function EncodeDiagnosticInfo(v: DiagnosticInfo): bytes {
    MaskIsByte(DiagnosticBits(v));
    [Mask(DiagnosticBits(v))] + EncodeDiagnosticFields(v)
    + (if v.inner.None? then [] else EncodeDiagnosticInfo(v.inner.value))
  }

  function EncodeDiagnosticFields(v: DiagnosticInfo): bytes {
    OptionalI32(v.symbolicId) + OptionalI32(v.namespaceUri) + OptionalI32(v.locale) + OptionalI32(v.localizedText)
    + OptionalString(v.additionalInfo) + OptionalU32(v.innerStatusCode)
  }

  function DiagnosticFieldsLength(v: DiagnosticInfo): nat {
    (if v.symbolicId.Some? then 4 else 0) + (if v.namespaceUri.Some? then 4 else 0)
    + (if v.locale.Some? then 4 else 0) + (if v.localizedText.Some? then 4 else 0)
    + (if v.additionalInfo.Some? then StringLength(v.additionalInfo.value) else 0)
    + (if v.innerStatusCode.Some? then 4 else 0)
  }

  function DiagnosticInfoLength(v: DiagnosticInfo): nat {
    1 + DiagnosticFieldsLength(v) + (if v.inner.None? then 0 else DiagnosticInfoLength(v.inner.value))
  }

  /** The fields before the inner diagnostic info. */
  function DecodeDiagnosticFields(mask: nat, s: bytes, o: Options): (d: Decoded<DiagnosticInfo>)
    ensures d.Got? ==> d.value.inner.None?
    ensures d.Got? ==> Taken(s, d) == DiagnosticFieldsLength(d.value)
    ensures d.Got? && d.value.additionalInfo.Some? ==> StringFits(d.value.additionalInfo.value, o)
  {
    var (symbolicId, s) :- DecodeOptionalI32(HasBit(mask, 0), s);
    var (namespaceUri, s) :- DecodeOptionalI32(HasBit(mask, 1), s);
    var (locale, s) :- DecodeOptionalI32(HasBit(mask, 3), s);
    var (localizedText, s) :- DecodeOptionalI32(HasBit(mask, 2), s);
    var (additionalInfo, s) :- DecodeOptionalString(HasBit(mask, 4), s, o);
    var (innerStatusCode, s) :- DecodeOptionalU32(HasBit(mask, 5), s);
    Got(DiagnosticInfo(symbolicId, namespaceUri, locale, localizedText, additionalInfo, innerStatusCode, None), s)
  }

  /** Terminates because every level takes at least its mask byte. */
  function DecodeDiagnosticInfo(s: bytes, o: Options): (d: Decoded<DiagnosticInfo>)
    ensures d.Got? ==> Taken(s, d) == DiagnosticInfoLength(d.value) && DiagnosticInfoFits(d.value, o)
    decreases |s|
  {
    var (mask, s) :- ReadU8(s);
    var (fields, s) :- DecodeDiagnosticFields(mask, s, o);
    if HasBit(mask, 6) then
      var (inner, s) :- DecodeDiagnosticInfo(s, o);
      Got(fields.(inner := Some(inner)), s)
    else Got(fields, s)
  }

  predicate DiagnosticInfoFits(v: DiagnosticInfo, o: Options) {
    && (v.additionalInfo.Some? ==> StringFits(v.additionalInfo.value, o))
    && (v.inner.Some? ==> DiagnosticInfoFits(v.inner.value, o))
  }

  lemma OptionalI32RoundTrip(v: Option<i32>, rest: bytes)
    ensures DecodeOptionalI32(v.Some?, OptionalI32(v) + rest) == Got(v, rest)
  {
    if v.None? { assert OptionalI32(v) + rest == rest; } else { ReadI32Written(v.value, rest); }
  }

  lemma OptionalU32RoundTrip(v: Option<u32>, rest: bytes)
    ensures DecodeOptionalU32(v.Some?, OptionalU32(v) + rest) == Got(v, rest)
  {
    if v.None? { assert OptionalU32(v) + rest == rest; } else { ReadU32Written(v.value, rest); }
  }

  lemma OptionalStringRoundTrip(v: Option<UAString>, o: Options, rest: bytes)
    requires v.Some? ==> StringFits(v.value, o)
    ensures DecodeOptionalString(v.Some?, OptionalString(v) + rest, o) == Got(v, rest)
  {
    if v.None? { assert OptionalString(v) + rest == rest; } else { StringRoundTrip(v.value, o, rest); }
  }

  lemma Regroup(a: bytes, b: bytes, c: bytes, d: bytes, e: bytes, f: bytes, rest: bytes)
    ensures a + b + c + d + e + f + rest == a + (b + (c + (d + (e + (f + rest)))))
  {
    assert a + b + c + d + e + f + rest == a + b + c + (d + (e + (f + rest)));
  }

  lemma DiagnosticFieldsRoundTrip(v: DiagnosticInfo, o: Options, rest: bytes)
    requires DiagnosticInfoFits(v, o)
    ensures DecodeDiagnosticFields(Mask(DiagnosticBits(v)), EncodeDiagnosticFields(v) + rest, o) ==
            Got(v.(inner := None), rest)
  {
    hide Mask, HasBit, OptionalI32, OptionalU32, OptionalString;
    hide DecodeOptionalI32, DecodeOptionalU32, DecodeOptionalString;
    var bits := DiagnosticBits(v);
    MaskIsByte(bits);
    BitOfMask(bits, 0);
    BitOfMask(bits, 1);
    BitOfMask(bits, 2);
    BitOfMask(bits, 3);
    BitOfMask(bits, 4);
    BitOfMask(bits, 5);
    var s6 := OptionalU32(v.innerStatusCode) + rest;
    var s5 := OptionalString(v.additionalInfo) + s6;
    var s4 := OptionalI32(v.localizedText) + s5;
    var s3 := OptionalI32(v.locale) + s4;
    var s2 := OptionalI32(v.namespaceUri) + s3;
    assert EncodeDiagnosticFields(v) + rest == OptionalI32(v.symbolicId) + s2 by {
      Regroup(OptionalI32(v.symbolicId), OptionalI32(v.namespaceUri), OptionalI32(v.locale),
              OptionalI32(v.localizedText), OptionalString(v.additionalInfo), OptionalU32(v.innerStatusCode), rest);
    }
    OptionalI32RoundTrip(v.symbolicId, s2);
    OptionalI32RoundTrip(v.namespaceUri, s3);
    OptionalI32RoundTrip(v.locale, s4);
    OptionalI32RoundTrip(v.localizedText, s5);
    OptionalStringRoundTrip(v.additionalInfo, o, s6);
    OptionalU32RoundTrip(v.innerStatusCode, rest);
  }

  /** Every diagnostic info, however deeply nested, comes back unchanged. */
  lemma {:induction false} DiagnosticInfoRoundTrip(v: DiagnosticInfo, o: Options, rest: bytes)
    requires DiagnosticInfoFits(v, o)
    ensures DecodeDiagnosticInfo(EncodeDiagnosticInfo(v) + rest, o) == Got(v, rest)
  {
    hide Mask, HasBit, EncodeDiagnosticFields, DecodeDiagnosticFields, ReadU8, StringFits;
    var bits := DiagnosticBits(v);
    var fields := EncodeDiagnosticFields(v);
    var inner := if v.inner.None? then [] else EncodeDiagnosticInfo(v.inner.value);
    MaskIsByte(bits);
    BitOfMask(bits, 6);
    assert EncodeDiagnosticInfo(v) + rest == WriteU8(Mask(bits)) + (fields + (inner + rest));
    ReadU8Written(Mask(bits), fields + (inner + rest));
    DiagnosticFieldsRoundTrip(v, o, inner + rest);
    if v.inner.None? {
      assert inner + rest == rest;
    } else {
      DiagnosticInfoRoundTrip(v.inner.value, o, rest);
    }
  }

  lemma DiagnosticFieldsLengthExact(v: DiagnosticInfo)
    ensures |EncodeDiagnosticFields(v)| == DiagnosticFieldsLength(v)
  {
  }

  lemma {:induction false} DiagnosticInfoLengthExact(v: DiagnosticInfo)
    ensures |EncodeDiagnosticInfo(v)| == DiagnosticInfoLength(v)
  {
    DiagnosticFieldsLengthExact(v);
    if v.inner.Some? { DiagnosticInfoLengthExact(v.inner.value); }
  }

  lemma OptionalI32Extends(present: bool, s: bytes, more: bytes)
    ensures Stable(DecodeOptionalI32(present, s), DecodeOptionalI32(present, s + more), more)
  {
    if present && |s| >= 4 { TakeExtends(s, 4, more); }
  }

  lemma OptionalU32Extends(present: bool, s: bytes, more: bytes)
    ensures Stable(DecodeOptionalU32(present, s), DecodeOptionalU32(present, s + more), more)
  {
    if present && |s| >= 4 { TakeExtends(s, 4, more); }
  }

  lemma OptionalStringExtends(present: bool, s: bytes, o: Options, more: bytes)
    ensures Stable(DecodeOptionalString(present, s, o), DecodeOptionalString(present, s + more, o), more)
  {
    StringExtends(s, o, more);
  }

  lemma DiagnosticFieldsExtends(mask: u8, s: bytes, o: Options, more: bytes)
    ensures Stable(DecodeDiagnosticFields(mask, s, o), DecodeDiagnosticFields(mask, s + more, o), more)
  {
    hide HasBit, DecodeOptionalI32, DecodeOptionalU32, DecodeOptionalString;
    if DecodeDiagnosticFields(mask, s, o).Got? {
      OptionalI32Extends(HasBit(mask, 0), s, more);
      var s1 := DecodeOptionalI32(HasBit(mask, 0), s).rest;
      OptionalI32Extends(HasBit(mask, 1), s1, more);
      var s2 := DecodeOptionalI32(HasBit(mask, 1), s1).rest;
      OptionalI32Extends(HasBit(mask, 3), s2, more);
      var s3 := DecodeOptionalI32(HasBit(mask, 3), s2).rest;
      OptionalI32Extends(HasBit(mask, 2), s3, more);
      var s4 := DecodeOptionalI32(HasBit(mask, 2), s3).rest;
      OptionalStringExtends(HasBit(mask, 4), s4, o, more);
      OptionalU32Extends(HasBit(mask, 5), DecodeOptionalString(HasBit(mask, 4), s4, o).rest, more);
    }
  }

  lemma {:induction false} DiagnosticInfoExtends(s: bytes, o: Options, more: bytes)
    ensures Stable(DecodeDiagnosticInfo(s, o), DecodeDiagnosticInfo(s + more, o), more)
    decreases |s|
  {
    hide HasBit, DecodeDiagnosticFields;
    if DecodeDiagnosticInfo(s, o).Got? {
      TakeExtends(s, 1, more);
      DiagnosticFieldsExtends(s[0], s[1..], o, more);
      if HasBit(s[0], 6) {
        DiagnosticInfoExtends(DecodeDiagnosticFields(s[0], s[1..], o).rest, o, more);
      }
    }
  }
}
