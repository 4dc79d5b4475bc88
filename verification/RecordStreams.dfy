/** The codecs of strings, arrays, node ids and records as they run on streams
    (lib/src/types/{encoding,string,byte_string,node_id,expanded_node_id,localized_text,diagnostic_info,
    response_header}.rs). */
module RecordStreams {
  import opened Prelude
  import opened Wire
  import opened UaTypes
  import opened Builtins
  import Utf8
  import opened NodeIds
  import opened Records
  import opened DateTimes
  import opened ResponseHeaders
  import opened CodecStreams
  import VariantLaws

  // ---------------------------------------------------------------- strings

  /** `UAString::encode`, with its assertion. */
  method WriteString(w: Writer, v: UAString) returns (size: nat)
    modifies w
    ensures w.written == old(w.written) + EncodeString(v) && size == StringLength(v)
  {
    if v.Null? {
      VariantLaws.LengthPrefix(0);
      size := w.Put(WriteI32(-1));
      NullPrefix();
    } else {
      var buffer := Utf8.Encode(v.text);
      VariantLaws.LengthPrefix(|buffer|);
      var head := w.Put(WriteI32(AsI32(|buffer|)));
      var tail := w.Put(buffer);
      size := head + tail;
      assert size == StringLength(v);
    }
  }

  lemma NullPrefix()
    ensures |WriteI32(-1)| == 4
  {
  }

  /** `UAString::decode` */
  method ReadString(r: Reader, o: Options) returns (out: Result<UAString>)
    modifies r
    ensures Follows(out, r.rest, DecodeString(old(r.rest), o))
  {
    hide ReadI32, Utf8.Decode;
    var len :- r.Accept(ReadI32(r.rest));
    if len == -1 { return Ok(Null); }
    if len < -1 { return Err(BadDecodingError); }
    if len > o.maxStringLength { return Err(BadDecodingError); }
    var buffer :- r.Accept(Take(r.rest, len));
    var text := Utf8.Decode(buffer);
    if text.None? { return Err(BadDecodingError); }
    out := Ok(Str(text.value));
  }

  method WriteByteString(w: Writer, v: ByteString) returns (size: nat)
    modifies w
    ensures w.written == old(w.written) + EncodeByteString(v) && size == ByteStringLength(v)
  {
    if v.NullBytes? {
      NullPrefix();
      size := w.Put(WriteI32(-1));
    } else {
      VariantLaws.LengthPrefix(|v.data|);
      var head := w.Put(WriteI32(AsI32(|v.data|)));
      var tail := w.Put(v.data);
      size := head + tail;
    }
  }

  method ReadByteString(r: Reader, o: Options) returns (out: Result<ByteString>)
    modifies r
    ensures Follows(out, r.rest, DecodeByteString(old(r.rest), o))
  {
    hide ReadI32;
    var len :- r.Accept(ReadI32(r.rest));
    if len == -1 { return Ok(NullBytes); }
    if len < -1 { return Err(BadDecodingError); }
    if len > o.maxByteStringLength { return Err(BadDecodingError); }
    var buffer :- r.Accept(Take(r.rest, len));
    out := Ok(Bytes(buffer));
  }

  // ---------------------------------------------------------------- arrays of strings

  /** `write_array` */
  method WriteTable(w: Writer, table: Option<seq<UAString>>) returns (size: nat)
    modifies w
    ensures w.written == old(w.written) + EncodeTable(table) && size == TableLength(table)
  {
    hide EncodeString, StringLength, WriteI32;
    ghost var before := w.written;
    size := 0;
    if table.Some? {
      var values := table.value;
      VariantLaws.LengthPrefix(|values|);
      var head := w.Put(WriteI32(AsI32(|values|)));
      size := size + head;
      ghost var start := w.written;
      for i := 0 to |values|
        invariant w.written + EncodeStrings(values[i..]) == start + EncodeStrings(values)
        invariant size + StringsLength(values[i..]) == 4 + StringsLength(values)
      {
        assert values[i..][1..] == values[i + 1..];
        ghost var written := w.written;
        var step := WriteString(w, values[i]);
        assert written + EncodeString(values[i]) + EncodeStrings(values[i + 1..]) == written + EncodeStrings(values[i..]);
        size := size + step;
      }
      assert w.written + [] == w.written;
      assert before + WriteI32(AsI32(|values|)) + EncodeStrings(values) == before + EncodeTable(table);
    } else {
      NullPrefix();
      size := w.Put(WriteI32(-1));
    }
  }

  /** `read_array` */
  method ReadTable(r: Reader, o: Options) returns (out: Result<Option<seq<UAString>>>)
    modifies r
    ensures Follows(out, r.rest, DecodeTable(old(r.rest), o))
  {
    hide ReadI32, DecodeStrings;
    var len :- r.Accept(ReadI32(r.rest));
    if len == -1 { return Ok(None); }
    if len < -1 { return Err(BadDecodingError); }
    if len > o.maxArrayLength { return Err(BadDecodingError); }
    var values :- ReadStrings(len, r, o);
    out := Ok(Some(values));
  }

  method ReadStrings(n: nat, r: Reader, o: Options) returns (out: Result<seq<UAString>>)
    modifies r
    ensures Follows(out, r.rest, DecodeStrings(n, old(r.rest), o))
  {
    hide DecodeString;
    var values: seq<UAString> := [];
    ghost var s := r.rest;
    AfterNothing(DecodeStrings(n, s, o));
    for i := 0 to n
      invariant After(values, DecodeStrings(n - i, r.rest, o)) == DecodeStrings(n, s, o)
    {
      AfterStep(values, n - i, r.rest, o);
      var value :- ReadString(r, o);
      values := values + [value];
    }
    assert values + [] == values;
    out := Ok(values);
  }

  /** Strings already read, put before those still to come. */
  function After(values: seq<UAString>, d: Decoded<seq<UAString>>): Decoded<seq<UAString>> {
    if d.Bad? then d else Got(values + d.value, d.rest)
  }

  lemma AfterNothing(d: Decoded<seq<UAString>>)
    ensures After([], d) == d
  {
    if d.Got? { assert [] + d.value == d.value; }
  }

  lemma AfterStep(values: seq<UAString>, n: nat, s: bytes, o: Options)
    requires n > 0
    ensures
      var d := DecodeString(s, o);
      After(values, DecodeStrings(n, s, o)) ==
      if d.Bad? then Bad(d.status) else After(values + [d.value], DecodeStrings(n - 1, d.rest, o))
  {
    hide DecodeString;
    var d := DecodeString(s, o);
    if d.Got? {
      var more := DecodeStrings(n - 1, d.rest, o);
      if more.Got? { assert values + ([d.value] + more.value) == values + [d.value] + more.value; }
    }
  }

  // ---------------------------------------------------------------- node ids

  /** The encoding byte, with the given flags, and the body; `NodeId::encode` has no flags. */
  method WriteIdentifier(w: Writer, flags: u8, n: NodeId) returns (size: nat)
    requires flags + 5 < 0x100
    modifies w
    ensures w.written == old(w.written) + [flags + Form(n)] + EncodeBody(n) && size == NodeIdLength(n)
  {
    hide EncodeString, StringLength, EncodeByteString, ByteStringLength;
    ghost var before := w.written;
    var head := w.Put(WriteU8(flags + Form(n)));
    match n.identifier {
      case Numeric(id) =>
        if n.ns == 0 && id <= 255 {
          size := w.Put(WriteU8(id));
        } else if n.ns <= 255 && id <= 65535 {
          size := w.Put(WriteU8(n.ns) + WriteU16(id));
        } else {
          size := w.Put(WriteU16(n.ns) + WriteU32(id));
        }
      case Name(name) =>
        size := w.Put(WriteU16(n.ns));
        var tail := WriteString(w, name);
        size := size + tail;
      case GuidId(guid) =>
        size := w.Put(WriteU16(n.ns) + guid);
      case Opaque(b) =>
        size := w.Put(WriteU16(n.ns));
        var tail := WriteByteString(w, b);
        size := size + tail;
    }
    assert w.written == before + [flags + Form(n)] + EncodeBody(n);
    size := head + size;
  }

  method WriteNodeId(w: Writer, n: NodeId) returns (size: nat)
    modifies w
    ensures w.written == old(w.written) + EncodeNodeId(n) && size == NodeIdLength(n)
  {
    hide EncodeBody, NodeIdLength, Form;
    ghost var before := w.written;
    size := WriteIdentifier(w, 0, n);
    assert before + [Form(n)] + EncodeBody(n) == before + EncodeNodeId(n);
  }

  /** `ExpandedNodeId::encode`, with its assertion. */
  method WriteExpandedNodeId(w: Writer, e: ExpandedNodeId) returns (size: nat)
    modifies w
    ensures w.written == old(w.written) + EncodeExpanded(e) && size == ExpandedLength(e)
  {
    hide EncodeBody, NodeIdLength, Form, EncodeString, StringLength;
    ghost var before := w.written;
    var flags: u8 := 0;
    if !e.uri.Null? { flags := flags + 0x80; }
    if e.server != 0 { flags := flags + 0x40; }
    size := WriteIdentifier(w, flags, e.nodeId);
    if !e.uri.Null? {
      var step := WriteString(w, e.uri);
      size := size + step;
    }
    if e.server != 0 {
      var step := w.Put(WriteU32(e.server));
      size := size + step;
    }
    assert size == ExpandedLength(e);
    assert w.written == before + EncodeExpanded(e);
  }

  // ---------------------------------------------------------------- localized text

  method WriteLocalizedText(w: Writer, v: LocalizedText) returns (size: nat)
    modifies w
    ensures w.written == old(w.written) + EncodeLocalizedText(v) && size == LocalizedTextLength(v)
  {
    hide EncodeString, StringLength;
    ghost var before := w.written;
    var mask: u8 := 0;
    if !v.locale.IsEmpty() { mask := mask + 0x1; }
    if !v.text.IsEmpty() { mask := mask + 0x2; }
    TwoBits(!v.locale.IsEmpty(), !v.text.IsEmpty());
    size := w.Put(WriteU8(mask));
    if !v.locale.IsEmpty() {
      var step := WriteString(w, v.locale);
      size := size + step;
    }
    if !v.text.IsEmpty() {
      var step := WriteString(w, v.text);
      size := size + step;
    }
    assert w.written == before + EncodeLocalizedText(v);
  }

  lemma TwoBits(a: bool, b: bool)
    ensures Mask([a, b]) == (if a then 1 else 0) + (if b then 2 else 0)
  {
    assert [a, b][1..] == [b] && [b][1..] == [];
    assert Mask([b]) == if b then 1 else 0;
  }

  method ReadLocalizedText(r: Reader, o: Options) returns (out: Result<LocalizedText>)
    modifies r
    ensures Follows(out, r.rest, DecodeLocalizedText(old(r.rest), o))
  {
    hide DecodeString;
    var mask :- r.Accept(ReadU8(r.rest));
    var locale, text := Null, Null;
    if HasBit(mask, 0) { locale :- ReadString(r, o); }
    if HasBit(mask, 1) { text :- ReadString(r, o); }
    out := Ok(LocalizedText(locale, text));
  }

  // ---------------------------------------------------------------- diagnostic info

  method WriteDiagnosticInfo(w: Writer, v: DiagnosticInfo) returns (size: nat)
    modifies w
    ensures w.written == old(w.written) + EncodeDiagnosticInfo(v) && size == DiagnosticInfoLength(v)
    decreases v
  {
    MaskIsByte(DiagnosticBits(v));
    var mask: u8 := Mask(DiagnosticBits(v));
    DiagnosticParts(w.written, mask, v);
    hide EncodeDiagnosticFields, DiagnosticFieldsLength, DiagnosticBits, Mask, EncodeDiagnosticInfo, DiagnosticInfoLength;
    size := w.Put(WriteU8(mask));
    var fields := WriteDiagnosticFields(w, v);
    size := size + fields;
    if v.inner.Some? {
      var inner := WriteDiagnosticInfo(w, v.inner.value);
      size := size + inner;
    }
  }

  lemma DiagnosticParts(before: bytes, mask: u8, v: DiagnosticInfo)
    requires mask == Mask(DiagnosticBits(v))
    ensures
      var head := before + [mask] + EncodeDiagnosticFields(v);
      before + EncodeDiagnosticInfo(v) == if v.inner.None? then head else head + EncodeDiagnosticInfo(v.inner.value)
    ensures DiagnosticInfoLength(v) ==
            1 + DiagnosticFieldsLength(v) + if v.inner.None? then 0 else DiagnosticInfoLength(v.inner.value)
  {
    hide EncodeDiagnosticFields, DiagnosticFieldsLength, DiagnosticBits, Mask;
  }

  /** The fields before the inner diagnostic info, each written only when present. */
  method WriteDiagnosticFields(w: Writer, v: DiagnosticInfo) returns (size: nat)
    modifies w
    ensures w.written == old(w.written) + EncodeDiagnosticFields(v) && size == DiagnosticFieldsLength(v)
  {
    hide OptionalI32, OptionalU32, OptionalString, StringLength;
    ghost var before := w.written;
    NumberLengths(v);
    size := w.Put(OptionalI32(v.symbolicId));
    var step := w.Put(OptionalI32(v.namespaceUri));
    size := size + step;
    step := w.Put(OptionalI32(v.locale));
    size := size + step;
    step := w.Put(OptionalI32(v.localizedText));
    size := size + step;
    step := WriteOptionalString(w, v.additionalInfo);
    size := size + step;
    step := w.Put(OptionalU32(v.innerStatusCode));
    size := size + step;
    Chain(before, OptionalI32(v.symbolicId), OptionalI32(v.namespaceUri), OptionalI32(v.locale),
          OptionalI32(v.localizedText), OptionalString(v.additionalInfo), OptionalU32(v.innerStatusCode));
  }

  method WriteOptionalString(w: Writer, v: Option<UAString>) returns (size: nat)
    modifies w
    ensures w.written == old(w.written) + OptionalString(v) && size == if v.Some? then StringLength(v.value) else 0
  {
    if v.Some? {
      size := WriteString(w, v.value);
    } else {
      assert w.written + [] == w.written;
      size := 0;
    }
  }

  lemma Chain(before: bytes, a: bytes, b: bytes, c: bytes, d: bytes, e: bytes, f: bytes)
    ensures before + a + b + c + d + e + f == before + (a + b + c + d + e + f)
  {
  }

  lemma NumberLengths(v: DiagnosticInfo)
    ensures |OptionalI32(v.symbolicId)| == if v.symbolicId.Some? then 4 else 0
    ensures |OptionalI32(v.namespaceUri)| == if v.namespaceUri.Some? then 4 else 0
    ensures |OptionalI32(v.locale)| == if v.locale.Some? then 4 else 0
    ensures |OptionalI32(v.localizedText)| == if v.localizedText.Some? then 4 else 0
    ensures |OptionalU32(v.innerStatusCode)| == if v.innerStatusCode.Some? then 4 else 0
  {
  }

  /** `DiagnosticInfo::decode`: fields are assigned as they are read; each level takes its mask byte. */
  method ReadDiagnosticInfo(r: Reader, o: Options) returns (out: Result<DiagnosticInfo>)
    modifies r
    ensures Follows(out, r.rest, DecodeDiagnosticInfo(old(r.rest), o))
    decreases |r.rest|
  {
    hide DecodeDiagnosticFields;
    var mask :- r.Accept(ReadU8(r.rest));
    var info :- ReadDiagnosticFields(mask, r, o);
    if HasBit(mask, 6) {
      var inner :- ReadDiagnosticInfo(r, o);
      info := info.(inner := Some(inner));
    }
    out := Ok(info);
  }

  method ReadDiagnosticFields(mask: u8, r: Reader, o: Options) returns (out: Result<DiagnosticInfo>)
    modifies r
    ensures Follows(out, r.rest, DecodeDiagnosticFields(mask, old(r.rest), o))
  {
    hide DecodeOptionalI32, DecodeOptionalU32, DecodeOptionalString, HasBit, StringFits, StringLength, Taken;
    hide DiagnosticFieldsLength;
    var info := DiagnosticInfo(None, None, None, None, None, None, None);
    var symbolicId :- ReadOptionalI32(HasBit(mask, 0), r);
    info := info.(symbolicId := symbolicId);
    var namespaceUri :- ReadOptionalI32(HasBit(mask, 1), r);
    info := info.(namespaceUri := namespaceUri);
    var locale :- ReadOptionalI32(HasBit(mask, 3), r);
    info := info.(locale := locale);
    var localizedText :- ReadOptionalI32(HasBit(mask, 2), r);
    info := info.(localizedText := localizedText);
    var additionalInfo :- ReadOptionalString(HasBit(mask, 4), r, o);
    info := info.(additionalInfo := additionalInfo);
    var innerStatusCode :- ReadOptionalU32(HasBit(mask, 5), r);
    info := info.(innerStatusCode := innerStatusCode);
    out := Ok(info);
  }

  method ReadOptionalI32(present: bool, r: Reader) returns (out: Result<Option<i32>>)
    modifies r
    ensures Follows(out, r.rest, DecodeOptionalI32(present, old(r.rest)))
  {
    if !present { return Ok(None); }
    var n :- r.Accept(ReadI32(r.rest));
    out := Ok(Some(n));
  }

  method ReadOptionalU32(present: bool, r: Reader) returns (out: Result<Option<u32>>)
    modifies r
    ensures Follows(out, r.rest, DecodeOptionalU32(present, old(r.rest)))
  {
    if !present { return Ok(None); }
    var n :- r.Accept(ReadU32(r.rest));
    out := Ok(Some(n));
  }

  method ReadOptionalString(present: bool, r: Reader, o: Options) returns (out: Result<Option<UAString>>)
    modifies r
    ensures Follows(out, r.rest, DecodeOptionalString(present, old(r.rest), o))
  {
    hide DecodeString;
    if !present { return Ok(None); }
    var text :- ReadString(r, o);
    out := Ok(Some(text));
  }

  // ---------------------------------------------------------------- response headers

  /** `ResponseHeader::encode`, with its assertion. */
  method WriteResponseHeader(w: Writer, h: ResponseHeader) returns (size: nat)
    modifies w
    ensures w.written == old(w.written) + EncodeHeader(h) && size == HeaderLength(h)
  {
    hide EncodeDateTime, WriteU32, EncodeDiagnosticInfo, EncodeTable, EncodeExtensionObject;
    hide DiagnosticInfoLength, TableLength, ExtensionObjectLength;
    ghost var before := w.written;
    FixedLengths(h);
    size := w.Put(EncodeDateTime(h.timestamp));
    var step := w.Put(WriteU32(h.requestHandle));
    size := size + step;
    step := w.Put(WriteU32(h.serviceResult));
    size := size + step;
    step := WriteDiagnosticInfo(w, h.serviceDiagnostics);
    size := size + step;
    step := WriteTable(w, h.stringTable);
    size := size + step;
    ExtensionObjectLengthExact(h.additionalHeader);
    step := w.Put(EncodeExtensionObject(h.additionalHeader));
    size := size + step;
    assert size == HeaderLength(h);
    assert w.written == before + EncodeHeader(h);
  }

  lemma FixedLengths(h: ResponseHeader)
    ensures |EncodeDateTime(h.timestamp)| == 8
    ensures |WriteU32(h.requestHandle)| == 4 && |WriteU32(h.serviceResult)| == 4
  {
  }

  /** `ResponseHeader::decode` */
  method ReadResponseHeader(r: Reader, g: DepthGauge, o: Options) returns (out: Result<ResponseHeader>)
    requires g.maxDepth == o.maxDepth
    modifies r, g
    ensures g.currentDepth == old(g.currentDepth)
    ensures Follows(out, r.rest, DecodeHeader(old(r.rest), o, old(g.currentDepth)))
  {
    hide DecodeDateTime, ReadU32, DecodeDiagnosticInfo, DecodeTable, DecodeExtensionObject;
    var timestamp :- r.Accept(DecodeDateTime(r.rest, o));
    var requestHandle :- r.Accept(ReadU32(r.rest));
    var serviceResult :- r.Accept(ReadU32(r.rest));
    var serviceDiagnostics :- ReadDiagnosticInfo(r, o);
    var stringTable :- ReadTable(r, o);
    var additionalHeader :- ReadExtensionObject(r, g, o);
    out := Ok(ResponseHeader(timestamp, requestHandle, serviceResult, serviceDiagnostics, stringTable, additionalHeader));
  }
}
