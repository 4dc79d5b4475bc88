/** Response headers, composed of the built-in codecs (lib/src/types/{response_header,encoding}.rs). */
module ResponseHeaders {
  import opened Prelude
  import opened Wire
  import opened UaTypes
  import opened Builtins
  import opened DateTimes
  import opened Records
  import VariantLaws

  datatype ResponseHeader = ResponseHeader(
    timestamp: DateTime,
    requestHandle: u32,
    serviceResult: u32,
    serviceDiagnostics: DiagnosticInfo,
    stringTable: Option<seq<UAString>>,
    additionalHeader: ExtensionObject)

  // ---------------------------------------------------------------- the string table: write_array and read_array

  function EncodeStrings(vs: seq<UAString>): bytes {
    if vs == [] then [] else EncodeString(vs[0]) + EncodeStrings(vs[1..])
  }

  function EncodeTable(table: Option<seq<UAString>>): bytes {
    if table.None? then WriteI32(-1) else WriteI32(AsI32(|table.value|)) + EncodeStrings(table.value)
  }

  function StringsLength(vs: seq<UAString>): nat {
    if vs == [] then 0 else StringLength(vs[0]) + StringsLength(vs[1..])
  }

  /** `byte_len_array` */
  function TableLength(table: Option<seq<UAString>>): nat {
    4 + if table.None? then 0 else StringsLength(table.value)
  }

  function DecodeStrings(n: nat, s: bytes, o: Options): (d: Decoded<seq<UAString>>) {
    if n == 0 then Got([], s)
    else
      var (v, s) :- DecodeString(s, o);
      var (vs, s) :- DecodeStrings(n - 1, s, o);
      Got([v] + vs, s)
  }

  function DecodeTable(s: bytes, o: Options): Decoded<Option<seq<UAString>>> {
    var (len, s) :- ReadI32(s);
    if len == -1 then Got(None, s)
    else if len < -1 || len > o.maxArrayLength then Bad(BadDecodingError)
    else
      var (vs, s) :- DecodeStrings(len, s, o);
      Got(Some(vs), s)
  }

  predicate TableFits(table: Option<seq<UAString>>, o: Options) {
    table.Some? ==>
      && |table.value| <= o.maxArrayLength && |table.value| < 0x8000_0000
      && forall v <- table.value :: StringFits(v, o)
  }

  lemma {:induction false} StringsRoundTrip(vs: seq<UAString>, o: Options, rest: bytes)
    requires forall v <- vs :: StringFits(v, o)
    ensures DecodeStrings(|vs|, EncodeStrings(vs) + rest, o) == Got(vs, rest)
  {
    hide EncodeString, DecodeString, EncodeStrings, DecodeStrings, StringFits;
    if vs == [] {
      NoStrings(o, rest);
    } else {
      var tail := EncodeStrings(vs[1..]);
      EncodeStringsCons(vs, rest);
      assert vs[0] in vs && forall v <- vs[1..] :: v in vs;
      StringRoundTrip(vs[0], o, tail + rest);
      StringsRoundTrip(vs[1..], o, rest);
      DecodeStringsCons(vs[0], vs[1..], EncodeString(vs[0]) + (tail + rest), tail + rest, o, rest);
      assert [vs[0]] + vs[1..] == vs;
    }
  }

  lemma NoStrings(o: Options, rest: bytes)
    ensures DecodeStrings(0, EncodeStrings([]) + rest, o) == Got([], rest)
  {
    assert EncodeStrings([]) + rest == rest;
  }

  lemma EncodeStringsCons(vs: seq<UAString>, rest: bytes)
    requires vs != []
    ensures EncodeStrings(vs) + rest == EncodeString(vs[0]) + (EncodeStrings(vs[1..]) + rest)
  {
    hide EncodeString;
  }

  lemma DecodeStringsCons(v: UAString, vs: seq<UAString>, s: bytes, more: bytes, o: Options, rest: bytes)
    requires DecodeString(s, o) == Got(v, more) && DecodeStrings(|vs|, more, o) == Got(vs, rest)
    ensures DecodeStrings(|vs| + 1, s, o) == Got([v] + vs, rest)
  {
    hide DecodeString;
  }

  lemma TableRoundTrip(table: Option<seq<UAString>>, o: Options, rest: bytes)
    requires TableFits(table, o)
    ensures DecodeTable(EncodeTable(table) + rest, o) == Got(table, rest)
  {
    hide WriteI32, ReadI32, EncodeStrings, DecodeStrings;
    if table.None? {
      ReadI32Written(-1, rest);
    } else {
      var vs := table.value;
      assert EncodeTable(table) + rest == WriteI32(AsI32(|vs|)) + (EncodeStrings(vs) + rest);
      VariantLaws.LengthWritten(|vs|, EncodeStrings(vs) + rest);
      StringsRoundTrip(vs, o, rest);
    }
  }

  lemma {:induction false} StringsLengthExact(vs: seq<UAString>)
    ensures |EncodeStrings(vs)| == StringsLength(vs)
  {
    if vs != [] {
      StringLengthExact(vs[0]);
      StringsLengthExact(vs[1..]);
    }
  }

  lemma {:induction false} StringsExtend(n: nat, s: bytes, o: Options, more: bytes)
    ensures Stable(DecodeStrings(n, s, o), DecodeStrings(n, s + more, o), more)
  {
    hide DecodeString;
    if n > 0 && DecodeStrings(n, s, o).Got? {
      StringExtends(s, o, more);
      var d := DecodeString(s, o);
      assert DecodeString(s + more, o) == Got(d.value, d.rest + more);
      StringsExtend(n - 1, d.rest, o, more);
    }
  }

  lemma TableExtends(s: bytes, o: Options, more: bytes)
    ensures Stable(DecodeTable(s, o), DecodeTable(s + more, o), more)
  {
    if |s| >= 4 {
      TakeExtends(s, 4, more);
      if ReadI32(s).value >= 0 { StringsExtend(ReadI32(s).value, ReadI32(s).rest, o, more); }
    }
  }

  // ---------------------------------------------------------------- the header

  function EncodeHeader(h: ResponseHeader): bytes {
    EncodeDateTime(h.timestamp) + WriteU32(h.requestHandle) + WriteU32(h.serviceResult)
    + EncodeDiagnosticInfo(h.serviceDiagnostics) + EncodeTable(h.stringTable) + EncodeExtensionObject(h.additionalHeader)
  }

  function HeaderLength(h: ResponseHeader): nat {
    8 + 4 + 4 + DiagnosticInfoLength(h.serviceDiagnostics) + TableLength(h.stringTable)
    + ExtensionObjectLength(h.additionalHeader)
  }

  function DecodeHeader(s: bytes, o: Options, depth: nat): Decoded<ResponseHeader> {
    var (timestamp, s) :- DecodeDateTime(s, o);
    var (requestHandle, s) :- ReadU32(s);
    var (serviceResult, s) :- ReadU32(s);
    var (serviceDiagnostics, s) :- DecodeDiagnosticInfo(s, o);
    var (stringTable, s) :- DecodeTable(s, o);
    var (additionalHeader, s) :- DecodeExtensionObject(s, o, depth);
    Got(ResponseHeader(timestamp, requestHandle, serviceResult, serviceDiagnostics, stringTable, additionalHeader), s)
  }

  predicate HeaderFits(h: ResponseHeader, o: Options) {
    DiagnosticInfoFits(h.serviceDiagnostics, o) && TableFits(h.stringTable, o) && ExtensionObjectFits(h.additionalHeader, o)
  }

  /** Decoding gives the header back with its timestamp as the wire keeps it; it is refused only when no level of the
      depth gauge is left for the additional header. */
  lemma HeaderRoundTrip(h: ResponseHeader, o: Options, depth: nat, rest: bytes)
    requires HeaderFits(h, o)
    ensures DecodeHeader(EncodeHeader(h) + rest, o, depth) ==
            if depth < o.maxDepth then Got(h.(timestamp := NormalDateTime(h.timestamp, o)), rest) else Bad(BadDecodingError)
  {
    hide EncodeDateTime, DecodeDateTime, NormalDateTime, WriteU32, ReadU32, EncodeDiagnosticInfo, DecodeDiagnosticInfo;
    hide EncodeTable, DecodeTable, EncodeExtensionObject, DecodeExtensionObject;
    hide DiagnosticInfoFits, TableFits, ExtensionObjectFits;
    var s5 := EncodeExtensionObject(h.additionalHeader) + rest;
    var s4 := EncodeTable(h.stringTable) + s5;
    var s3 := EncodeDiagnosticInfo(h.serviceDiagnostics) + s4;
    var s2 := WriteU32(h.serviceResult) + s3;
    var s1 := WriteU32(h.requestHandle) + s2;
    Regroup(EncodeDateTime(h.timestamp), WriteU32(h.requestHandle), WriteU32(h.serviceResult),
            EncodeDiagnosticInfo(h.serviceDiagnostics), EncodeTable(h.stringTable),
            EncodeExtensionObject(h.additionalHeader), rest);
    DateTimeRoundTrip(h.timestamp, o, s1);
    ReadU32Written(h.requestHandle, s2);
    ReadU32Written(h.serviceResult, s3);
    DiagnosticInfoRoundTrip(h.serviceDiagnostics, o, s4);
    TableRoundTrip(h.stringTable, o, s5);
    ExtensionObjectRoundTrip(h.additionalHeader, o, depth, rest);
  }

  /** The assertion at the end of `encode` holds. */
  lemma HeaderLengthExact(h: ResponseHeader)
    ensures |EncodeHeader(h)| == HeaderLength(h)
  {
    hide EncodeDateTime, EncodeDiagnosticInfo, EncodeStrings, EncodeExtensionObject;
    hide DiagnosticInfoLength, ExtensionObjectLength;
    DateTimeRoundTrip(h.timestamp, Options(0, 0, 0, 0, 0), []);
    DiagnosticInfoLengthExact(h.serviceDiagnostics);
    ExtensionObjectLengthExact(h.additionalHeader);
    if h.stringTable.Some? {
      StringsLengthExact(h.stringTable.value);
      VariantLaws.LengthPrefix(|h.stringTable.value|);
    }
  }

  lemma FixedPartExtends(s: bytes, o: Options, more: bytes)
    ensures Stable(DecodeDateTime(s, o), DecodeDateTime(s + more, o), more)
    ensures Stable(ReadU32(s), ReadU32(s + more), more)
  {
    if |s| >= 4 { TakeExtends(s, 4, more); }
    if |s| >= 8 { TakeExtends(s, 8, more); }
  }

  lemma HeaderExtends(s: bytes, o: Options, depth: nat, more: bytes)
    ensures Stable(DecodeHeader(s, o, depth), DecodeHeader(s + more, o, depth), more)
  {
    hide DecodeDateTime, ReadU32, DecodeDiagnosticInfo, DecodeTable, DecodeExtensionObject;
    if DecodeHeader(s, o, depth).Got? {
      FixedPartExtends(s, o, more);
      var s1 := DecodeDateTime(s, o).rest;
      FixedPartExtends(s1, o, more);
      var s2 := ReadU32(s1).rest;
      FixedPartExtends(s2, o, more);
      var s3 := ReadU32(s2).rest;
      DiagnosticInfoExtends(s3, o, more);
      var s4 := DecodeDiagnosticInfo(s3, o).rest;
      TableExtends(s4, o, more);
      ExtensionObjectExtends(DecodeTable(s4, o).rest, o, depth, more);
    }
  }
}
