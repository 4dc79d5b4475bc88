/** The layout on the wire, pinned by closed forms and by the examples of OPC UA Part 6 that the source's own tests cite
    (lib/src/types/tests/encoding.rs). */
module WireFormats {
  import opened Prelude
  import opened Wire
  import Utf8
  import opened UaTypes
  import opened Builtins
  import opened NodeIds
  import opened Records
  import opened DateTimes
  import opened Variants

  // ---------------------------------------------------------------- numbers

  lemma LeStep(n: nat, k: nat)
    requires k > 0
    ensures Le(n, k) == [n % 256] + Le(n / 256, k - 1)
  {
  }

  /** The least significant byte comes first. */
  lemma LittleEndian(n: nat)
    ensures Le(n, 2) == [n % 256, n / 256 % 256]
    ensures Le(n, 4) == [n % 256, n / 256 % 256, n / 256 / 256 % 256, n / 256 / 256 / 256 % 256]
  {
    LeStep(n, 2);
    LeStep(n / 256, 1);
    LeStep(n, 4);
    LeStep(n / 256, 3);
    LeStep(n / 256 / 256, 2);
    LeStep(n / 256 / 256 / 256, 1);
    assert Le(n / 256 / 256, 0) == [] && Le(n / 256 / 256 / 256 / 256, 0) == [];
  }

  lemma SmallBytes(n: u8)
    ensures Le(n, 2) == [n, 0] && Le(n, 4) == [n, 0, 0, 0] && Le(n, 8) == [n, 0, 0, 0, 0, 0, 0, 0]
  {
    hide Le;
    LittleEndian(n);
    LittleEndian(0);
    LeStep(n, 8);
    LeStep(0, 7);
    LeStep(0, 6);
    LeStep(0, 5);
    assert n / 256 == 0 && n % 256 == n;
    assert Le(n, 8) == [n] + ([0] + ([0] + ([0] + Le(0, 4))));
  }

  /** Small numbers in two, four and eight bytes. */
  lemma SmallNumber(n: u8)
    ensures WriteI32(n) == [n, 0, 0, 0] && WriteU32(n) == [n, 0, 0, 0] && WriteU16(n) == [n, 0]
  {
    hide Le;
    SmallBytes(n);
    PowersOf256();
  }

  /** Negative numbers are written in two's complement. */
  lemma TwosComplement(a: i8, b: i16, c: i32, d: i64)
    ensures WriteI8(a) == [if a < 0 then a + 0x100 else a]
    ensures WriteI16(b) == Le(if b < 0 then b + 0x1_0000 else b, 2)
    ensures WriteI32(c) == Le(if c < 0 then c + 0x1_0000_0000 else c, 4)
    ensures WriteI64(d) == Le(if d < 0 then d + 0x1_0000_0000_0000_0000 else d, 8)
  {
    PowersOf256();
    LeStep(if a < 0 then a + 0x100 else a, 1);
    assert forall n: nat :: Le(n, 0) == [];
    hide Le;
  }

  /** Minus one, the length of what is null. */
  lemma MinusOne()
    ensures WriteI32(-1) == [0xFF, 0xFF, 0xFF, 0xFF]
  {
    TwosComplement(0, 0, -1, 0);
    LittleEndian(0xFFFF_FFFF);
    hide Le, WriteI32;
  }

  /** A length as 32 bits. */
  lemma LengthBytes(n: nat)
    requires n < 0x8000_0000
    ensures WriteI32(AsI32(n)) == Le(n, 4)
  {
    AsI32Keeps(n);
    TwosComplement(0, 0, n, 0);
    hide Le, WriteI32, AsI32;
  }

  // ---------------------------------------------------------------- strings and node ids

  /** Null is the length minus one; otherwise the length in bytes and the bytes. */
  lemma StringLayout(v: UAString)
    requires v.Str? ==> |Utf8.Encode(v.text)| < 0x8000_0000
    ensures EncodeString(v) ==
            if v.Null? then [0xFF, 0xFF, 0xFF, 0xFF] else Le(|Utf8.Encode(v.text)|, 4) + Utf8.Encode(v.text)
  {
    hide Le, WriteI32, AsI32, Utf8.Encode;
    MinusOne();
    if v.Str? { LengthBytes(|Utf8.Encode(v.text)|); }
  }

  lemma ByteStringLayout(v: ByteString)
    requires v.Bytes? ==> |v.data| < 0x8000_0000
    ensures EncodeByteString(v) == if v.NullBytes? then [0xFF, 0xFF, 0xFF, 0xFF] else Le(|v.data|, 4) + v.data
  {
    hide Le, WriteI32, AsI32;
    MinusOne();
    if v.Bytes? { LengthBytes(|v.data|); }
  }

  /** The bytes of a character, by how many bits it takes. */
  lemma CharacterBytes(c: char)
    ensures
      var v := c as int;
      Utf8.EncodeChar(c) ==
      if v <= 0x7F then [v]
      else if v <= 0x7FF then [0xC0 + v / 0x40, 0x80 + v % 0x40]
      else if v <= 0xFFFF then [0xE0 + v / 0x1000, 0x80 + v / 0x40 % 0x40, 0x80 + v % 0x40]
      else [0xF0 + v / 0x4_0000, 0x80 + v / 0x1000 % 0x40, 0x80 + v / 0x40 % 0x40, 0x80 + v % 0x40]
  {
  }

  /** A letter, an accented letter, an ideograph and an emoji. */
  lemma CharacterExamples()
    ensures Utf8.EncodeChar('A') == [0x41] && Utf8.EncodeChar('\U{00E9}') == [0xC3, 0xA9]
    ensures Utf8.EncodeChar('\U{6C34}') == [0xE6, 0xB0, 0xB4] && Utf8.EncodeChar('\U{1F600}') == [0xF0, 0x9F, 0x98, 0x80]
  {
  }

  /** The encoding byte of a node id, and what follows it. */
  lemma NodeIdLayout(n: NodeId)
    ensures EncodeNodeId(n) == [NodeIdByte(n)] + NodeIdTail(n)
  {
  }

  function NodeIdByte(n: NodeId): u8 {
    if n.identifier.Name? then 0x03
    else if n.identifier.GuidId? then 0x04
    else if n.identifier.Opaque? then 0x05
    else if n.ns == 0 && n.identifier.id < 0x100 then 0x00
    else if n.ns < 0x100 && n.identifier.id < 0x1_0000 then 0x01 else 0x02
  }

  function NodeIdTail(n: NodeId): bytes {
    match n.identifier
    case Name(name) => Le(n.ns, 2) + EncodeString(name)
    case GuidId(guid) => Le(n.ns, 2) + guid
    case Opaque(data) => Le(n.ns, 2) + EncodeByteString(data)
    case Numeric(id) =>
      if NodeIdByte(n) == 0x00 then [id] else if NodeIdByte(n) == 0x01 then [n.ns] + Le(id, 2) else Le(n.ns, 2) + Le(id, 4)
  }

  /** An expanded node id: 0x80 announces the URI, 0x40 the server index; the URI comes first. */
  lemma ExpandedNodeIdLayout(e: ExpandedNodeId)
    ensures EncodeExpanded(e) ==
            [NodeIdByte(e.nodeId) + Flag(!e.uri.Null?, 0x80) + Flag(e.server != 0, 0x40)] + NodeIdTail(e.nodeId)
            + (if e.uri.Null? then [] else EncodeString(e.uri)) + (if e.server == 0 then [] else Le(e.server, 4))
  {
    NodeIdLayout(e.nodeId);
    hide Le, EncodeString, EncodeByteString;
  }

  /** The namespace index comes before the name. */
  lemma QualifiedNameLayout(q: QualifiedName)
    ensures EncodeQualifiedName(q) == Le(q.ns, 2) + EncodeString(q.name)
  {
  }

  /** 0x01 announces the locale, 0x02 the text; each is there only when it has characters. */
  lemma LocalizedTextLayout(v: LocalizedText)
    ensures EncodeLocalizedText(v) ==
            [Flag(!v.locale.IsEmpty(), 0x01) + Flag(!v.text.IsEmpty(), 0x02)]
            + (if v.locale.IsEmpty() then [] else EncodeString(v.locale))
            + (if v.text.IsEmpty() then [] else EncodeString(v.text))
  {
    hide EncodeString;
    var bits := [!v.locale.IsEmpty(), !v.text.IsEmpty()];
    MaskStep(bits);
    MaskStep(bits[1..]);
    assert bits[1..][1..] == [];
  }

  /** The type, then 0 for no body, 1 for bytes, 2 for an XML element. */
  lemma ExtensionObjectLayout(nodeId: NodeId, data: ByteString, element: UAString)
    ensures EncodeExtensionObject(ExtensionObject(nodeId, NoBody)) == EncodeNodeId(nodeId) + [0]
    ensures EncodeExtensionObject(ExtensionObject(nodeId, Binary(data))) ==
            EncodeNodeId(nodeId) + ([1] + EncodeByteString(data))
    ensures EncodeExtensionObject(ExtensionObject(nodeId, Xml(element))) ==
            EncodeNodeId(nodeId) + ([2] + EncodeString(element))
  {
  }

  // ---------------------------------------------------------------- date-times

  /** Ticks of 100 nanoseconds after the start of 1601; before that nothing, and after the year 9999 the largest number. */
  lemma DateTimeLayout(d: DateTime)
    ensures EncodeDateTime(d) ==
            Le(if d.nanos < 0 then 0
               else if d.nanos >= 265_046_774_399 * 1_000_000_000 + 100 then 0x7FFF_FFFF_FFFF_FFFF
               else d.nanos / 100, 8)
  {
    hide Le, WriteI64, CheckedTicks;
    WrittenTicks(d);
    TwosComplement(0, 0, 0, CheckedTicks(d));
  }

  lemma WrittenTicks(d: DateTime)
    ensures CheckedTicks(d) ==
            if d.nanos < 0 then 0
            else if d.nanos >= 265_046_774_399 * 1_000_000_000 + 100 then 0x7FFF_FFFF_FFFF_FFFF else d.nanos / 100
  {
    hide Ticks;
    TicksOfInstant(d);
    if d.nanos >= 0 { LastTick(d.nanos); }
  }

  lemma LastTick(nanos: nat)
    ensures nanos / 100 > END_TICKS <==> nanos >= 265_046_774_399 * 1_000_000_000 + 100
  {
    hide END_TICKS;
    EndTicks();
    Hundreds(nanos, 2_650_467_743_990_000_000);
  }

  lemma EndTicks()
    ensures END_TICKS == 2_650_467_743_990_000_000
  {
    assert TICKS_PER_SECOND == 10_000_000;
    assert DAYS_TO_YEAR_10000 == 3_067_671;
    assert END_SECONDS == 265_046_774_399;
    assert END_TICKS == 265_046_774_399 * 10_000_000;
  }

  lemma Hundreds(n: nat, k: nat)
    ensures n / 100 > k <==> n >= 100 * k + 100
  {
  }

  /** The first second of 1970. */
  lemma UnixEpochExample()
    ensures Ticks(DateTime(11_644_473_600 * 1_000_000_000)) == 116_444_736_000_000_000
  {
    DurationToTicksTruncates(11_644_473_600 * 1_000_000_000);
  }

  lemma Water()
    ensures Utf8.Encode("\U{6C34}") == [0xE6, 0xB0, 0xB4]
  {
    Utf8.EncodeCons('\U{6C34}', "");
    assert ['\U{6C34}'] + "" == "\U{6C34}";
  }

  lemma AsciiBytes(a: char, b: char, c: char)
    requires a as int < 0x80 && b as int < 0x80 && c as int < 0x80
    ensures Utf8.Encode([a, b, c]) == [a as int, b as int, c as int]
  {
    Utf8.EncodeCons(a, [b, c]);
    Utf8.EncodeCons(b, [c]);
    Utf8.EncodeCons(c, []);
    assert [a] + [b, c] == [a, b, c] && [b] + [c] == [b, c] && [c] + [] == [c];
  }

  /** The example of section 5.2.2.4. */
  lemma StringExample()
    ensures EncodeString(Str("\U{6C34}Boy")) == [0x06, 0, 0, 0, 0xE6, 0xB0, 0xB4, 0x42, 0x6F, 0x79]
  {
    Water();
    AsciiBytes('B', 'o', 'y');
    assert "\U{6C34}" + "Boy" == "\U{6C34}Boy";
    Utf8.EncodeConcat("\U{6C34}", "Boy");
    assert Utf8.Encode("\U{6C34}Boy") == [0xE6, 0xB0, 0xB4, 0x42, 0x6F, 0x79];
    AsI32Keeps(6);
    SmallNumber(6);
  }

  /** The examples of section 5.2.2.9, and one with a large namespace. */
  lemma NumericNodeIdExamples()
    ensures EncodeNodeId(NodeId(0, Numeric(0x72))) == [0x00, 0x72]
    ensures EncodeNodeId(NodeId(5, Numeric(1025))) == [0x01, 0x05, 0x01, 0x04]
    ensures EncodeNodeId(NodeId(0x100, Numeric(1))) == [0x02, 0x00, 0x01, 0x01, 0, 0, 0]
  {
    LittleEndian(1025);
    LittleEndian(0x100);
    SmallNumber(1);
    hide Le;
  }

  lemma LargeNodeIdExample()
    ensures EncodeNodeId(NodeId(1, Numeric(0xdeadbeef))) == [0x02, 0x01, 0x00, 0xef, 0xbe, 0xad, 0xde]
  {
    hide Le;
    SmallNumber(1);
    LittleEndian(0xdeadbeef);
  }

  lemma HotWater()
    ensures EncodeString(Str("Hot\U{6C34}")) == [0x06, 0, 0, 0, 0x48, 0x6F, 0x74, 0xE6, 0xB0, 0xB4]
  {
    Water();
    AsciiBytes('H', 'o', 't');
    assert "Hot" + "\U{6C34}" == "Hot\U{6C34}";
    Utf8.EncodeConcat("Hot", "\U{6C34}");
    assert Utf8.Encode("Hot\U{6C34}") == [0x48, 0x6F, 0x74, 0xE6, 0xB0, 0xB4];
    AsI32Keeps(6);
    SmallNumber(6);
  }

  lemma StringNodeIdExample()
    ensures EncodeNodeId(NodeId(1, Name(Str("Hot\U{6C34}")))) ==
            [0x03, 0x01, 0x00, 0x06, 0, 0, 0, 0x48, 0x6F, 0x74, 0xE6, 0xB0, 0xB4]
  {
    hide Le, EncodeString, Utf8.Encode;
    HotWater();
    SmallNumber(1);
  }

  // ---------------------------------------------------------------- masks

  function Flag(present: bool, value: nat): nat { if present then value else 0 }

  lemma MaskStep(bits: seq<bool>)
    requires bits != []
    ensures Mask(bits) == Flag(bits[0], 1) + 2 * Mask(bits[1..])
  {
  }

  lemma SixBits(a: bool, b: bool, c: bool, d: bool, e: bool, f: bool)
    ensures Mask([a, b, c, d, e, f]) ==
            Flag(a, 1) + Flag(b, 2) + Flag(c, 4) + Flag(d, 8) + Flag(e, 16) + Flag(f, 32)
  {
    MaskStep([a, b, c, d, e, f]);
    MaskStep([b, c, d, e, f]);
    MaskStep([c, d, e, f]);
    MaskStep([d, e, f]);
    MaskStep([e, f]);
    MaskStep([f]);
    assert [a, b, c, d, e, f][1..] == [b, c, d, e, f] && [b, c, d, e, f][1..] == [c, d, e, f];
    assert [c, d, e, f][1..] == [d, e, f] && [d, e, f][1..] == [e, f] && [e, f][1..] == [f] && [f][1..] == [];
  }

  /** The flags of a data value; picoseconds are announced only with their timestamp. */
  lemma DataValueMask(d: DataValue)
    ensures Mask(DataValueBits(d)) ==
            Flag(d.value.Some?, 0x1) + Flag(d.status.Some?, 0x2)
            + Flag(d.sourceTimestamp.Some?, 0x4) + Flag(d.serverTimestamp.Some?, 0x8)
            + Flag(d.sourceTimestamp.Some? && d.sourcePicoseconds.Some?, 0x10)
            + Flag(d.serverTimestamp.Some? && d.serverPicoseconds.Some?, 0x20)
  {
    SixBits(d.value.Some?, d.status.Some?, d.sourceTimestamp.Some?, d.serverTimestamp.Some?,
            d.sourceTimestamp.Some? && d.sourcePicoseconds.Some?, d.serverTimestamp.Some? && d.serverPicoseconds.Some?);
  }

  /** The flags of diagnostic info: localized text comes before locale in the mask. */
  lemma DiagnosticMask(v: DiagnosticInfo)
    ensures Mask(DiagnosticBits(v)) ==
            Flag(v.symbolicId.Some?, 0x01) + Flag(v.namespaceUri.Some?, 0x02) + Flag(v.localizedText.Some?, 0x04)
            + Flag(v.locale.Some?, 0x08) + Flag(v.additionalInfo.Some?, 0x10) + Flag(v.innerStatusCode.Some?, 0x20)
            + Flag(v.inner.Some?, 0x40)
  {
    var rest := [v.namespaceUri.Some?, v.localizedText.Some?, v.locale.Some?, v.additionalInfo.Some?,
                 v.innerStatusCode.Some?, v.inner.Some?];
    MaskStep(DiagnosticBits(v));
    assert DiagnosticBits(v)[1..] == rest;
    SixBits(rest[0], rest[1], rest[2], rest[3], rest[4], rest[5]);
  }

  // ---------------------------------------------------------------- field order

  /** Diagnostic info, whichever fields it has: the locale comes before the localized text. */
  lemma DiagnosticLayout(v: DiagnosticInfo)
    ensures EncodeDiagnosticInfo(v) ==
            [Flag(v.symbolicId.Some?, 0x01) + Flag(v.namespaceUri.Some?, 0x02) + Flag(v.localizedText.Some?, 0x04)
             + Flag(v.locale.Some?, 0x08) + Flag(v.additionalInfo.Some?, 0x10) + Flag(v.innerStatusCode.Some?, 0x20)
             + Flag(v.inner.Some?, 0x40)]
            + (if v.symbolicId.Some? then WriteI32(v.symbolicId.value) else [])
            + (if v.namespaceUri.Some? then WriteI32(v.namespaceUri.value) else [])
            + (if v.locale.Some? then WriteI32(v.locale.value) else [])
            + (if v.localizedText.Some? then WriteI32(v.localizedText.value) else [])
            + (if v.additionalInfo.Some? then EncodeString(v.additionalInfo.value) else [])
            + (if v.innerStatusCode.Some? then WriteU32(v.innerStatusCode.value) else [])
            + (if v.inner.Some? then EncodeDiagnosticInfo(v.inner.value) else [])
  {
    DiagnosticMask(v);
    hide WriteI32, WriteU32, EncodeString, Mask, DiagnosticBits;
    Flatten([Mask(DiagnosticBits(v))], EncodeDiagnosticFields(v),
            if v.inner.Some? then EncodeDiagnosticInfo(v.inner.value) else [],
            OptionalI32(v.symbolicId), OptionalI32(v.namespaceUri), OptionalI32(v.locale), OptionalI32(v.localizedText),
            OptionalString(v.additionalInfo), OptionalU32(v.innerStatusCode));
  }

  lemma Flatten(mask: bytes, fields: bytes, inner: bytes, a: bytes, b: bytes, c: bytes, d: bytes, e: bytes, f: bytes)
    requires fields == a + b + c + d + e + f
    ensures mask + fields + inner == mask + a + b + c + d + e + f + inner
  {
  }

  /** A data value, whichever parts it has: value, status, source time, source picoseconds, server time, server
      picoseconds, which are written only with their time. */
  lemma DataValueLayout(d: DataValue)
    requires d.value.Some? ==> Encodable(d.value.value)
    ensures EncodeDataValue(d) ==
            [Flag(d.value.Some?, 0x1) + Flag(d.status.Some?, 0x2)
             + Flag(d.sourceTimestamp.Some?, 0x4) + Flag(d.serverTimestamp.Some?, 0x8)
             + Flag(d.sourceTimestamp.Some? && d.sourcePicoseconds.Some?, 0x10)
             + Flag(d.serverTimestamp.Some? && d.serverPicoseconds.Some?, 0x20)]
            + (if d.value.Some? then EncodeVariant(d.value.value) else [])
            + (if d.status.Some? then WriteU32(d.status.value) else [])
            + (if d.sourceTimestamp.Some? then EncodeDateTime(d.sourceTimestamp.value) else [])
            + (if d.sourceTimestamp.Some? && d.sourcePicoseconds.Some? then WriteU16(d.sourcePicoseconds.value) else [])
            + (if d.serverTimestamp.Some? then EncodeDateTime(d.serverTimestamp.value) else [])
            + (if d.serverTimestamp.Some? && d.serverPicoseconds.Some? then WriteU16(d.serverPicoseconds.value) else [])
  {
    DataValueMask(d);
    hide EncodeVariant, WriteU32, WriteU16, EncodeDateTime, Mask, DataValueBits;
    var source, sourcePicoseconds := Stamp(d.sourceTimestamp), Picoseconds(d.sourceTimestamp, d.sourcePicoseconds);
    var server, serverPicoseconds := Stamp(d.serverTimestamp), Picoseconds(d.serverTimestamp, d.serverPicoseconds);
    assert EncodeStamp(d.sourceTimestamp, d.sourcePicoseconds) == source + sourcePicoseconds;
    assert EncodeStamp(d.serverTimestamp, d.serverPicoseconds) == server + serverPicoseconds;
    FlattenStamps([Mask(DataValueBits(d))] + (if d.value.Some? then EncodeVariant(d.value.value) else []),
                  if d.status.Some? then WriteU32(d.status.value) else [],
                  source, sourcePicoseconds, server, serverPicoseconds);
  }

  function Stamp(time: Option<DateTime>): bytes { if time.Some? then EncodeDateTime(time.value) else [] }

  function Picoseconds(time: Option<DateTime>, picoseconds: Option<u16>): bytes {
    if time.Some? && picoseconds.Some? then WriteU16(picoseconds.value) else []
  }

  lemma FlattenStamps(before: bytes, a: bytes, b: bytes, c: bytes, d: bytes, e: bytes)
    ensures before + (a + (b + c) + (d + e)) == before + a + b + c + d + e
  {
  }
}
