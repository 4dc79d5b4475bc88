/** The compact binary codec of node ids and expanded node ids
    (lib/src/types/node_id.rs, expanded_node_id.rs; OPC UA Part 6, sections 5.2.2.9 and 5.2.2.10). */
module NodeIds {
  import opened Prelude
  import opened Wire
  import opened UaTypes
  import opened Builtins

  /** The encoding byte: numeric ids take the shortest of three forms. */
  function Form(n: NodeId): (f: u8)
    ensures f <= 5
  {
    match n.identifier
    case Numeric(id) => if n.ns == 0 && id <= 255 then 0 else if n.ns <= 255 && id <= 65535 then 1 else 2
    case Name(_) => 3
    case GuidId(_) => 4
    case Opaque(_) => 5
  }

  /** What follows the encoding byte. */
  function EncodeBody(n: NodeId): bytes {
    match n.identifier
    case Numeric(id) =>
      if n.ns == 0 && id <= 255 then WriteU8(id)
      else if n.ns <= 255 && id <= 65535 then WriteU8(n.ns) + WriteU16(id)
      else WriteU16(n.ns) + WriteU32(id)
    case Name(name) => WriteU16(n.ns) + EncodeString(name)
    case GuidId(guid) => WriteU16(n.ns) + guid
    case Opaque(b) => WriteU16(n.ns) + EncodeByteString(b)
  }

  function DecodeBody(form: u8, s: bytes, o: Options): (d: Decoded<NodeId>)
    ensures d.Got? ==> NodeIdLength(d.value) <= 1 + Taken(s, d) && NodeIdFits(d.value, o)
  {
    if form == 0 then
      var (id, s) :- ReadU8(s);
      Got(NodeId(0, Numeric(id)), s)
    else if form == 1 then
      var (ns, s) :- ReadU8(s);
      var (id, s) :- ReadU16(s);
      Got(NodeId(ns, Numeric(id)), s)
    else if form == 2 then
      var (ns, s) :- ReadU16(s);
      var (id, s) :- ReadU32(s);
      Got(NodeId(ns, Numeric(id)), s)
    else if form == 3 then
      var (ns, s) :- ReadU16(s);
      var (name, s) :- DecodeString(s, o);
      Got(NodeId(ns, Name(name)), s)
    else if form == 4 then
      var (ns, s) :- ReadU16(s);
      var (guid, s) :- DecodeGuid(s);
      Got(NodeId(ns, GuidId(guid)), s)
    else if form == 5 then
      var (ns, s) :- ReadU16(s);
      var (b, s) :- DecodeByteString(s, o);
      Got(NodeId(ns, Opaque(b)), s)
    else Bad(BadDecodingError)
  }

  predicate NodeIdFits(n: NodeId, o: Options) {
    match n.identifier
    case Name(name) => StringFits(name, o)
    case Opaque(b) => ByteStringFits(b, o)
    case _ => true
  }

  /** `byte_len` */
  function NodeIdLength(n: NodeId): nat {
    match n.identifier
    case Numeric(id) => if n.ns == 0 && id <= 255 then 2 else if n.ns <= 255 && id <= 65535 then 4 else 7
    case Name(name) => 3 + StringLength(name)
    case GuidId(_) => 3 + 16
    case Opaque(b) => 3 + ByteStringLength(b)
  }

  lemma BodyRoundTrip(n: NodeId, o: Options, rest: bytes)
    requires NodeIdFits(n, o)
    ensures DecodeBody(Form(n), EncodeBody(n) + rest, o) == Got(n, rest)
  {
    hide WriteU8, ReadU8, WriteU16, ReadU16, WriteU32, ReadU32;
    hide EncodeString, DecodeString, EncodeByteString, DecodeByteString;
    match n.identifier
    case Numeric(id) =>
      if n.ns == 0 && id <= 255 {
        ReadU8Written(id, rest);
      } else if n.ns <= 255 && id <= 65535 {
        assert EncodeBody(n) + rest == WriteU8(n.ns) + (WriteU16(id) + rest);
        ReadU8Written(n.ns, WriteU16(id) + rest);
        ReadU16Written(id, rest);
      } else {
        assert EncodeBody(n) + rest == WriteU16(n.ns) + (WriteU32(id) + rest);
        ReadU16Written(n.ns, WriteU32(id) + rest);
        ReadU32Written(id, rest);
      }
    case Name(name) =>
      assert EncodeBody(n) + rest == WriteU16(n.ns) + (EncodeString(name) + rest);
      ReadU16Written(n.ns, EncodeString(name) + rest);
      StringRoundTrip(name, o, rest);
    case GuidId(guid) =>
      assert EncodeBody(n) + rest == WriteU16(n.ns) + (guid + rest);
      ReadU16Written(n.ns, guid + rest);
      TakeWritten(guid, rest);
    case Opaque(b) =>
      assert EncodeBody(n) + rest == WriteU16(n.ns) + (EncodeByteString(b) + rest);
      ReadU16Written(n.ns, EncodeByteString(b) + rest);
      ByteStringRoundTrip(b, o, rest);
  }

  lemma BodyExtends(form: u8, s: bytes, o: Options, more: bytes)
    ensures Stable(DecodeBody(form, s, o), DecodeBody(form, s + more, o), more)
  {
    if DecodeBody(form, s, o).Got? {
      if form == 0 {
        TakeExtends(s, 1, more);
      } else if form == 1 {
        TakeExtends(s, 1, more);
        TakeExtends(s[1..], 2, more);
      } else {
        TakeExtends(s, 2, more);
        if form == 2 {
          TakeExtends(s[2..], 4, more);
        } else if form == 3 {
          StringExtends(s[2..], o, more);
        } else if form == 4 {
          TakeExtends(s[2..], 16, more);
        } else {
          ByteStringExtends(s[2..], o, more);
        }
      }
    }
  }

  // ---------------------------------------------------------------- node ids

  function EncodeNodeId(n: NodeId): bytes { [Form(n)] + EncodeBody(n) }

  /** Whatever bytes a node id is read from, its own encoding is no longer than they are. */
  function DecodeNodeId(s: bytes, o: Options): (d: Decoded<NodeId>)
    ensures d.Got? ==> NodeIdLength(d.value) <= Taken(s, d) && NodeIdFits(d.value, o)
  {
    var (form, s) :- ReadU8(s);
    DecodeBody(form, s, o)
  }

  lemma NodeIdRoundTrip(n: NodeId, o: Options, rest: bytes)
    requires NodeIdFits(n, o)
    ensures DecodeNodeId(EncodeNodeId(n) + rest, o) == Got(n, rest)
  {
    hide Form, EncodeBody, DecodeBody;
    assert EncodeNodeId(n) + rest == WriteU8(Form(n)) + (EncodeBody(n) + rest);
    ReadU8Written(Form(n), EncodeBody(n) + rest);
    BodyRoundTrip(n, o, rest);
  }

  lemma NodeIdLengthExact(n: NodeId)
    ensures |EncodeNodeId(n)| == NodeIdLength(n)
  {
  }

  lemma NodeIdExtends(s: bytes, o: Options, more: bytes)
    ensures Stable(DecodeNodeId(s, o), DecodeNodeId(s + more, o), more)
  {
    if DecodeNodeId(s, o).Got? {
      TakeExtends(s, 1, more);
      BodyExtends(s[0], s[1..], o, more);
    }
  }

  // ---------------------------------------------------------------- expanded node ids

  function ExpandedForm(e: ExpandedNodeId): u8 {
    Form(e.nodeId) + (if e.server != 0 then 0x40 else 0) + (if e.uri.Null? then 0 else 0x80)
  }

  function EncodeExpanded(e: ExpandedNodeId): bytes {
    [ExpandedForm(e)] + EncodeBody(e.nodeId)
    + (if e.uri.Null? then [] else EncodeString(e.uri))
    + (if e.server == 0 then [] else WriteU32(e.server))
  }

  function ExpandedLength(e: ExpandedNodeId): nat {
    NodeIdLength(e.nodeId) + (if e.uri.Null? then 0 else StringLength(e.uri)) + (if e.server == 0 then 0 else 4)
  }

  /** Only the low four bits choose the form; the top two announce the optional parts. */
  function DecodeExpanded(s: bytes, o: Options): (d: Decoded<ExpandedNodeId>)
    ensures d.Got? ==> ExpandedLength(d.value) <= Taken(s, d) && ExpandedFits(d.value, o)
  {
    var (form, s) :- ReadU8(s);
    var (nodeId, s) :- DecodeBody(form % 16, s, o);
    var (uri, s) :- DecodeUri(form / 0x80 % 2 == 1, s, o);
    var (server, s) :- DecodeServer(form / 0x40 % 2 == 1, s);
    Got(ExpandedNodeId(nodeId, uri, server), s)
  }

  function DecodeUri(present: bool, s: bytes, o: Options): (d: Decoded<UAString>)
    ensures d.Got? ==> (if d.value.Null? then 0 else StringLength(d.value)) <= Taken(s, d) && StringFits(d.value, o)
  {
    if present then DecodeString(s, o) else Got(Null, s)
  }

  function DecodeServer(present: bool, s: bytes): (d: Decoded<u32>)
    ensures d.Got? ==> (if d.value == 0 then 0 else 4) <= Taken(s, d)
  {
    if present then ReadU32(s) else Got(0, s)
  }

  predicate ExpandedFits(e: ExpandedNodeId, o: Options) {
    NodeIdFits(e.nodeId, o) && StringFits(e.uri, o)
  }

  lemma ExpandedRoundTrip(e: ExpandedNodeId, o: Options, rest: bytes)
    requires ExpandedFits(e, o)
    ensures DecodeExpanded(EncodeExpanded(e) + rest, o) == Got(e, rest)
  {
    hide Form, EncodeBody, DecodeBody, EncodeString, DecodeString, WriteU32, ReadU32;
    var form, body := ExpandedForm(e), EncodeBody(e.nodeId);
    var uri := if e.uri.Null? then [] else EncodeString(e.uri);
    var server := if e.server == 0 then [] else WriteU32(e.server);
    assert EncodeExpanded(e) + rest == [form] + (body + (uri + (server + rest)));
    ReadU8Written(form, body + (uri + (server + rest)));
    assert form % 16 == Form(e.nodeId);
    BodyRoundTrip(e.nodeId, o, uri + (server + rest));
    if e.uri.Null? {
      assert uri + (server + rest) == server + rest;
    } else {
      StringRoundTrip(e.uri, o, server + rest);
    }
    if e.server == 0 {
      assert server + rest == rest;
    } else {
      ReadU32Written(e.server, rest);
    }
  }

  lemma ExpandedLengthExact(e: ExpandedNodeId)
    ensures |EncodeExpanded(e)| == ExpandedLength(e)
  {
    NodeIdLengthExact(e.nodeId);
  }

  lemma ExpandedExtends(s: bytes, o: Options, more: bytes)
    ensures Stable(DecodeExpanded(s, o), DecodeExpanded(s + more, o), more)
  {
    if DecodeExpanded(s, o).Got? {
      TakeExtends(s, 1, more);
      BodyExtends(s[0] % 16, s[1..], o, more);
      var s2 := DecodeBody(s[0] % 16, s[1..], o).rest;
      StringExtends(s2, o, more);
      var s3 := DecodeUri(s[0] / 0x80 % 2 == 1, s2, o).rest;
      if s[0] / 0x40 % 2 == 1 { TakeExtends(s3, 4, more); }
    }
  }

  /** Decoding is canonical: re-encoding what any bytes decode to is no longer, and decodes to the same value. */
  lemma ExpandedIsCanonical(s: bytes, o: Options, rest: bytes)
    requires DecodeExpanded(s, o).Got?
    ensures var d := DecodeExpanded(s, o);
            && |EncodeExpanded(d.value)| <= Taken(s, d)
            && DecodeExpanded(EncodeExpanded(d.value) + rest, o) == Got(d.value, rest)
  {
    var e := DecodeExpanded(s, o).value;
    ExpandedLengthExact(e);
    ExpandedRoundTrip(e, o, rest);
  }

  lemma NodeIdIsCanonical(s: bytes, o: Options, rest: bytes)
    requires DecodeNodeId(s, o).Got?
    ensures var d := DecodeNodeId(s, o);
            && |EncodeNodeId(d.value)| <= Taken(s, d)
            && DecodeNodeId(EncodeNodeId(d.value) + rest, o) == Got(d.value, rest)
  {
    var n := DecodeNodeId(s, o).value;
    NodeIdLengthExact(n);
    NodeIdRoundTrip(n, o, rest);
  }
}
