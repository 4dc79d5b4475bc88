/** The built-in OPC UA value types that both the binary codec and the text syntaxes use. */
module UaTypes {
  import opened Prelude

  /** `UAString`: null is distinct from empty. */
  datatype UAString = Null | Str(text: string) {
    /** `as_ref`: null reads as the empty string. */
    function AsRef(): string { if Null? then "" else text }

    /** `is_empty`: null or no characters. */
    predicate IsEmpty() { Null? || text == "" }
  }

  datatype ByteString = NullBytes | Bytes(data: bytes)

  /** Sixteen raw bytes. */
  type Guid = g: bytes | |g| == 16 witness seq(16, _ => 0)

  datatype Identifier =
    | Numeric(id: u32)
    | Name(name: UAString)
    | GuidId(guid: Guid)
    | Opaque(opaqueBytes: ByteString)

  datatype NodeId = NodeId(ns: u16, identifier: Identifier)

  datatype ExpandedNodeId = ExpandedNodeId(nodeId: NodeId, uri: UAString, server: u32)

  datatype QualifiedName = QualifiedName(ns: u16, name: UAString)
}
