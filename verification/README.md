# OPC UA for Rust: a verified model

A Dafny model of an OPC UA client and server stack and of the code generator behind its service types, with proofs of
what the stack promises. The model follows the Rust and JavaScript sources branch by branch. Where a promise fails, one
lemma gives an input on which it does, and another states for all inputs exactly when it holds.

**The binary codec** (`Wire`, `Utf8`, `Builtins`, `NodeIds`, `Records`, `DateTimes`, `Scalars`, `Variants`,
`VariantLaws`, `DecodingDepth`, `ResponseHeaders`, `Arguments`). Encoding, exact lengths and decoding of every built-in
type, with the mutually recursive variants and data values under the depth gauge. `WireFormats` and `VariantFormats` give
every layout byte by byte, so that the round trips are about the format of the standard and no other. `CodecStreams` and `RecordStreams` are the same codec as it runs: streams
that are consumed and filled, accumulated sizes, and a shared gauge that is locked and released.

**The schema compiler** (`Schema`, `SchemaLaws`, `SchemaFormats`, `ExtensionPayloads`). The generator of `byte_len`, `encode` and
`decode` for structured types, the meaning of the code it emits, and the codec laws for every schema.

**Text syntaxes** (`Text`, `BrowseName`, `RelativePathElement`, `RelativePath`, `NodeIdText`, `NumericRanges`,
`OperandPath`, `TextFormats`). Printers and parsers, with the regular expressions written out as matchers.

**Chunks** (`Chunks`, `Chunker`). Messages cut into numbered chunks and put together again, and the padding and size of
secured chunks.

**Cryptographic framing** (`RsaBlocks`, `KeyDerivation`). RSA over many blocks, the password exchange on top of it, and
the key stream that channel keys are cut from. One-block RSA and HMAC are function values with their laws as
preconditions.

**Client and server state** (`ClientSubscription`, `SubscriptionStates`, `MessageQueues`, `MessageRuns`,
`ContinuationPoints`, `ServerSubscription`, `ServerSubscriptionLaws`, `SubscriptionTable`, `PublishEngine`,
`PublishRuns`, `PublishOrder`, `PublishRequests`, `Retransmission`, `PublishServer`).
Classes with the source's fields and loops, proved against functions of their content, and invariants of every run of
those functions.

## Where the code keeps its promise only under a condition

- Unescaping a browse name equals one left-to-right pass exactly when no `&&` is followed by a bare reserved character
  (`BrowseName.UnescapeIsOnePassIff`). Undoing the escape is unaffected.
- The grammar comment of relative paths allows namespace indices of several digits in a target; the parser takes one
  (`RelativePathElement.TwoDigitNamespaceIsLost`). `ElementRoundTripIff` and `PathRoundTripIff` are exact.
- A variant array that is empty and has dimensions leaves the bytes of its dimensions unread
  (`VariantLaws.EmptyArrayLosesStep`); `ArrayRoundTripIff` is exact.
- The length of an `Argument` is exact only when its rank is positive or it has no dimensions
  (`Arguments.ArgumentLengthIff`, `RankZeroExample`).
- An expanded node id of namespace zero without a URI prints as text that its parser refuses
  (`NodeIdText.NamespaceZeroIsRefused`); `ExpandedRoundTripIff` is exact.
- The room left for padding in a chunk is that of a body of one byte, described as the most padding; a full chunk can
  exceed the limit (`Chunks.FullChunkExample`), and `FullChunkFitsIff` says exactly when it does not.
- A client subscription whose item is created again under another handle and then deleted keeps the first handle
  (`ClientSubscription.ReinsertionLeavesHandle`); `InsertKeepsInverseIff` is exact.
- The path of an operand is split as intended exactly when it does not contain the internal placeholder
  (`OperandPath.BrowsePathIffNoPlaceholder`, `PlaceholderExample`), and a password comes back exactly when it and the
  nonce are shorter than 2^32 bytes (`RsaBlocks.PasswordRoundTripIff`, `LongNonceExample`).
- Of the tests of the subscription state table those of rows 14 and 15 overlap, and there the order of the tests decides
  what is sent (`ServerSubscription.TestsOverlapIff`, `OverlapExample`).
- A server subscription that counts down to a keep-alive while publishing is enabled never sends it
  (`ServerSubscriptionLaws.KeepAliveSentIff`): from its creation on it stays silent for as long as its items are quiet and
  requests wait, and it does not expire (`KeepAliveNeverComes`).
- A notification made while no publish request waits is dropped (`ServerSubscriptionLaws.NotificationQueuedIff`,
  `NotificationIsDropped`), and a subscription that expires in the interval in which its items change stops the server
  (`PanicsIff`, `ExpiryStopsServer`).
- The highest priority is described as served first; ticks go by rising priority. No ready subscription is passed over by
  a lower one exactly when no request waits or all ready subscriptions have the same priority
  (`PublishOrder.HighestFirstIff`); `StarvingRun` and `HighestIsStarved` are a run in which the highest gets nothing.
- Requests are described as given in turn to subscriptions of equal priority; the lowest id always comes first
  (`PublishOrder.LowestIsServedFirst`).
- A publish request that finds the queue full is described as displacing the oldest one; the code refuses the new one
  exactly when the subscriptions owe no more messages than there are requests over the limit
  (`PublishRequests.RefusedIff`, `NewestIsRefused`). In runs of the server only subscriptions that expire at that moment
  owe any (`ServerRefusesIff`).
- The older unacknowledged messages are described as purged first. That is so within a subscription
  (`Retransmission.OlderGoesFirst`); among all messages exactly when those with smaller keys were sent earlier
  (`PurgesOldestIff`). `JustSentIsPurged` is a run in which the message just sent goes and eight older ones stay.
- The depth gauge is described as limiting how deep the decoder goes. It limits it exactly up to the nesting of data
  values (`DecodingDepth.DepthBoundedIff`, `TowerDecodes`), and not for diagnostic info (`DiagnosticInfoIsUnbounded`).
- Responses sorted by handle are in the order of their requests exactly when those requests belong to one cycle of
  handles (`MessageRuns.TakesInOrderIff`); `WrappedOrderIsLost` is a run past the end of a cycle. A request is lost
  exactly when a later one with its handle replaces its entry (`LostIff`; `InFlightIsLost` and `StoredIsLost` are the two
  ways), which takes at least a whole cycle of requests (`LostIsReissued`).

## Model

| member | source | states |
|---|---|---|
| Wire.ReadI32Written | lib/src/types/encoding.rs:285-293 | Reading a written `Int32` gives it back and leaves the following bytes, for every value of the type. |
| Wire.ReadU32Written | lib/src/types/encoding.rs:295-303 | The same for `UInt32`. |
| Wire.ReadI64Written | lib/src/types/encoding.rs:305-313 | The same for `Int64`. |
| Wire.LeInvertsFromLe | lib/src/types/encoding.rs:384-390 | Little-endian bytes are determined by the number they stand for: writing what was read gives the same bytes. |
| WireFormats.LittleEndian | lib/src/types/encoding.rs:275-303 | Numbers are written with the least significant byte first. |
| WireFormats.TwosComplement | lib/src/types/encoding.rs:275-313 | Signed numbers are written in two's complement of their width. |
| WireFormats.StringLayout | lib/src/types/string.rs:105-118 | A string is its length in bytes as 32 bits, least significant byte first, and its bytes; null is four bytes 0xFF. |
| WireFormats.ByteStringLayout | lib/src/types/byte_string.rs:103-118 | The same for byte strings. |
| WireFormats.CharacterBytes | lib/src/types/string.rs:105-118 | The one to four bytes of every character, by the bits of its code. |
| WireFormats.NodeIdLayout | lib/src/types/node_id.rs:296-335 | The encoding byte 0 to 5 of every node id and what follows it, by kind and size. |
| WireFormats.ExpandedNodeIdLayout | lib/src/types/expanded_node_id.rs:204-258 | 0x80 announces the namespace URI and 0x40 the server index, which follow the node id in that order. |
| WireFormats.QualifiedNameLayout | lib/src/types/qualified_name.rs:67-75 | The namespace index in two bytes, then the name. |
| WireFormats.LocalizedTextLayout | lib/src/types/localized_text.rs:73-94 | 0x01 announces the locale and 0x02 the text, each stored only when it has characters. |
| WireFormats.ExtensionObjectLayout | lib/src/types/extension_object.rs:69-91 | The type, then the byte 0, 1 or 2 for no body, bytes or an XML element, then the body. |
| WireFormats.DateTimeLayout | lib/src/types/date_time.rs:306-348 | Eight bytes of ticks of 100 nanoseconds since 1601; zero before it and the largest number after 9999. |
| WireFormats.UnixEpochExample | lib/src/types/date_time.rs:306-348 | The ticks of the first second of 1970. |
| WireFormats.StringExample | lib/src/types/tests/encoding.rs:94-99 | The bytes of the string example of OPC UA Part 6, section 5.2.2.4. |
| WireFormats.NumericNodeIdExamples | lib/src/types/tests/encoding.rs:161-192 | The bytes of the numeric node id examples of section 5.2.2.9 in their three forms. |
| WireFormats.LargeNodeIdExample | lib/src/types/tests/encoding.rs:196-203 | The bytes of a node id with a 32-bit number. |
| WireFormats.StringNodeIdExample | lib/src/types/tests/encoding.rs:207-217 | The bytes of the string node id example of section 5.2.2.9. |
| WireFormats.DataValueMask | lib/src/types/data_value.rs:478-499 | The mask is the sum of the flags of the parts that follow it. |
| WireFormats.DataValueLayout | lib/src/types/data_value.rs:90-115 | A data value with any of its parts is the mask and then the parts it has: value, status, source time and picoseconds, server time and picoseconds, these only with their time. |
| WireFormats.DiagnosticMask | lib/src/types/diagnostic_info.rs:201-225 | The mask is the sum of the flags of the fields that are present. |
| WireFormats.DiagnosticLayout | lib/src/types/diagnostic_info.rs:110-142 | Diagnostic info with any of its fields is the mask and then the fields it has, the locale before the localized text and the inner info last. |
| Utf8.DecodeInvertsEncode | lib/src/types/string.rs:105-118 | Every string is recovered from its UTF-8 bytes. |
| Utf8.EncodeInvertsDecode | lib/src/types/string.rs:135-143 | Bytes that decode are exactly the encoding of the string they decode to, so no other byte form is accepted. |
| Builtins.StringRoundTrip | lib/src/types/string.rs:95-145 | Within the limits a string, null or not, comes back and the bytes after it are left. |
| Builtins.DecodeString | lib/src/types/string.rs:120-144 | A string that was read took exactly its own `byte_len` bytes and is within the limits. |
| Builtins.ByteStringRoundTrip | lib/src/types/byte_string.rs:93-138 | The same round trip for byte strings. |
| Builtins.StringExtends | lib/src/types/string.rs:120-144 | More input never changes the string that is read. |
| VariantFormats.RunIsRefusedIff | lib/src/types/string.rs:120-144 | A run of bytes is refused exactly when its length is below minus one, above the limit or more than there is. |
| VariantFormats.LongStringIsRefused | lib/src/types/string.rs:120-134 | Strings and byte strings are each held to their own limit. |
| VariantFormats.UnknownFormsAreRefused | lib/src/types/node_id.rs:337-376 | Node id forms above 5 and extension object bodies above 2 are refused. |
| NodeIds.NodeIdRoundTrip | lib/src/types/node_id.rs:276-377 | Every node id within the limits comes back from its compact form. |
| NodeIds.NodeIdLengthExact | lib/src/types/node_id.rs:277-335 | `byte_len` is the number of bytes written, so the assertion at the end of `encode` holds. |
| NodeIds.NodeIdIsCanonical | lib/src/types/node_id.rs:276-377 | Whatever bytes a node id is read from, its own encoding is no longer, and reads back to it. |
| NodeIds.NodeIdExtends | lib/src/types/node_id.rs:337-376 | More input never changes the node id that is read. |
| NodeIds.ExpandedRoundTrip | lib/src/types/expanded_node_id.rs:192-317 | Every expanded node id within the limits comes back, with or without URI and server index. |
| NodeIds.ExpandedLengthExact | lib/src/types/expanded_node_id.rs:193-257 | `byte_len` is the number of bytes written. |
| NodeIds.ExpandedIsCanonical | lib/src/types/expanded_node_id.rs:192-317 | Whatever bytes it is read from, the re-encoding is no longer and reads back to the same value. |
| NodeIds.ExpandedExtends | lib/src/types/expanded_node_id.rs:260-316 | More input never changes the expanded node id that is read. |
| DateTimes.TicksInvertsFromTicks | lib/src/types/date_time.rs:162-174 | Ticks of the instant made from `v` are `v` for every `i64`, negatives included, except the largest, which means the end of time. |
| DateTimes.DateTimeRoundTrip | lib/src/types/date_time.rs:58-75 | Decoding an encoded instant gives it clamped to the range of the wire, cut to ticks and shifted by the clock offset. |
| VariantFormats.TicksRead | lib/src/types/date_time.rs:68-75 | Ticks are read as their instant less the clock offset. |
| DateTimes.NormalDateTimeIsStable | lib/src/types/date_time.rs:306-348 | With no offset the normal form is stable, and it is the instant itself exactly for whole ticks within the range. |
| DateTimes.EncodingIsMonotone | lib/src/types/date_time.rs:306-348 | A later instant never has fewer encoded ticks. |
| Records.LocalizedTextRoundTrip | lib/src/types/localized_text.rs:61-110 | Localized text comes back with empty parts as null. |
| Records.LocalizedTextLengthExact | lib/src/types/localized_text.rs:62-94 | `byte_len` is the number of bytes written. |
| Records.ExtensionObjectRoundTrip | lib/src/types/extension_object.rs:54-113 | An extension object comes back exactly when a level of the depth gauge is free, and is refused otherwise. |
| Records.ExtensionObjectExtends | lib/src/types/extension_object.rs:93-112 | More input never changes the object that is read. |
| Records.DiagnosticInfoRoundTrip | lib/src/types/diagnostic_info.rs:75-180 | Diagnostic info of any nesting comes back, although mask bits and fields are in different orders. |
| Records.DiagnosticInfoLengthExact | lib/src/types/diagnostic_info.rs:76-142 | `byte_len` is the number of bytes written, at every nesting. |
| Records.DecodeDiagnosticInfo | lib/src/types/diagnostic_info.rs:144-179 | Reading ends, since each level takes at least a byte, and takes exactly `byte_len` of what is read. |
| Records.DiagnosticInfoExtends | lib/src/types/diagnostic_info.rs:144-179 | More input never changes the diagnostic info that is read. |
| Records.QualifiedNameRoundTrip | lib/src/types/qualified_name.rs:62-88 | Every qualified name within the limits comes back. |
| Scalars.ScalarRoundTrip | lib/src/types/variant.rs:749-850 | Each of the scalar variant types comes back in its normal form, within the depth gauge. |
| Scalars.ScalarLengthExact | lib/src/types/variant.rs:713-746 | `byte_len` of each scalar is the number of bytes written. |
| Scalars.ScalarExtends | lib/src/types/variant.rs:785-850 | More input never changes the scalar that is read, whatever the type number. |
| VariantFormats.ScalarLayout | lib/src/types/variant_type_id.rs:105-107 | Every kind of scalar as its type number, 0 to 22 and 25, followed by its own bytes. |
| Variants.DecodeVariant | lib/src/types/variant.rs:583-670 | Reading a variant ends on every input and takes at least one byte. |
| VariantLaws.VariantRoundTrip | lib/src/types/variant.rs:472-671 | Variants of any nesting come back in normal form with the rest intact exactly when the depth gauge admits them, and are refused otherwise. |
| VariantFormats.HolderLayout | lib/src/types/variant.rs:526-581 | Data values have type 23 and variants held by variants 24. |
| VariantFormats.ArrayLayout | lib/src/types/array.rs:90-97 | An array is its type with 0x80, and 0x40 when it has dimensions; then the number of values, the values without their types, the number of dimensions and the dimensions. |
| VariantFormats.BooleanReads | lib/src/types/variant.rs:785-790 | Only the byte one reads as true. |
| VariantFormats.UnknownTypeReads | lib/src/types/variant.rs:785-850 | A type number that no type has reads as an empty variant. |
| VariantFormats.LoneDimensionsAreRefused | lib/src/types/variant.rs:663-666 | 0x40 without 0x80 is refused. |
| VariantFormats.ArrayLengthReads | lib/src/types/variant.rs:593-616 | Lengths below minus one are refused, minus one and zero are empty arrays, lengths above the limit are refused with a status of their own. |
| VariantLaws.DataValueRoundTrip | lib/src/types/data_value.rs:65-179 | Data values come back without picoseconds that have no timestamp; the source timestamp is not shifted by the offset. |
| VariantFormats.TimesRead | lib/src/types/data_value.rs:117-178 | The server time of a data value is read less the clock offset and the source time as written; picoseconds are kept exactly with their time. |
| VariantLaws.ArrayRoundTripIff | lib/src/types/variant.rs:583-670 | An array whose values survive comes back with the rest intact exactly when it has no dimensions, or they multiply to a positive number of values. |
| VariantLaws.CheckedProductIs | lib/src/types/variant.rs:633-653 | The product with overflow checks is the product when it fits 32 bits, and none otherwise. |
| VariantLaws.EmptyArrayLosesStep | lib/src/types/variant.rs:590-606 | Re-encoding a decoded empty array writes four bytes that the next decoding leaves in front of what follows. |
| VariantLaws.VariantLengthExact | lib/src/types/variant.rs:473-581 | `byte_len` is the number of bytes written for every variant that can be encoded, so the assertion in `encode` holds. |
| VariantLaws.DataValueLengthExact | lib/src/types/data_value.rs:66-115 | The same for data values. |
| VariantLaws.VariantExtends | lib/src/types/variant.rs:583-670 | More input never changes the variant that is read. |
| VariantLaws.NoPrefixDecodes | lib/src/types/variant.rs:583-670 | No proper prefix of an encoding decodes. |
| VariantLaws.DecodedVariantIsSound | lib/src/types/variant.rs:583-850 | Whatever bytes a variant is read from, it is well typed, within the limits and no deeper than the gauge. |
| VariantLaws.DecodedVariantReencodes | lib/src/types/variant.rs:472-671 | Whatever bytes it was read from, a variant without empty arrays re-encodes to bytes that decode to its normal form. |
| DecodingDepth.DepthBoundedIff | lib/src/types/encoding.rs:60-68 | For variants with at most `k` data values one inside another, a number bounds how deep the decoder goes exactly when it is at least what is left of the limit and `k` more. |
| DecodingDepth.LevelsAreLocksAndData | lib/src/types/variant.rs:583-850 | The levels of a variant are at least its locks and at most its locks and its data values. |
| DecodingDepth.TowerDecodes | lib/src/types/data_value.rs:117-178 | Any number of data values one inside another is read, whatever the limit. |
| DecodingDepth.DiagnosticInfoIsUnbounded | lib/src/types/diagnostic_info.rs:144-179 | Diagnostic info of any nesting is read, whatever the limit. |
| ResponseHeaders.HeaderRoundTrip | lib/src/types/response_header.rs:27-67 | A response header comes back with its timestamp in normal form exactly when a level of the gauge is free for its extension object. |
| ResponseHeaders.HeaderLengthExact | lib/src/types/response_header.rs:28-49 | `byte_len` is the number of bytes written, so the assertion in `encode` holds. |
| ResponseHeaders.HeaderExtends | lib/src/types/response_header.rs:51-67 | More input never changes the header that is read. |
| ResponseHeaders.TableRoundTrip | lib/src/types/encoding.rs:203-243 | An array of strings comes back, with null and empty arrays kept apart. |
| VariantFormats.TableLayout | lib/src/types/encoding.rs:203-217 | A table of strings is minus one, or the number of strings and the strings in order. |
| VariantFormats.ResponseHeaderLayout | lib/src/types/response_header.rs:39-49 | The six fields of a response header in order. |
| Arguments.ArgumentLengthIff | lib/src/types/argument.rs:28-61 | `byte_len` is the number of bytes written exactly when the rank is positive or there are no dimensions. |
| Arguments.RankZeroExample | lib/src/types/argument.rs:28-61 | A scalar argument with one dimension, of which four bytes fewer are written than announced. |
| Arguments.ArgumentDecodes | lib/src/types/argument.rs:37-83 | A consistent argument comes back with the dimensions that were written and its text in normal form. |
| Arguments.ArgumentRoundTripIff | lib/src/types/argument.rs:37-83 | It comes back unchanged exactly when its rank is positive or its dimensions are an empty array, and its text is in normal form. |
| VariantFormats.ArgumentLayout | lib/src/types/argument.rs:38-61 | The fields of an argument in order, with dimensions exactly when the rank is positive. |
| VariantFormats.InconsistentArgumentIsRefused | lib/src/types/argument.rs:38-61 | A positive rank that is not the number of dimensions is refused by the writer. |
| CodecStreams.DepthGauge.Obtain | lib/src/types/encoding.rs:42-59 | A lock is granted exactly below the bound, and only then does the depth grow by one. |
| CodecStreams.ReadExtensionObject | lib/src/types/extension_object.rs:93-112 | Reads what the decoding function describes, and the gauge is back where it was on every way out. |
| CodecStreams.ReadVariant | lib/src/types/variant.rs:583-670 | The same for variants, through all their recursion. |
| CodecStreams.ReadValues | lib/src/types/variant.rs:618-625 | The loop that pushes values reads exactly the array that the recursive description reads. |
| CodecStreams.ReadDimensions | lib/src/types/variant.rs:627-658 | The loop with checked multiplication accepts exactly the dimensions whose 32-bit product is the number of values. |
| CodecStreams.ReadDataValue | lib/src/types/data_value.rs:117-178 | Reads what the decoding function describes and restores the gauge. |
| CodecStreams.WriteVariant | lib/src/types/variant.rs:526-581 | Fails with `BadEncodingError` exactly on an array held directly by an array; otherwise appends the encoding, and the returned size is `byte_len`. |
| CodecStreams.WriteValues | lib/src/types/variant.rs:560-563 | The loop over values appends their encodings and adds up their sizes, or fails at the first array. |
| CodecStreams.WriteDataValue | lib/src/types/data_value.rs:90-115 | Appends the encoding and returns `byte_len`, or fails exactly when the value cannot be encoded. |
| RecordStreams.WriteString | lib/src/types/string.rs:105-118 | Appends the encoding; the returned size is `byte_len`, so the assertion holds. |
| RecordStreams.ReadString | lib/src/types/string.rs:120-144 | Consumes exactly what the decoding function describes. |
| RecordStreams.WriteTable | lib/src/types/encoding.rs:203-217 | The loop of `write_array` appends the encoding and returns `byte_len_array`. |
| RecordStreams.ReadTable | lib/src/types/encoding.rs:220-243 | The loop of `read_array` consumes exactly what the decoding function describes. |
| RecordStreams.WriteNodeId | lib/src/types/node_id.rs:296-335 | Appends the compact encoding and returns `byte_len`. |
| RecordStreams.WriteExpandedNodeId | lib/src/types/expanded_node_id.rs:204-258 | Appends the flagged encoding and returns `byte_len`, so the assertion holds. |
| RecordStreams.WriteLocalizedText | lib/src/types/localized_text.rs:73-94 | The mask built bit by bit and the parts after it are the encoding; the size is `byte_len`. |
| RecordStreams.ReadLocalizedText | lib/src/types/localized_text.rs:96-109 | Consumes exactly what the decoding function describes. |
| RecordStreams.WriteDiagnosticInfo | lib/src/types/diagnostic_info.rs:110-142 | Appends the encoding at every nesting and returns `byte_len`. |
| RecordStreams.ReadDiagnosticInfo | lib/src/types/diagnostic_info.rs:144-179 | Fields assigned one by one give exactly what the decoding function describes; the recursion ends. |
| RecordStreams.WriteResponseHeader | lib/src/types/response_header.rs:39-49 | Appends the encoding and returns `byte_len`, so the assertion holds. |
| RecordStreams.ReadResponseHeader | lib/src/types/response_header.rs:51-67 | Consumes exactly what the decoding function describes and restores the gauge. |
| Schema.FromXml | tools/schema/types.js:126-172 | The loop over the fields collects every field in order and the names of all length fields. |
| Schema.Generate | tools/schema/types.js:600-737 | The passes emit one line per field that is not hidden, in schema order, for `byte_len`, `encode`, `decode` and the literal. |
| SchemaFormats.GeneratedIff | tools/schema/types.js:126-172 | A declared field is generated exactly when no array names it as its length, and is an array exactly when it names one. |
| SchemaFormats.VisibleInOrder | tools/schema/types.js:660-737 | Generated fields keep the order of their declarations. |
| SchemaFormats.StructLayout | tools/schema/types.js:680-704 | The bytes of a structure are the bytes of its fields, in order, with nothing between them. |
| SchemaFormats.FieldLayout | lib/src/types/encoding.rs:203-217 | A null array is four bytes 0xFF; any other its length and its elements, in order. |
| SchemaFormats.EnumLayout | tools/schema/types.js:450-536 | An enumeration is its number in one, two, four or eight bytes, in two's complement. |
| SchemaFormats.BuiltinLayout | tools/schema/types.js:680-704 | A built-in type is stored as in a variant, without the encoding byte. |
| SchemaFormats.UnknownNumber | tools/schema/types.js:450-536 | A number that an enumeration does not have gives its fallback, or is refused when there is none. |
| SchemaFormats.ArrayLengthRefused | lib/src/types/encoding.rs:220-243 | Array lengths below minus one or above the limit are refused; minus one is null, zero empty. |
| SchemaLaws.GeneratedRoundTrip | tools/schema/types.js:600-737 | For every schema, generated `decode` undoes generated `encode` up to the normal forms of the built-in types and leaves the bytes that follow. |
| SchemaLaws.GeneratedLengthExact | tools/schema/types.js:660-704 | For every schema, generated `byte_len` is the number of bytes generated `encode` writes. |
| SchemaLaws.GeneratedExtends | tools/schema/types.js:706-737 | For every schema, more input never changes what generated `decode` returns. |
| SchemaLaws.EnumRoundTrip | tools/schema/types.js:450-536 | Every value of an enumeration comes back from its own width, and the length is that width. |
| ExtensionPayloads.PayloadComesBack | lib/src/types/extension_object.rs:144-180 | For every schema, the zeroed buffer is filled exactly and `decode_inner` returns the structure in normal form. |
| ExtensionPayloads.PayloadCrossesWire | lib/src/types/extension_object.rs:54-180 | The same after the extension object itself was encoded and decoded. |
| BrowseName.EscapeBrowseName | lib/src/types/relative_path.rs:369-375 | The loop of replacements computes the chain over all reserved characters. |
| BrowseName.UnescapeBrowseName | lib/src/types/relative_path.rs:378-384 | The loop of replacements computes the unescaping chain. |
| BrowseName.EscapeChainIsEscape | lib/src/types/relative_path.rs:366-375 | The eight whole-string replacements are one pass that puts `&` before each reserved character. |
| TextFormats.EscapedCharacters | lib/src/types/relative_path.rs:366-375 | Exactly the eight characters `& / . < > : # !` are written after `&`, every other as itself. |
| BrowseName.UnescapeInvertsEscape | lib/src/types/relative_path.rs:366-384 | Every name is recovered from its escaped form. |
| BrowseName.UnescapeIsOnePassIff | lib/src/types/relative_path.rs:378-384 | On any text, unescaping is one left-to-right pass exactly when no `&&` is followed by a bare reserved character. |
| BrowseName.UnescapeClashExample | lib/src/types/relative_path.rs:378-384 | A text on which it is not. |
| RelativePathElement.TargetRoundTripIff | lib/src/types/relative_path.rs:394-426 | A printed target is read back exactly when it is null in namespace zero, or has a one-digit namespace and a non-empty name on one line. |
| RelativePathElement.BracketedRoundTrip | lib/src/types/relative_path.rs:240-349 | With any resolver that maps the printed name back, a bracketed element is read back. |
| RelativePathElement.ElementRoundTripIff | lib/src/types/relative_path.rs:98-349 | With the default resolvers an element is read back exactly when it is representable. |
| TextFormats.AbbreviatedText | lib/src/types/relative_path.rs:311-349 | Forward references of type 33 with subtypes print as `/`, of type 44 as `.`, followed by the target. |
| TextFormats.AbbreviatedElements | lib/src/types/relative_path.rs:240-309 | For every representable target, `/` parses to the reference type 33 and `.` to 44, forward and with subtypes, with any resolver. |
| TextFormats.BracketedText | lib/src/types/relative_path.rs:311-349 | Every other reference prints in brackets, `#` without subtypes, `!` when inverse, then namespace and name. |
| TextFormats.BracketedElements | lib/src/types/relative_path.rs:240-309 | `<`, `<#`, `<!` and `<#!` parse to their pairs of flags, for every target and every name that the resolver maps back. |
| TextFormats.TargetText | lib/src/types/relative_path.rs:98-121 | A target prints as nothing, or as its namespace, a colon and its escaped name. |
| TextFormats.LeadingTextIsIgnored | lib/src/types/relative_path.rs:240-309 | Text before the first `/`, `.` or `<` is passed over, and text without any is refused. |
| TextFormats.ReferenceTypeExamples | lib/src/types/relative_path.rs:125-204 | The numbers and names of four of the 27 reference types that the default resolvers know. |
| TextFormats.OtherNamesResolveToThemselves | lib/src/types/relative_path.rs:125-161 | A name outside namespace 0 or outside the table resolves to a string node id of that name, and back. |
| RelativePathElement.TwoDigitNamespaceIsLost | lib/src/types/relative_path.rs:394-426 | An element with namespace ten that is not read back. |
| RelativePath.FromStr | lib/src/types/relative_path.rs:42-96 | The tokenizer's loop computes the parse of the whole path, limits included. |
| RelativePath.PrintPath | lib/src/types/relative_path.rs:351-363 | The printing loop joins the printed elements, or fails when one has no name. |
| RelativePath.PathOfTokens | lib/src/types/relative_path.rs:42-96 | Whole tokens, printed one after another, are cut apart again exactly where they were joined. |
| RelativePath.PathRoundTripIff | lib/src/types/relative_path.rs:42-96 | A path is read back exactly when it has at most 32 elements, each representable and of at most 256 bytes. |
| RelativePath.NamedPathRoundTrip | lib/src/types/relative_path.rs:42-96 | With any resolver that maps the printed names back, a path of at most 32 elements of at most 256 bytes is read back. |
| TextFormats.TwoElements | lib/src/types/relative_path.rs:42-96 | The elements of a path are read in the order in which they are written. |
| NodeIdText.IdentifierRoundTripIff | lib/src/types/node_id.rs:38-67 | An identifier is read back exactly when it is neither null nor empty and, if a name, on one line. |
| NodeIdText.NodeIdRoundTripIff | lib/src/types/node_id.rs:137-145 | A node id is read back exactly when its identifier is. |
| TextFormats.NodeIdTexts | lib/src/types/node_id.rs:38-145 | The text of every kind of node id, letter by letter. |
| TextFormats.LargeNumbersAreRefused | lib/src/types/node_id.rs:383-418 | Namespace indices above 16 bits and numbers above 32 are refused. |
| NodeIdText.EscapeChainIsEscape | lib/src/types/expanded_node_id.rs:361-366 | The two replacements of the printer escape each character on its own. |
| NodeIdText.UnescapeChainIsOnePass | lib/src/types/expanded_node_id.rs:405-411 | The two replacements of the parser are one pass, on every text. |
| NodeIdText.UnescapeInvertsEscape | lib/src/types/expanded_node_id.rs:355-411 | Every URI is recovered. |
| NodeIdText.ExpandedRoundTripIff | lib/src/types/expanded_node_id.rs:355-434 | An expanded node id is read back exactly when one of index and URI locates it and its identifier is printable. |
| TextFormats.ExpandedNodeIdTexts | lib/src/types/expanded_node_id.rs:355-375 | `svr=` and the server index, then the node id, or `nsu=` and the URI with `%25` and `%3b` in place of the index. |
| NodeIdText.NamespaceZeroIsRefused | lib/src/types/expanded_node_id.rs:355-434 | The printed form of a node id in namespace zero is refused. |
| NumericRanges.FromStr | lib/src/types/numeric_range.rs:158-188 | The loop over the parts computes the parse of the whole text. |
| NumericRanges.ParsedIsParsable | lib/src/types/numeric_range.rs:156-281 | Every accepted text parses to a valid range that has the shape of a printed one. |
| NumericRanges.RoundTripIff | lib/src/types/numeric_range.rs:198-281 | A range is read back exactly when it is valid and, if a list, has two to ten members, none empty. |
| TextFormats.RangeTexts | lib/src/types/numeric_range.rs:198-212 | The text of every range: a number, two numbers with a colon, or a list with commas. |
| TextFormats.NumberReads | lib/src/types/numeric_range.rs:214-238 | One to ten digits, leading zeros included, are an index exactly when their value fits 32 bits. |
| TextFormats.RangeReads | lib/src/types/numeric_range.rs:214-255 | Two numbers are a range exactly when they increase and fit 32 bits. |
| NumericRanges.ValidIsNotEnough | lib/src/types/numeric_range.rs:263-281 | Valid lists of one and of eleven that are not. |
| OperandPath.NoBorder | lib/src/types/operand.rs:427-428 | No proper suffix of the placeholder is also a prefix of it. |
| OperandPath.BrowsePathIsOnePass | lib/src/types/operand.rs:427-437 | Replace, split and replace back is one pass in which the placeholder also stands for an escaped slash, on every path. |
| OperandPath.BrowsePathIffNoPlaceholder | lib/src/types/operand.rs:427-437 | A path is split as intended exactly when it does not contain the placeholder. |
| OperandPath.PathText | lib/src/types/operand.rs:427-437 | A bare slash separates names and an escaped one belongs to the name. |
| OperandPath.PlaceholderExample | lib/src/types/operand.rs:427-437 | The placeholder itself, as a path, is not. |
| Chunks.PaddingRoundTrip | lib/src/core/comms/secure_channel.rs:412-512 | Padding fills whole blocks, and the receiver finds exactly the padding that was added. |
| Chunks.PaddingLayout | lib/src/core/comms/secure_channel.rs:412-512 | The bytes of the padding: their number less one, repeated; for long keys their number less two, low byte repeated and high byte last. |
| Chunks.ShortPadding | lib/src/core/comms/secure_channel.rs:861-903 | With one padding byte the range is found exactly up to 256 bytes of padding. |
| Chunks.LongPadding | lib/src/core/comms/secure_channel.rs:861-903 | With two padding bytes it is found exactly up to 65537. |
| Chunks.VerifyPaddingBytes | lib/src/core/comms/secure_channel.rs:839-903 | The loop over the padding bytes decides as described, bounds included. |
| Chunks.FullChunkFitsIff | lib/src/core/comms/message_chunk.rs:237-271 | A full chunk with padding and signature stays within the limit exactly under a condition on the limit, the headers and the block size. |
| Chunks.FullChunkExample | lib/src/core/comms/message_chunk.rs:237-271 | A limit of 65535 bytes for which it has 65536. |
| Chunker.InfoOfNewChunk | lib/src/core/comms/message_chunk.rs:186-232 | A chunk is read back with its type, final flag, channel, numbers and body. |
| Chunker.ChunkLayout | lib/src/core/comms/message_chunk.rs:186-232 | A chunk byte for byte: three letters of the message type, the letter of its end, size, channel, security header, sequence number, request id, body. |
| Chunker.UnknownLettersAreRefused | lib/src/core/comms/message_chunk.rs:89-112 | Headers with other letters are refused. |
| Chunker.EncodeChunks | lib/src/core/comms/chunker.rs:159-192 | The loop makes one chunk per piece, numbered from the given number, the last one final. |
| Chunker.PiecesAreFull | lib/src/core/comms/chunker.rs:159-192 | Every piece but the last is as long as the limit. |
| Chunker.ValidateChunks | lib/src/core/comms/chunker.rs:45-100 | Chunks are accepted exactly when their numbers are consecutive from one that is not too low, with one request id and the right channel; the last number is returned, and otherwise the error of the first chunk at fault. |
| Chunker.Reassemble | lib/src/core/comms/chunker.rs:199-231 | The data is put together exactly when every chunk can be read and only the last is final; it is the bodies in order. |
| Chunker.ChunkRoundTrip | lib/src/core/comms/chunker.rs:45-231 | For every message, limit and channel the chunks are accepted and their bodies are the message, each within the limit. |
| RsaBlocks.EncryptLength | lib/src/crypto/pkey.rs:73-93 | The cipher text of every message has the calculated size. |
| RsaBlocks.DecryptInvertsEncrypt | lib/src/crypto/pkey.rs:203-368 | Every message is recovered from every one of its cipher texts. |
| RsaBlocks.BlocksInOrder | lib/src/crypto/pkey.rs:83-93 | Messages are cut from the front into blocks that leave 11, 42 or 66 bytes to the padding. |
| RsaBlocks.DecryptNeedsWholeBlocks | lib/src/crypto/pkey.rs:203-238 | Slices stay in bounds on whole blocks, and a partial block never yields a text. |
| RsaBlocks.PublicEncrypt | lib/src/crypto/pkey.rs:317-368 | The loop fills exactly the calculated size when there is room for it, and runs out of bounds otherwise. |
| RsaBlocks.PrivateDecrypt | lib/src/crypto/pkey.rs:203-238 | For every buffer, the loop leaves the plain text at its start, fails on a bad block, and runs out of bounds on a partial block or when a whole block does not fit. |
| RsaBlocks.RoomIsEnough | lib/src/crypto/pkey.rs:203-238 | A buffer as long as the input always has room. |
| RsaBlocks.LegacyPasswordEncrypt | lib/src/crypto/user_identity.rs:122-151 | The secret is the cipher text of length, password and nonce; its assertion on the size holds. |
| RsaBlocks.LegacyPasswordDecrypt | lib/src/crypto/user_identity.rs:155-190 | Decides as described, error by error. |
| RsaBlocks.PasswordRoundTripIff | lib/src/crypto/user_identity.rs:122-190 | A password is recovered exactly when it and the nonce are shorter than 2^32 bytes together. |
| RsaBlocks.LongNonceExample | lib/src/crypto/user_identity.rs:122-190 | A nonce with which no password is recovered. |
| RsaBlocks.OtherNonceIsRefused | lib/src/crypto/user_identity.rs:155-190 | Another nonce of the same length is refused. |
| RsaBlocks.SecretsRefused | lib/src/crypto/user_identity.rs:155-190 | The status for each way in which a secret is refused, and the inputs that stop the call. |
| KeyDerivation.PSha | lib/src/crypto/hash.rs:28-60 | The loop returns the first bytes of the endless stream of the key derivation, for every length. |
| KeyDerivation.PHashIsPrefix | lib/src/crypto/hash.rs:28-60 | Asking for more bytes never changes those already given. |
| KeyDerivation.FirstCodes | lib/src/crypto/hash.rs:28-60 | The first two codes of the stream, written out. |
| KeyDerivation.MakeSecureChannelKeys | lib/src/crypto/security_policy.rs:477-505 | Signing key, encrypting key and initialization vector have the lengths of the policy, as numbers for each of the five, and are together one stretch of the stream. |
| ClientSubscription.Subscription.InsertMonitoredItems | lib/src/client/subscription.rs:292-308 | The loop applies each creation to both maps, in order. |
| ClientSubscription.InsertAllChanges | lib/src/client/subscription.rs:292-308 | The last creation of an id decides every field of its item, and the last with a handle where it leads. |
| ClientSubscription.InsertAllFrame | lib/src/client/subscription.rs:292-308 | Items and handles that no creation names stay. |
| ClientSubscription.Subscription.ModifyMonitoredItems | lib/src/client/subscription.rs:310-317 | The modifications are applied in order to the items that exist. |
| ClientSubscription.ModifyAllChanges | lib/src/client/subscription.rs:310-317 | The last modification of an item sets its sampling interval and queue size, and no other field. |
| ClientSubscription.ModifyAllFrame | lib/src/client/subscription.rs:310-317 | Modifications add, remove and rename nothing, and leave items that none names. |
| ClientSubscription.DeleteAllChanges | lib/src/client/subscription.rs:319-326 | Deletion leaves exactly the items that are not named and the handles that lead to them. |
| ClientSubscription.Subscription.DeleteMonitoredItems | lib/src/client/subscription.rs:319-326 | The loop removes each known item and its handle, in order. |
| ClientSubscription.Subscription.OnDataChange | lib/src/client/subscription.rs:350-388 | It panics exactly when a value has a handle that leads to no item; otherwise state and callbacks are those of the description, notification by notification. |
| ClientSubscription.DeliveredIsExact | lib/src/client/subscription.rs:350-388 | The callback gets exactly the items with known handles, each with its own values in order and the last of them as last value; values are empty afterwards and other items are unchanged. |
| ClientSubscription.ValuesInOrder | lib/src/client/subscription.rs:350-388 | Values reach an item in the order of the notification, each by its handle. |
| ClientSubscription.CallsInOrder | lib/src/client/subscription.rs:350-388 | Notifications are dispatched in order, each on the state that the one before left. |
| ClientSubscription.SettledItem | lib/src/client/subscription.rs:350-388 | After a notification an item holds the last value it received, no values, and its other fields as they were. |
| ClientSubscription.InsertKeepsInverseIff | lib/src/client/subscription.rs:292-308 | An insertion keeps the maps inverse exactly when id and handle are new or already belong together. |
| ClientSubscription.EveryRunIsDispatchable | lib/src/client/subscription.rs:292-388 | In every run of such insertions, changes, deletions and notifications the maps stay inverse, so no unwrapping fails. |
| ClientSubscription.ReinsertionLeavesHandle | lib/src/client/subscription.rs:292-388 | An insertion under a new handle and a deletion that leave a handle without item, and a value that then stops the client. |
| SubscriptionStates.LeastTimeoutIsLeast | lib/src/client/subscription_state.rs:157-163 | The minimum taken over the subscriptions in any order is the least timeout, and none exactly when there are none. |
| SubscriptionStates.TimeoutIs | lib/src/client/subscription_state.rs:157-163 | The timeout is the publishing interval times the lifetime count, rounded down and kept within 64 bits. |
| SubscriptionStates.SubscriptionState.SetKeepAliveTimeout | lib/src/client/subscription_state.rs:157-163 | The loop caches that minimum. |
| SubscriptionStates.StepKeepsLeast | lib/src/client/subscription_state.rs:48-143 | Every operation, whether it computes the cache again or leaves it alone, keeps it the least timeout. |
| SubscriptionStates.EveryRunIsLeast | lib/src/client/subscription_state.rs:48-163 | In every state of every run the cache is the least timeout of the live subscriptions. |
| SubscriptionStates.SubscriptionState.SetPublishingMode | lib/src/client/subscription_state.rs:79-89 | The loop changes the mode of the named subscriptions and nothing else, the cache included. |
| SubscriptionStates.AlterChanges | lib/src/client/subscription_state.rs:48-89 | Which fields of which subscription each operation changes, and which it leaves. |
| MessageQueues.HandlesRepeatIff | lib/src/core/handle.rs:22-31 | Two handles are equal exactly when a whole number of cycles lies between them. |
| MessageQueues.MessageQueue.StoreResponse | lib/src/client/message_queue.rs:99-128 | A response goes to the waiting caller or is stored, and one without request changes nothing. |
| MessageQueues.MessageQueue.AsyncResponses | lib/src/client/message_queue.rs:132-144 | Every stored response is taken, in rising order of handle. |
| MessageRuns.EveryRunConserves | lib/src/client/message_queue.rs:37-144 | In every run, past any number of cycles of handles, each request is in exactly one place: in flight, stored, delivered, taken, timed out, cleared or lost. |
| MessageRuns.StepFates | lib/src/client/message_queue.rs:72-144 | A response goes to the caller that waits and is stored otherwise; which event moves a request where. |
| MessageRuns.StepKeepsEntries | lib/src/client/message_queue.rs:99-128 | A stored response is the one that answered the request, and whether a caller waits does not change. |
| MessageRuns.LostIff | lib/src/client/message_queue.rs:72-128 | A request is lost exactly when its handle is issued again while it is in flight, or the response to a later request with its handle is stored while its own is. |
| MessageRuns.InFlightIsLost | lib/src/client/message_queue.rs:72-81 | A run that loses a request in flight, whose handle is issued again. |
| MessageRuns.StoredIsLost | lib/src/client/message_queue.rs:99-128 | A run that loses a stored response, though not yet when its handle is issued again. |
| MessageRuns.LostIsReissued | lib/src/core/handle.rs:22-31 | At least a whole cycle of requests follows a request that is lost, so none is lost within one cycle. |
| MessageRuns.FrugalRunLosesNothing | lib/src/client/message_queue.rs:72-128 | A run that issues handles again only when they are free loses no request. |
| MessageRuns.LateResponseIsIgnoredIff | lib/src/client/message_queue.rs:99-128 | A response to a request no longer in flight changes nothing exactly when no later request a whole number of cycles away is in flight; otherwise it is taken for the response to that one. |
| MessageRuns.TakesInOrderIff | lib/src/client/message_queue.rs:130-144 | In every run that issues handles again only when they are free, responses are taken in the order of their requests exactly when those requests belong to one cycle of handles. |
| MessageRuns.EveryRunTakesInOrder | lib/src/client/message_queue.rs:130-144 | In every run within one cycle of handles they are. |
| MessageRuns.WrappedOrderIsLost | lib/src/client/message_queue.rs:130-144 | A run past the end of a cycle, with every handle free when it is issued, in which the request issued last is taken first. |
| ContinuationPoints.EveryRunIsSound | lib/src/server/session.rs:458-511 | In every run the queue is within its bound, in order of insertion, and evicts no point with fewer newer ones than the bound. |
| ContinuationPoints.Session.AddBrowseContinuationPoint | lib/src/server/session.rs:458-472 | The loop keeps the newest points and adds the new one; it never returns exactly for a bound of zero. |
| ContinuationPoints.Session.FindBrowseContinuationPoint | lib/src/server/session.rs:475-488 | The first point with the id is returned and leaves the queue; without one nothing changes. |
| ContinuationPoints.Session.RemoveExpiredBrowseContinuationPoints | lib/src/server/session.rs:490-501 | Exactly the points older than the address space go, and the order stays. |
| ContinuationPoints.Session.RemoveBrowseContinuationPoints | lib/src/server/session.rs:504-511 | Exactly the named points go, and the order stays. |
| ServerSubscription.TestsOverlapIff | lib/src/server/subscriptions/subscription.rs:635-832 | Two tests of the state table hold together exactly when they are those of rows 14 and 15, the keep-alive count has run out, publishing is enabled and notifications and a request wait. |
| ServerSubscription.OverlapExample | lib/src/server/subscriptions/subscription.rs:776-800 | A state in which both hold and ask for different actions; the first one wins. |
| ServerSubscription.Subscription.UpdateState | lib/src/server/subscriptions/subscription.rs:592-835 | The chain of tests finds the first row whose test holds, does what the row says, and panics exactly on a counter below zero or on impossible inputs. |
| ServerSubscription.Subscription.RunTick | lib/src/server/subscriptions/subscription.rs:421-564 | A tick does what the description says, panics included. |
| ServerSubscription.TickKeepsNumbered | lib/src/server/subscriptions/subscription.rs:421-564 | No tick queues a message out of turn: the check on sequence numbers never fails. |
| ServerSubscriptionLaws.PanicsIff | lib/src/server/subscriptions/subscription.rs:503-564 | A tick panics exactly when the subscription expires in an interval in which its items have something to report. |
| ServerSubscriptionLaws.ExpiryStopsServer | lib/src/server/subscriptions/subscription.rs:549-552 | A run that ends in that panic. |
| ServerSubscriptionLaws.NotificationQueuedIff | lib/src/server/subscriptions/subscription.rs:503-564 | A notification is queued exactly when publishing is enabled, a request waits and the subscription is not late; otherwise it is dropped and its number used again. |
| ServerSubscriptionLaws.NotificationIsDropped | lib/src/server/subscriptions/subscription.rs:510-519 | A run in which a notification is made and never sent. |
| ServerSubscriptionLaws.KeepAliveSentIff | lib/src/server/subscriptions/subscription.rs:768-828 | With the count run out and a request waiting, a keep-alive is sent exactly when publishing is disabled. |
| ServerSubscriptionLaws.StallsForEver | lib/src/server/subscriptions/subscription.rs:769-828 | With publishing enabled and nothing to report, no sequence of timer ticks and publish requests changes such a subscription. |
| ServerSubscriptionLaws.KeepAliveNeverComes | lib/src/server/subscriptions/subscription.rs:652-828 | From its creation, for every keep-alive count and every lifetime at least three above it: after the first keep-alive and the countdown, no quiet sequence of any length makes the subscription send another or expire. |
| ServerSubscriptionLaws.LivesForLifetime | lib/src/server/subscriptions/subscription.rs:592-835 | Without requests a subscription lives exactly as many intervals as its lifetime counter says, whatever its items report; in the last one it closes, or panics when they do. |
| SubscriptionTable.CreatingTick | lib/src/server/subscriptions/subscription.rs:652-663 | What the first tick does, whatever its reason. |
| SubscriptionTable.ExpiringTick | lib/src/server/subscriptions/subscription.rs:635-650 | With the lifetime run out: closed with a status change, or stopped. |
| SubscriptionTable.NormalArrival | lib/src/server/subscriptions/subscription.rs:664-684 | What the arrival of a request does to a normal subscription. |
| SubscriptionTable.LateArrival | lib/src/server/subscriptions/subscription.rs:736-760 | A late subscription that a request reaches has its whole lifetime again; it is normal when it may publish and has something to send, and otherwise sends a keep-alive and keeps alive. |
| SubscriptionTable.KeepAliveArrival | lib/src/server/subscriptions/subscription.rs:769-775 | What the arrival of a request does to one that keeps alive. |
| SubscriptionTable.NormalInterval | lib/src/server/subscriptions/subscription.rs:685-735 | The whole state of a normal subscription after an interval: counters, phase, message and number. |
| SubscriptionTable.LateInterval | lib/src/server/subscriptions/subscription.rs:761-768 | The same for a late one. |
| SubscriptionTable.KeepAliveInterval | lib/src/server/subscriptions/subscription.rs:776-828 | The same for one that keeps alive. |
| SubscriptionTable.BetweenIntervals | lib/src/server/subscriptions/subscription.rs:592-835 | Between intervals the timer changes nothing. |
| SubscriptionTable.CountersAfterSending | lib/src/server/subscriptions/subscription.rs:664-828 | Both counters after every tick that sends a message. |
| SubscriptionTable.LivesAfterLateService | lib/src/server/subscriptions/subscription.rs:736-760 | Counted from the request that reached it late, a subscription lives exactly as many intervals without request as its maximum. |
| SubscriptionTable.LivesAfterNormalService | lib/src/server/subscriptions/subscription.rs:685-712 | Counted from the interval in which it answered a request, exactly one fewer. |
| SubscriptionTable.Services | lib/src/server/subscriptions/subscription.rs:993-1090 | What modification, publishing mode and other services do to limits and counters. |
| ServerSubscriptionLaws.ClosedIsFinal | lib/src/server/subscriptions/subscription.rs:592-835 | A closed subscription never changes. |
| ServerSubscriptionLaws.EveryRunIsSound | lib/src/server/subscriptions/subscription.rs:421-564 | In every run messages are numbered consecutively, wrapping to one, wait in order, counters stay positive, and a status change is sent once, last, on closing. |
| ServerSubscriptionLaws.EveryPanicIsExpiry | lib/src/server/subscriptions/subscription.rs:421-564 | In every run the only panic is an expiry that coincides with a notification. |
| PublishEngine.VisitKeepsLine | lib/src/server/subscriptions/subscriptions.rs:230-262 | Pairing never changes the order of requests, answered first and waiting after. |
| PublishEngine.FlushKeepsPaired | lib/src/server/subscriptions/subscriptions.rs:264-293 | Making responses changes nothing about which message answers which request. |
| PublishEngine.FlushAnnounces | lib/src/server/subscriptions/subscriptions.rs:264-293 | Each transmission becomes a response, in order, that announces more exactly when a later one of the same tick belongs to its subscription. |
| PublishEngine.FlushRetains | lib/src/server/subscriptions/subscriptions.rs:264-293 | Exactly the keys transmitted are added to the retransmission queue, each with a message transmitted under it; what it held otherwise stays. |
| PublishEngine.LeavesIff | lib/src/server/subscriptions/subscriptions.rs:230-262 | A visited subscription leaves exactly when its tick closed it and there are requests for all its messages. |
| PublishRuns.TickAllKeeps | lib/src/server/subscriptions/subscriptions.rs:206-299 | A tick keeps the invariant, and leaves at most four messages per subscription to retransmit, of subscriptions that exist. |
| PublishRuns.ResponsesAreConsecutive | lib/src/server/subscriptions/subscriptions.rs:206-299 | In every run the responses of every subscription, also of those that have expired or been removed, carry consecutive numbers from one: none skipped, repeated or out of order; a status change is the last of them. |
| PublishRuns.RequestsAreAnsweredInTurn | lib/src/server/subscriptions/subscriptions.rs:135-342 | In every run requests are answered in the order of acceptance and at most once; each is answered or waits, or has expired and then neither. |
| PublishOrder.VisitAllPanicsIff | lib/src/server/subscriptions/subscriptions.rs:230-262 | A tick panics exactly when some subscription expires while its items report, so a subscription is never missing when its turn comes. |
| PublishOrder.HighestFirstIff | lib/src/server/subscriptions/subscriptions.rs:212-262 | No request goes to a subscription before a ready one of higher priority, exactly when no request waits or all ready subscriptions have one priority. |
| PublishOrder.LowestIsServedFirst | lib/src/server/subscriptions/subscriptions.rs:212-262 | The first request of a tick goes to a ready subscription of the lowest priority, among equals always to the lowest id. |
| PublishOrder.StarvingRun | lib/src/server/subscriptions/subscriptions.rs:135-299 | A run with two subscriptions, of the lowest and of the highest priority, and one request. |
| PublishOrder.HighestIsStarved | lib/src/server/subscriptions/subscriptions.rs:212-262 | In the next interval both are ready, the lowest gets the request and the highest becomes late. |
| PublishServer.SortByPriority | lib/src/server/subscriptions/subscriptions.rs:212-224 | All subscriptions, by rising priority and by id among equals. |
| PublishServer.Clean | lib/src/server/subscriptions/subscriptions.rs:478-501 | Of the messages of existing subscriptions those with the greatest keys are kept, as many as the limit allows. |
| PublishServer.Subscriptions.TickSubscriptions | lib/src/server/subscriptions/subscriptions.rs:206-299 | A tick is a step of the engine with the subscriptions by rising priority, or panics, exactly when some subscription expires while its items report. |
| PublishRequests.TickTakesRequests | lib/src/server/subscriptions/subscriptions.rs:206-299 | A tick takes as many requests as the subscriptions owe messages, as far as they go. |
| PublishRequests.NothingOwedIff | lib/src/server/subscriptions/subscriptions.rs:230-262 | They owe none exactly when none is ready. |
| PublishRequests.RefusedIff | lib/src/server/subscriptions/subscriptions.rs:131-168 | A request is refused exactly when the queue is full and the subscriptions owe no more messages than there are requests over the limit. |
| PublishRequests.EveryServerRunIsTidy | lib/src/server/subscriptions/subscriptions.rs:135-299 | In every run of the server, while requests wait no subscription is late or has anything to send. |
| PublishRequests.ServerRefusesIff | lib/src/server/subscriptions/subscriptions.rs:131-168 | In every run of the server, a request at a full queue is refused exactly when no more subscriptions expire at that moment than there are requests over the limit. |
| PublishRequests.NewestIsRefused | lib/src/server/subscriptions/subscriptions.rs:131-168 | A run with one subscription and two waiting requests, after which the next request is refused and the two stay. |
| Retransmission.OlderGoesFirst | lib/src/server/subscriptions/subscriptions.rs:478-501 | In every run, of the messages of a subscription in one cycle of numbers no newer one is purged while an older one is kept. |
| Retransmission.PurgesOldestIff | lib/src/server/subscriptions/subscriptions.rs:487-499 | Keeping the greatest keys purges the oldest messages, however many are kept, exactly when messages with smaller keys were sent earlier. |
| Retransmission.JustSentIsPurged | lib/src/server/subscriptions/subscriptions.rs:478-501 | A run in which the message just sent is purged and eight older ones are kept. |
| PublishServer.Subscriptions.EnqueuePublishRequest | lib/src/server/subscriptions/subscriptions.rs:135-168 | A tick when the queue is full, then a refusal when it still is, or acceptance and another tick; refused exactly under the condition of `RefusedIff` on the state before the call. It never panics. |
| PublishServer.Subscriptions.ExpireStalePublishRequests | lib/src/server/subscriptions/subscriptions.rs:303-342 | Exactly the stale requests leave the queue and get a fault, oldest first, and the invariant is kept. |

## Left out

- Sockets, tasks, timers, threads and locks: what clocks, channels and monitored items answer is a parameter of the model.
- OpenSSL, X.509 and the certificate store: one-block RSA and HMAC are function values whose laws are preconditions.
- JSON forms, and the text of UUIDs and of base64, which are function values with their laws as preconditions.
- The address space, the services, monitored items on the server and the filters of events.
- Errors of the underlying stream: a stream is a complete sequence of bytes and can always be written.
- Floating point: `Float` and `Double` are their bits on the wire; publishing intervals are real numbers, without NaN.
- Instants that no `i64` of ticks can express (after the year 30828) and the limits of the calendar library.
- Generated unions and option sets (tools/schema/types.js:420-448 and 739-893), and the text and naming of the emitted code.
- Signing, encryption and decryption of chunks with the channel keys (lib/src/core/comms/secure_channel.rs:552-1265), and the choice of the message type by its node id.
- Settings that are copied without being used: monitored node, monitoring mode and triggered items of a client's monitored item.
- The contents of publish requests and responses other than their identity, subscription, message and `more` flag; results of acknowledgements.
- Chunker.ValidateChunks: sequence numbers that pass 2^32 within one message are refused; in the source the addition overflows.
- RsaBlocks.PrivateDecrypt: says nothing about the buffer after the plain text.
- ClientSubscription.Subscription.OnDataChange: the callback's items are a map, since the source passes them in no fixed order.
- SubscriptionStates.SubscriptionState.UpdateSubscription: one operation stands for the methods that pass work on to a subscription.
- PublishServer.Subscriptions.EnqueuePublishRequest: leaves out the acknowledgements that come with a request; they are an operation of `PublishRuns.Step`.
- ServerSubscriptionLaws.EveryRunIsSound: assumes the revised counters, a lifetime of at least two and a keep-alive count of at least one.
- ServerSubscription.Subscription.RunTick: leaves out the panics on a clock that goes back and on an interval that is not positive (lib/src/server/subscriptions/subscription.rs:410 and 435); whether the interval is over is a parameter.
- ServerSubscriptionLaws.EveryPanicIsExpiry: leaves out the same two panics.
- ContinuationPoints.Session.AddBrowseContinuationPoint: does not tell apart the two ways of never returning; with debug logging the call panics, without it loops.
- MessageRuns.EveryRunConserves: a reset of the session, which clears the queue and restarts the handles, begins a new run.
