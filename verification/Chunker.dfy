/** Messages cut into numbered chunks, checked and put together again
    (lib/src/core/comms/{chunker,message_chunk,message_chunk_info,security_header}.rs). */
module Chunker {
  import opened Prelude
  import opened Wire
  import opened UaTypes
  import opened Builtins
  import opened Chunks

  // ---------------------------------------------------------------- headers

  datatype MessageType = Message | OpenSecureChannel | CloseSecureChannel
  datatype IsFinal = Intermediate | Final | FinalError

  datatype ChunkHeader = ChunkHeader(messageType: MessageType, isFinal: IsFinal, messageSize: u32, channelId: u32)

  datatype SecurityHeader =
    | Asymmetric(policyUri: UAString, certificate: ByteString, thumbprint: ByteString)
    | Symmetric(tokenId: u32)

  datatype SequenceHeader = SequenceHeader(sequenceNumber: u32, requestId: u32)

  /** The codes MSG, OPN and CLO. */
  function TypeCode(t: MessageType): bytes {
    match t
    case Message => [77, 83, 71]
    case OpenSecureChannel => [79, 80, 78]
    case CloseSecureChannel => [67, 76, 79]
  }

  /** The codes C, F and A. */
  function FinalCode(f: IsFinal): u8 {
    match f
    case Intermediate => 67
    case Final => 70
    case FinalError => 65
  }

  function EncodeChunkHeader(h: ChunkHeader): bytes {
    TypeCode(h.messageType) + [FinalCode(h.isFinal)] + WriteU32(h.messageSize) + WriteU32(h.channelId)
  }

  function DecodeChunkHeader(s: bytes): Decoded<ChunkHeader> {
    var (code, s) :- Take(s, 3);
    if code != TypeCode(Message) && code != TypeCode(OpenSecureChannel) && code != TypeCode(CloseSecureChannel)
    then Bad(BadDecodingError)
    else
      var messageType :=
        if code == TypeCode(Message) then Message
        else if code == TypeCode(OpenSecureChannel) then OpenSecureChannel else CloseSecureChannel;
      var (f, s) :- ReadU8(s);
      if f != 67 && f != 70 && f != 65 then Bad(BadDecodingError)
      else
        var isFinal := if f == 70 then Final else if f == 67 then Intermediate else FinalError;
        var (messageSize, s) :- ReadU32(s);
        var (channelId, s) :- ReadU32(s);
        Got(ChunkHeader(messageType, isFinal, messageSize, channelId), s)
  }

  function EncodeSecurity(h: SecurityHeader): bytes {
    match h
    case Asymmetric(uri, certificate, thumbprint) =>
      EncodeString(uri) + EncodeByteString(certificate) + EncodeByteString(thumbprint)
    case Symmetric(token) => WriteU32(token)
  }

  function DataLength(b: ByteString): nat { if b.NullBytes? then 0 else |b.data| }

  function DecodeSecurity(isOpen: bool, s: bytes, o: Options): Decoded<SecurityHeader> {
    if isOpen then
      var (uri, s) :- DecodeString(s, o);
      var (certificate, s) :- DecodeByteString(s, o);
      var (thumbprint, s) :- DecodeByteString(s, o);
      if DataLength(certificate) >= MAX_CERTIFICATE_LENGTH then Bad(BadDecodingError)
      else if DataLength(thumbprint) > 0 && DataLength(thumbprint) != THUMBPRINT_SIZE then Bad(BadDecodingError)
      else Got(Asymmetric(uri, certificate, thumbprint), s)
    else
      var (token, s) :- ReadU32(s);
      Got(Symmetric(token), s)
  }

  function EncodeSequence(h: SequenceHeader): bytes { WriteU32(h.sequenceNumber) + WriteU32(h.requestId) }

  function DecodeSequence(s: bytes): Decoded<SequenceHeader> {
    var (sequenceNumber, s) :- ReadU32(s);
    var (requestId, s) :- ReadU32(s);
    Got(SequenceHeader(sequenceNumber, requestId), s)
  }

  // ---------------------------------------------------------------- channels and chunks

  /** What a chunk takes from its secure channel; `supported` says which policy URIs are known. */
  datatype Channel = Channel(
    id: u32,
    tokenId: u32,
    policyUri: UAString,
    certificate: ByteString,
    thumbprint: ByteString,
    supported: UAString -> bool,
    options: Options)

  function SecurityHeaderFor(ch: Channel, t: MessageType): SecurityHeader {
    if t.OpenSecureChannel? then Asymmetric(ch.policyUri, ch.certificate, ch.thumbprint) else Symmetric(ch.tokenId)
  }

  /** `MessageChunk::new` */
  function NewChunk(n: u32, requestId: u32, t: MessageType, f: IsFinal, ch: Channel, body: bytes): bytes {
    var tail := EncodeSecurity(SecurityHeaderFor(ch, t)) + EncodeSequence(SequenceHeader(n, requestId)) + body;
    EncodeChunkHeader(ChunkHeader(t, f, (HEADER_SIZE + |tail|) % 0x1_0000_0000, ch.id)) + tail
  }

  datatype ChunkInfo = ChunkInfo(header: ChunkHeader, security: SecurityHeader, sequence: SequenceHeader, body: bytes)

  function InfoAfterSecurity(h: ChunkHeader, security: SecurityHeader, s: bytes): Result<ChunkInfo> {
    var sequence := DecodeSequence(s);
    if sequence.Bad? then Err(BadCommunicationError) else Ok(ChunkInfo(h, security, sequence.value, sequence.rest))
  }

  /** `ChunkInfo::new` */
  function Info(chunk: bytes, ch: Channel): Result<ChunkInfo> {
    var header := DecodeChunkHeader(chunk);
    if header.Bad? then Err(header.status)
    else
      var isOpen := header.value.messageType.OpenSecureChannel?;
      var security := DecodeSecurity(isOpen, header.rest, ch.options);
      if security.Bad? then Err(BadCommunicationError)
      else if isOpen && security.value.Asymmetric? && !security.value.policyUri.Null? && !ch.supported(security.value.policyUri)
      then Err(BadSecurityPolicyRejected)
      else InfoAfterSecurity(header.value, security.value, security.rest)
  }

  /** The channel's own headers can be read back. */
  predicate Readable(ch: Channel) {
    && StringFits(ch.policyUri, ch.options) && ByteStringFits(ch.certificate, ch.options)
    && ByteStringFits(ch.thumbprint, ch.options)
    && DataLength(ch.certificate) < 32767
    && (DataLength(ch.thumbprint) == 0 || DataLength(ch.thumbprint) == 20)
    && (!ch.policyUri.Null? ==> ch.supported(ch.policyUri))
  }

  lemma ChunkHeaderRoundTrip(h: ChunkHeader, rest: bytes)
    ensures DecodeChunkHeader(EncodeChunkHeader(h) + rest) == Got(h, rest)
    ensures |EncodeChunkHeader(h)| == HEADER_SIZE
  {
    U32Lengths(h.messageSize);
    U32Lengths(h.channelId);
    hide WriteU32, ReadU32;
    var code, f := TypeCode(h.messageType), FinalCode(h.isFinal);
    var s3 := WriteU32(h.channelId) + rest;
    var s2 := WriteU32(h.messageSize) + s3;
    Regroup(code, [f], WriteU32(h.messageSize), WriteU32(h.channelId), rest);
    TakeWritten(code, [f] + s2);
    ReadU8Written(f, s2);
    ReadU32Written(h.messageSize, s3);
    ReadU32Written(h.channelId, rest);
  }

  lemma U32Lengths(n: u32)
    ensures |WriteU32(n)| == 4
  {
  }

  lemma Regroup(a: bytes, b: bytes, c: bytes, d: bytes, rest: bytes)
    ensures a + b + c + d + rest == a + (b + (c + (d + rest)))
  {
  }

  lemma SecurityRoundTrip(ch: Channel, t: MessageType, rest: bytes)
    requires Readable(ch)
    ensures DecodeSecurity(t.OpenSecureChannel?, EncodeSecurity(SecurityHeaderFor(ch, t)) + rest, ch.options) ==
            Got(SecurityHeaderFor(ch, t), rest)
  {
    hide EncodeString, DecodeString, EncodeByteString, DecodeByteString, WriteU32, ReadU32;
    if t.OpenSecureChannel? {
      var a, b, c := EncodeString(ch.policyUri), EncodeByteString(ch.certificate), EncodeByteString(ch.thumbprint);
      assert a + b + c + rest == a + (b + (c + rest));
      StringRoundTrip(ch.policyUri, ch.options, b + (c + rest));
      ByteStringRoundTrip(ch.certificate, ch.options, c + rest);
      ByteStringRoundTrip(ch.thumbprint, ch.options, rest);
    } else {
      ReadU32Written(ch.tokenId, rest);
    }
  }

  lemma SequenceRoundTrip(h: SequenceHeader, rest: bytes)
    ensures DecodeSequence(EncodeSequence(h) + rest) == Got(h, rest)
  {
    hide WriteU32, ReadU32;
    assert EncodeSequence(h) + rest == WriteU32(h.sequenceNumber) + (WriteU32(h.requestId) + rest);
    ReadU32Written(h.sequenceNumber, WriteU32(h.requestId) + rest);
    ReadU32Written(h.requestId, rest);
  }

  /** A chunk is read back with its headers and its body. */
  lemma InfoOfNewChunk(n: u32, requestId: u32, t: MessageType, f: IsFinal, ch: Channel, body: bytes)
    requires Readable(ch)
    ensures
      var chunk := NewChunk(n, requestId, t, f, ch, body);
      Info(chunk, ch) ==
      Ok(ChunkInfo(ChunkHeader(t, f, |chunk| % 0x1_0000_0000, ch.id), SecurityHeaderFor(ch, t),
                   SequenceHeader(n, requestId), body))
  {
    hide EncodeChunkHeader, DecodeChunkHeader, EncodeSecurity, DecodeSecurity, EncodeSequence, DecodeSequence;
    var a, b := EncodeSecurity(SecurityHeaderFor(ch, t)), EncodeSequence(SequenceHeader(n, requestId));
    var h := ChunkHeader(t, f, (HEADER_SIZE + |a + b + body|) % 0x1_0000_0000, ch.id);
    assert a + b + body == a + (b + body);
    ChunkHeaderRoundTrip(h, a + (b + body));
    SecurityRoundTrip(ch, t, b + body);
    SequenceRoundTrip(SequenceHeader(n, requestId), body);
  }

  // ---------------------------------------------------------------- the bytes of a chunk

  /** The letters MSG, OPN or CLO, then C, F or A. */
  function Letters(t: MessageType, f: IsFinal): bytes {
    (match t
     case Message => [0x4D, 0x53, 0x47]
     case OpenSecureChannel => [0x4F, 0x50, 0x4E]
     case CloseSecureChannel => [0x43, 0x4C, 0x4F])
    + match f
      case Intermediate => [0x43]
      case Final => [0x46]
      case FinalError => [0x41]
  }

  /** The token of the channel, or what identifies its certificates when it is opened. */
  function SecurityBytes(t: MessageType, ch: Channel): bytes {
    if t.OpenSecureChannel?
    then EncodeString(ch.policyUri) + EncodeByteString(ch.certificate) + EncodeByteString(ch.thumbprint)
    else Le(ch.tokenId, 4)
  }

  /** A chunk on the wire: letters, size of the whole chunk, channel, security header, sequence number, request id, body. */
  lemma ChunkLayout(n: u32, requestId: u32, t: MessageType, f: IsFinal, ch: Channel, body: bytes)
    ensures
      var chunk := NewChunk(n, requestId, t, f, ch, body);
      && chunk == Letters(t, f) + Le(|chunk| % 0x1_0000_0000, 4) + Le(ch.id, 4)
                  + SecurityBytes(t, ch) + Le(n, 4) + Le(requestId, 4) + body
      && |chunk| == 12 + |SecurityBytes(t, ch)| + 8 + |body|
  {
    hide Le, EncodeSecurity, SecurityBytes, SecurityHeaderFor, TypeCode, FinalCode;
    var security := SecurityBytes(t, ch);
    SecurityIs(t, ch);
    LettersAre(t, f);
    var size := (12 + |security| + 8 + |body|) % 0x1_0000_0000;
    AssociateChunk(Letters(t, f), Le(size, 4), Le(ch.id, 4), security, Le(n, 4), Le(requestId, 4), body);
  }

  lemma SecurityIs(t: MessageType, ch: Channel)
    ensures EncodeSecurity(SecurityHeaderFor(ch, t)) == SecurityBytes(t, ch)
  {
    hide EncodeString, EncodeByteString, Le;
  }

  lemma LettersAre(t: MessageType, f: IsFinal)
    ensures TypeCode(t) + [FinalCode(f)] == Letters(t, f)
  {
  }

  lemma AssociateChunk(a: bytes, b: bytes, c: bytes, d: bytes, e: bytes, f: bytes, g: bytes)
    ensures a + b + c + (d + (e + f) + g) == a + b + c + d + e + f + g
  {
  }

  /** Letters that no writer uses are refused. */
  lemma UnknownLettersAreRefused(letters: bytes, rest: bytes, ch: Channel)
    requires |letters| == 4 && forall t: MessageType, f: IsFinal :: letters != Letters(t, f)
    ensures Info(letters + rest, ch) == Err(BadDecodingError)
  {
    var s := letters + rest;
    assert s[..3] == letters[..3] && s[3..][0] == letters[3];
    assert forall t: MessageType, f: IsFinal :: Letters(t, f) == TypeCode(t) + [FinalCode(f)];
    assert letters == letters[..3] + [letters[3]];
    forall t: MessageType, f: IsFinal ensures letters[..3] != TypeCode(t) || letters[3] != FinalCode(f) {
      assert letters != Letters(t, f);
    }
    assert FinalCode(Intermediate) == 67 && FinalCode(Final) == 70 && FinalCode(FinalError) == 65;
  }

  // ---------------------------------------------------------------- cutting

  /** `slice::chunks` */
  function Pieces(data: bytes, size: nat): (pieces: seq<bytes>)
    requires size > 0
    ensures data != [] ==> pieces != []
  {
    if data == [] then []
    else if |data| <= size then [data]
    else [data[..size]] + Pieces(data[size..], size)
  }

  function Concat(pieces: seq<bytes>): bytes { if pieces == [] then [] else pieces[0] + Concat(pieces[1..]) }

  lemma {:induction false} PiecesConcat(data: bytes, size: nat)
    requires size > 0
    ensures Concat(Pieces(data, size)) == data
  {
    if |data| > size {
      PiecesConcat(data[size..], size);
      ConcatCons(data[..size], Pieces(data[size..], size));
      assert data[..size] + data[size..] == data;
    } else if data != [] {
      ConcatCons(data, []);
      assert [data] + [] == [data];
    }
  }

  lemma ConcatCons(piece: bytes, pieces: seq<bytes>)
    ensures Concat([piece] + pieces) == piece + Concat(pieces)
  {
    assert ([piece] + pieces)[1..] == pieces;
  }

  lemma {:induction false} PiecesFit(data: bytes, size: nat, i: nat)
    requires size > 0 && i < |Pieces(data, size)|
    ensures 1 <= |Pieces(data, size)[i]| <= size
  {
    if |data| > size && i > 0 { PiecesFit(data[size..], size, i - 1); }
  }

  /** Every piece but the last is as large as allowed. */
  lemma {:induction false} PiecesAreFull(data: bytes, size: nat, i: nat)
    requires size > 0 && i + 1 < |Pieces(data, size)|
    ensures |Pieces(data, size)[i]| == size
  {
    if i > 0 { PiecesAreFull(data[size..], size, i - 1); }
  }

  /** The chunk for piece `i`. */
  function ChunkAt(pieces: seq<bytes>, i: nat, n: u32, requestId: u32, t: MessageType, ch: Channel): bytes
    requires i < |pieces| && n + i <= 0xFFFF_FFFF
  {
    NewChunk(n + i, requestId, t, if i == |pieces| - 1 then Final else Intermediate, ch, pieces[i])
  }

  function ChunksOf(pieces: seq<bytes>, n: u32, requestId: u32, t: MessageType, ch: Channel): (chunks: seq<bytes>)
    requires n + |pieces| <= 0x1_0000_0000
    ensures |chunks| == |pieces|
    ensures forall i :: 0 <= i < |pieces| ==> chunks[i] == ChunkAt(pieces, i, n, requestId, t, ch)
  {
    seq(|pieces|, i requires 0 <= i < |pieces| => ChunkAt(pieces, i, n, requestId, t, ch))
  }

  /** The loop of `encode` over the pieces; numbers beyond 32 bits are an overflow. */
  method EncodeChunks(data: bytes, size: nat, n: u32, requestId: u32, t: MessageType, ch: Channel)
      returns (chunks: Option<seq<bytes>>)
    requires size > 0
    ensures
      var pieces := Pieces(data, size);
      if n + |pieces| <= 0x1_0000_0000 then chunks == Some(ChunksOf(pieces, n, requestId, t, ch)) else chunks == None
  {
    hide Pieces, NewChunk;
    var pieces := Pieces(data, size);
    var made: seq<bytes> := [];
    for i := 0 to |pieces|
      invariant n + i <= 0x1_0000_0000 && |made| == i
      invariant forall j :: 0 <= j < i ==> made[j] == ChunkAt(pieces, j, n, requestId, t, ch)
    {
      if n + i > 0xFFFF_FFFF { return None; }
      var f := if i == |pieces| - 1 then Final else Intermediate;
      made := made + [NewChunk(n + i, requestId, t, f, ch, pieces[i])];
    }
    assert made == ChunksOf(pieces, n, requestId, t, ch);
    chunks := Some(made);
  }

  // ---------------------------------------------------------------- checking

  /** All chunks can be read. */
  predicate AllRead(chunks: seq<bytes>, ch: Channel) { forall i :: 0 <= i < |chunks| ==> Info(chunks[i], ch).Ok? }

  /** Consecutive numbers from the first, not before `start`, one request and the right channel. */
  predicate InSequence(chunks: seq<bytes>, start: u32, ch: Channel)
    requires chunks != [] && AllRead(chunks, ch)
  {
    var first := Info(chunks[0], ch).value.sequence;
    && first.sequenceNumber >= start
    && forall i :: 0 <= i < |chunks| ==>
         var info := Info(chunks[i], ch).value;
         && (ch.id != 0 ==> info.header.channelId == ch.id)
         && info.sequence.sequenceNumber == first.sequenceNumber + i && info.sequence.requestId == first.requestId
  }

  /** What is wrong with chunk `i`, if anything. */
  function Fault(chunks: seq<bytes>, i: nat, ch: Channel): Option<Status>
    requires i < |chunks| && Info(chunks[0], ch).Ok?
  {
    var first, r := Info(chunks[0], ch).value.sequence, Info(chunks[i], ch);
    if r.Err? then Some(r.status)
    else if ch.id != 0 && r.value.header.channelId != ch.id then Some(BadSecureChannelIdInvalid)
    else if r.value.sequence.sequenceNumber != first.sequenceNumber + i || r.value.sequence.requestId != first.requestId
    then Some(BadSecurityChecksFailed)
    else None
  }

  /** `validate_chunks`: accepts exactly the chunks in sequence, and returns the last number; otherwise the fault of the
      first chunk that has one. */
  method ValidateChunks(start: u32, ch: Channel, chunks: seq<bytes>) returns (r: Result<u32>)
    requires chunks != []
    ensures r.Ok? <==> AllRead(chunks, ch) && InSequence(chunks, start, ch)
    ensures r.Ok? ==> r.value == Info(chunks[0], ch).value.sequence.sequenceNumber + |chunks| - 1
    ensures r.Err? ==>
              if Info(chunks[0], ch).Err? then r.status == Info(chunks[0], ch).status
              else if Info(chunks[0], ch).value.sequence.sequenceNumber < start then r.status == BadSequenceNumberInvalid
              else exists i: nat | i < |chunks| ::
                     Fault(chunks, i, ch) == Some(r.status) && forall j: nat | j < i :: Fault(chunks, j, ch) == None
  {
    hide Info;
    var opening :- Info(chunks[0], ch);
    var first := opening.sequence.sequenceNumber;
    if first < start { return Err(BadSequenceNumberInvalid); }
    var expectedRequestId: u32 := 0;
    for i := 0 to |chunks|
      invariant i > 0 ==> expectedRequestId == opening.sequence.requestId
      invariant forall j: nat | j < i :: Fault(chunks, j, ch) == None
      invariant forall j :: 0 <= j < i ==> Info(chunks[j], ch).Ok?
      invariant forall j :: 0 <= j < i ==>
        var info := Info(chunks[j], ch).value;
        && (ch.id != 0 ==> info.header.channelId == ch.id)
        && info.sequence.sequenceNumber == first + j && info.sequence.requestId == opening.sequence.requestId
    {
      ghost var fault := Fault(chunks, i, ch);
      var info :- Info(chunks[i], ch);
      if ch.id != 0 && info.header.channelId != ch.id { return Err(BadSecureChannelIdInvalid); }
      if info.sequence.sequenceNumber != first + i { return Err(BadSecurityChecksFailed); }
      if i == 0 {
        expectedRequestId := info.sequence.requestId;
      } else if info.sequence.requestId != expectedRequestId {
        return Err(BadSecurityChecksFailed);
      }
    }
    assert Info(chunks[|chunks| - 1], ch).value.sequence.sequenceNumber == first + (|chunks| - 1);
    r := Ok(first + |chunks| - 1);
  }

  // ---------------------------------------------------------------- putting together

  function Body(chunk: bytes, ch: Channel): bytes
    requires Info(chunk, ch).Ok?
  {
    Info(chunk, ch).value.body
  }

  /** The last chunk is final and the others are not. */
  predicate ProperlyEnded(chunks: seq<bytes>, ch: Channel)
    requires AllRead(chunks, ch)
  {
    forall i :: 0 <= i < |chunks| ==>
      Info(chunks[i], ch).value.header.isFinal == if i == |chunks| - 1 then Final else Intermediate
  }

  function Bodies(chunks: seq<bytes>, ch: Channel): bytes
    requires AllRead(chunks, ch)
  {
    if chunks == [] then []
    else
      var front := chunks[..|chunks| - 1];
      assert forall i :: 0 <= i < |front| ==> front[i] == chunks[i];
      Bodies(front, ch) + Body(chunks[|chunks| - 1], ch)
  }

  /** The two loops of `decode`: the data is put together when every chunk can be read and the last one is final. */
  method Reassemble(chunks: seq<bytes>, ch: Channel) returns (r: Result<bytes>)
    ensures r.Ok? <==> AllRead(chunks, ch) && ProperlyEnded(chunks, ch)
    ensures r.Ok? ==> r.value == Bodies(chunks, ch)
  {
    hide Info;
    for i := 0 to |chunks|
      invariant forall j :: 0 <= j < i ==> Info(chunks[j], ch).Ok?
      invariant forall j :: 0 <= j < i ==>
        Info(chunks[j], ch).value.header.isFinal == if j == |chunks| - 1 then Final else Intermediate
    {
      var info :- Info(chunks[i], ch);
      var expected := if i == |chunks| - 1 then Final else Intermediate;
      if info.header.isFinal != expected { return Err(BadDecodingError); }
    }
    var data: bytes := [];
    for i := 0 to |chunks|
      invariant AllRead(chunks[..i], ch) && data == Bodies(chunks[..i], ch)
    {
      var front := chunks[..i + 1];
      assert front[..i] == chunks[..i] && front[i] == chunks[i];
      assert forall j :: 0 <= j < |front| ==> front[j] == chunks[j];
      var info := Info(chunks[i], ch);
      data := data + info.value.body;
    }
    assert chunks[..|chunks|] == chunks;
    r := Ok(data);
  }

  // ---------------------------------------------------------------- the round trip

  lemma ChunksRead(pieces: seq<bytes>, n: u32, requestId: u32, t: MessageType, ch: Channel, i: nat)
    requires Readable(ch) && n + |pieces| <= 0x1_0000_0000 && i < |pieces|
    ensures
      var r := Info(ChunksOf(pieces, n, requestId, t, ch)[i], ch);
      && r.Ok? && r.value.body == pieces[i] && r.value.sequence == SequenceHeader(n + i, requestId)
      && r.value.header.channelId == ch.id
      && r.value.header.isFinal == if i == |pieces| - 1 then Final else Intermediate
  {
    hide Info;
    InfoOfNewChunk(n + i, requestId, t, if i == |pieces| - 1 then Final else Intermediate, ch, pieces[i]);
  }

  lemma {:induction false} BodiesAre(chunks: seq<bytes>, pieces: seq<bytes>, ch: Channel)
    requires AllRead(chunks, ch) && |chunks| == |pieces|
    requires forall i :: 0 <= i < |pieces| ==> Info(chunks[i], ch).value.body == pieces[i]
    ensures Bodies(chunks, ch) == Concat(pieces)
  {
    hide Info;
    if chunks != [] {
      var last := |chunks| - 1;
      BodiesAre(chunks[..last], pieces[..last], ch);
      ConcatLast(pieces);
    }
  }

  lemma {:induction false} ConcatLast(pieces: seq<bytes>)
    requires pieces != []
    ensures Concat(pieces) == Concat(pieces[..|pieces| - 1]) + pieces[|pieces| - 1]
  {
    var last := |pieces| - 1;
    if last > 0 {
      ConcatLast(pieces[1..]);
      assert pieces[1..][..last - 1] == pieces[..last][1..];
      assert pieces[..last][0] == pieces[0];
      assert pieces[0] + (Concat(pieces[1..][..last - 1]) + pieces[last]) ==
             pieces[0] + Concat(pieces[1..][..last - 1]) + pieces[last];
    } else {
      assert pieces[1..] == [] && pieces[..0] == [];
    }
  }

  /** Each chunk is read back with its own piece, number and place. */
  predicate Proper(chunks: seq<bytes>, pieces: seq<bytes>, n: u32, requestId: u32, ch: Channel) {
    && |chunks| == |pieces|
    && forall i :: 0 <= i < |pieces| ==>
         var r := Info(chunks[i], ch);
         && r.Ok? && r.value.body == pieces[i]
         && r.value.sequence.sequenceNumber == n + i && r.value.sequence.requestId == requestId
         && r.value.header.channelId == ch.id
         && r.value.header.isFinal == if i == |pieces| - 1 then Final else Intermediate
  }

  lemma ChunksAreProper(pieces: seq<bytes>, n: u32, requestId: u32, t: MessageType, ch: Channel)
    requires Readable(ch) && n + |pieces| <= 0x1_0000_0000
    ensures Proper(ChunksOf(pieces, n, requestId, t, ch), pieces, n, requestId, ch)
  {
    hide Info, ChunkAt;
    forall i | 0 <= i < |pieces|
      ensures
        var r := Info(ChunksOf(pieces, n, requestId, t, ch)[i], ch);
        && r.Ok? && r.value.body == pieces[i]
        && r.value.sequence.sequenceNumber == n + i && r.value.sequence.requestId == requestId
        && r.value.header.channelId == ch.id
        && r.value.header.isFinal == if i == |pieces| - 1 then Final else Intermediate
    {
      ChunksRead(pieces, n, requestId, t, ch, i);
    }
  }

  lemma ProperIsAccepted(chunks: seq<bytes>, pieces: seq<bytes>, n: u32, requestId: u32, ch: Channel, start: u32)
    requires pieces != [] && Proper(chunks, pieces, n, requestId, ch) && start <= n
    ensures AllRead(chunks, ch) && InSequence(chunks, start, ch) && ProperlyEnded(chunks, ch)
    ensures Bodies(chunks, ch) == Concat(pieces)
  {
    hide Info;
    BodiesAre(chunks, pieces, ch);
  }

  /** For every message, limit and channel: its chunks are accepted in sequence, end properly, and their bodies are the
      message; each body is within the limit. */
  lemma ChunkRoundTrip(data: bytes, size: nat, n: u32, requestId: u32, t: MessageType, ch: Channel, start: u32)
    requires size > 0 && data != [] && Readable(ch) && n + |Pieces(data, size)| <= 0x1_0000_0000 && start <= n
    ensures
      var chunks := ChunksOf(Pieces(data, size), n, requestId, t, ch);
      && chunks != [] && AllRead(chunks, ch) && InSequence(chunks, start, ch) && ProperlyEnded(chunks, ch)
      && Bodies(chunks, ch) == data
      && forall i :: 0 <= i < |chunks| ==> 1 <= |Body(chunks[i], ch)| <= size
  {
    var pieces := Pieces(data, size);
    var chunks := ChunksOf(pieces, n, requestId, t, ch);
    ChunksAreProper(pieces, n, requestId, t, ch);
    PiecesConcat(data, size);
    hide Info, ChunkAt, Pieces;
    forall i | 0 <= i < |pieces| ensures 1 <= |pieces[i]| <= size { PiecesFit(data, size, i); }
    hide ChunksOf;
    ProperIsAccepted(chunks, pieces, n, requestId, ch, start);
  }
}
