/** Messages cut into chunks and put together again, and the padding of secured chunks
    (lib/src/core/comms/{chunker,message_chunk,message_chunk_info,security_header,secure_channel}.rs;
    OPC UA Part 6, section 6.7.2). */
module Chunks {
  import opened Prelude
  import opened Arithmetic

  const HEADER_SIZE: nat := 12
  const SEQUENCE_SIZE: nat := 8
  const MAX_CERTIFICATE_LENGTH: nat := 32767
  const THUMBPRINT_SIZE: nat := 20

  // ---------------------------------------------------------------- padding

  function MinimumPadding(keyLength: nat): nat { if keyLength <= 256 then 1 else 2 }

  /** What is missing to a whole number of blocks. */
  function Missing(n: nat, block: nat): (r: nat)
    requires block > 0
    ensures r < block
  {
    if n % block != 0 then block - n % block else 0
  }

  /** `padding_size` of a secured chunk. */
  function PaddingSize(block: nat, keyLength: nat, body: nat, signature: nat): (nat, nat)
    requires block > 0
  {
    var minimum := MinimumPadding(keyLength);
    (minimum + Missing(SEQUENCE_SIZE + body + signature + minimum, block), minimum)
  }

  /** The bytes written: their number less the minimum, in one byte or in two. */
  function PaddingBytes(size: nat, minimum: nat): (b: bytes)
    requires 1 <= minimum <= size
    ensures |b| == size
  {
    if minimum == 1 then seq(size, _ => (size - 1) % 256)
    else seq(size - 1, _ => (size - 2) % 256) + [(size - 2) / 256 % 256]
  }

  datatype Check = Range(start: nat, end: nat) | Refused | OutOfBounds

  /** `verify_padding`: the range of the padding that ends at `end`. */
  function VerifyPadding(src: bytes, keySize: nat, end: nat): Check
    requires end <= |src|
  {
    if keySize > 256 then
      if end < 2 then OutOfBounds
      else
        var size := src[end - 1] as nat * 256 + src[end - 2] as nat;
        if size + 2 > end then OutOfBounds
        else if forall i :: end - size - 2 <= i < end - 1 ==> src[i] == src[end - 2] then Range(end - size - 2, end)
        else Refused
    else
      if end < 1 then OutOfBounds
      else
        var size := src[end - 1] as nat;
        if size + 1 > end then OutOfBounds
        else if forall i :: end - size - 1 <= i < end ==> src[i] == src[end - 1] then Range(end - size - 1, end)
        else Refused
  }

  method CheckPaddingBytes(src: bytes, start: nat, end: nat, expected: u8) returns (same: bool)
    requires start <= end <= |src|
    ensures same <==> forall i :: start <= i < end ==> src[i] == expected
  {
    for i := start to end
      invariant forall j :: start <= j < i ==> src[j] == expected
    {
      if src[i] != expected { return false; }
    }
    same := true;
  }

  /** `verify_padding`, reading the bytes one by one. */
  method VerifyPaddingBytes(src: bytes, keySize: nat, end: nat) returns (r: Check)
    requires end <= |src|
    ensures r == VerifyPadding(src, keySize, end)
  {
    var minimum := MinimumPadding(keySize);
    if end < minimum { return OutOfBounds; }
    var size := src[end - minimum] as nat + if minimum == 2 then src[end - 1] as nat * 256 else 0;
    if size + minimum > end { return OutOfBounds; }
    var start := end - size - minimum;
    var same := CheckPaddingBytes(src, start, end - (minimum - 1), src[end - minimum]);
    r := if same then Range(start, end) else Refused;
  }

  lemma LongPadding(before: bytes, size: nat, after: bytes, keySize: nat)
    requires keySize > 256 && size >= 2
    ensures
      var src, end := before + PaddingBytes(size, 2) + after, |before| + size;
      VerifyPadding(src, keySize, end) == Range(|before|, end) <==> size <= 65537
  {
    var padding := PaddingBytes(size, 2);
    var src, end := before + padding + after, |before| + size;
    var low, high := (size - 2) % 256, (size - 2) / 256 % 256;
    assert src[end - 1] == padding[size - 1] == high && src[end - 2] == padding[size - 2] == low;
    assert forall i :: |before| <= i < end - 1 ==> src[i] == padding[i - |before|] == low;
    assert high * 256 + low <= size - 2;
    assert high * 256 + low == size - 2 <==> size <= 65537;
  }

  lemma ShortPadding(before: bytes, size: nat, after: bytes, keySize: nat)
    requires keySize <= 256 && size >= 1
    ensures
      var src, end := before + PaddingBytes(size, 1) + after, |before| + size;
      VerifyPadding(src, keySize, end) == Range(|before|, end) <==> size <= 256
  {
    var padding := PaddingBytes(size, 1);
    var src, end := before + padding + after, |before| + size;
    assert forall i :: |before| <= i < end ==> src[i] == padding[i - |before|] == (size - 1) % 256;
    assert src[end - 1] == (size - 1) % 256;
  }

  /** Their number less one, repeated; for long keys their number less two, its low byte repeated and its high byte
      last. */
  lemma PaddingLayout(size: nat, i: nat)
    requires i < size
    ensures size <= 256 ==> PaddingBytes(size, 1)[i] == size - 1
    ensures 2 <= size <= 65537 ==>
              PaddingBytes(size, 2)[i] == if i == size - 1 then (size - 2) / 256 else (size - 2) % 256
  {
    if size >= 2 { assert PaddingBytes(size, 2)[size - 1] == (size - 2) / 256 % 256; }
  }

  /** The receiver finds exactly the padding that the sender added, for every block that the key allows. */
  lemma PaddingRoundTrip(before: bytes, after: bytes, block: nat, keyLength: nat, body: nat, signature: nat)
    requires 0 < block <= 65536 && (keyLength <= 256 ==> block <= 256)
    ensures
      var (size, minimum) := PaddingSize(block, keyLength, body, signature);
      && (8 + body + size + signature) % block == 0
      && minimum == (if keyLength <= 256 then 1 else 2) && minimum <= size < minimum + block
      && VerifyPadding(before + PaddingBytes(size, minimum) + after, keyLength, |before| + size) ==
         Range(|before|, |before| + size)
  {
    var (size, minimum) := PaddingSize(block, keyLength, body, signature);
    FillsBlocks(SEQUENCE_SIZE + body + signature + minimum, block);
    if keyLength <= 256 { ShortPadding(before, size, after, keyLength); } else { LongPadding(before, size, after, keyLength); }
  }

  lemma FillsBlocks(n: nat, block: nat)
    requires block > 0
    ensures (n + Missing(n, block)) % block == 0
  {
    var q, r := n / block, n % block;
    if r != 0 {
      assert n + Missing(n, block) == (q + 1) * block by { Distribute(q, 1, block); }
      DivisionIs(n + Missing(n, block), block, q + 1, 0);
    }
  }

  // ---------------------------------------------------------------- sizes

  /** A chunk with its headers, body, padding and signature, before encryption. Symmetric encryption keeps this size;
      asymmetric encryption, of the chunk that opens a channel, makes each block as long as the key. */
  function SecuredSize(securityHeader: nat, block: nat, keyLength: nat, body: nat, signature: nat): nat
    requires block > 0
  {
    HEADER_SIZE + securityHeader + SEQUENCE_SIZE + body + PaddingSize(block, keyLength, body, signature).0 + signature
  }

  /** `body_size_from_message_size`: room is left for the padding of a body of one byte. */
  function BodySize(maxChunk: nat, securityHeader: nat, block: nat, keyLength: nat, signature: nat): int
    requires block > 0
  {
    maxChunk - (HEADER_SIZE + securityHeader + SEQUENCE_SIZE + PaddingSize(block, keyLength, 1, signature).0 + signature)
  }

  lemma MissingAfter(x: nat, a: nat, block: nat)
    requires block > 0 && a < block && a <= x
    ensures Missing(x - a, block) <= a <==> x % block <= a
  {
    var q, r := x / block, x % block;
    if r >= a {
      assert x - a == q * block + (r - a);
      DivisionIs(x - a, block, q, r - a);
    } else if q > 0 {
      assert x - a == (q - 1) * block + (r - a + block) by { Distribute(q - 1, 1, block); }
      DivisionIs(x - a, block, q - 1, r - a + block);
    }
  }

  /** A full chunk stays within the limit exactly when what the limit leaves after the headers does not run further past
      a block boundary than the padding of a body of one byte. */
  lemma FullChunkFitsIff(maxChunk: nat, securityHeader: nat, block: nat, keyLength: nat, signature: nat)
    requires block > 0 && BodySize(maxChunk, securityHeader, block, keyLength, signature) >= 0
    ensures
      var body := BodySize(maxChunk, securityHeader, block, keyLength, signature);
      SecuredSize(securityHeader, block, keyLength, body, signature) <= maxChunk <==>
      (maxChunk - 12 - securityHeader) % block <= Missing(8 + 1 + signature + (if keyLength <= 256 then 1 else 2), block)
  {
    var a := Missing(SEQUENCE_SIZE + 1 + signature + MinimumPadding(keyLength), block);
    hide Missing;
    MissingAfter(maxChunk - HEADER_SIZE - securityHeader, a, block);
  }

  /** One byte too many: 65535 bytes per chunk, sixteen-byte blocks and a signature of 32 bytes. */
  lemma FullChunkExample()
    ensures BodySize(65535, 4, 16, 32, 32) == 65472 && SecuredSize(4, 16, 32, 65472, 32) == 65536
  {
  }
}
