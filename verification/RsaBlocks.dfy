/** RSA over messages of any length, block by block, and the password exchange built on it
    (lib/src/crypto/{pkey,user_identity}.rs). */
module RsaBlocks {
  import opened Prelude
  import opened Arithmetic
  import opened UaTypes
  import opened Wire
  import Utf8

  datatype RsaPadding = Pkcs1 | OaepSha1 | OaepSha256

  /** A key pair: its size in bytes, and OpenSSL's operations on one block. Encryption also takes its random bits. */
  datatype Key = Key(size: nat, encrypt: (bytes, nat) -> bytes, decrypt: bytes -> Option<bytes>)

  function Overhead(padding: RsaPadding): nat {
    match padding
    case Pkcs1 => 11
    case OaepSha1 => 42
    case OaepSha256 => 66
  }

  function PlainTextBlockSize(k: Key, padding: RsaPadding): nat
    requires k.size > Overhead(padding)
  {
    k.size - Overhead(padding)
  }

  /** What OpenSSL promises: a block that fits encrypts to a block of the key's size and decrypts to itself, whatever
      the random bits; nothing decrypts to more than a block. */
  ghost predicate Lawful(k: Key, padding: RsaPadding) {
    && k.size > Overhead(padding)
    && (forall m: bytes, r: nat :: 1 <= |m| <= PlainTextBlockSize(k, padding) ==>
          |k.encrypt(m, r)| == k.size && k.decrypt(k.encrypt(m, r)) == Some(m))
    && (forall c: bytes :: k.decrypt(c).Some? ==> |k.decrypt(c).value| <= k.size)
  }

  // ---------------------------------------------------------------- sizes

  function CalculateCipherTextSize(k: Key, dataSize: nat, padding: RsaPadding): nat
    requires k.size > Overhead(padding)
  {
    BlockCount(dataSize, PlainTextBlockSize(k, padding)) * k.size
  }

  function BlockCount(n: nat, block: nat): nat
    requires block > 0
  {
    if n % block == 0 then n / block else n / block + 1
  }

  lemma BlockCountStep(n: nat, block: nat)
    requires block > 0 && n > 0
    ensures BlockCount(n, block) == 1 + BlockCount(if n < block then 0 else n - block, block)
  {
    if n >= block { OneBlockLess(n, block); }
  }

  // ---------------------------------------------------------------- what the loops compute

  function Chunk(m: bytes, block: nat): (n: nat)
    ensures n <= |m|
  {
    if |m| < block then |m| else block
  }

  /** The cipher text of `m`; block number `j` uses the random bits `tape(j)`. */
  function EncryptBlocks(k: Key, padding: RsaPadding, m: bytes, tape: nat -> nat, j: nat): bytes
    requires k.size > Overhead(padding)
    decreases |m|
  {
    if m == [] then []
    else
      var n := Chunk(m, PlainTextBlockSize(k, padding));
      k.encrypt(m[..n], tape(j)) + EncryptBlocks(k, padding, m[n..], tape, j + 1)
  }

  /** What decrypting does: the plain text, an error from a block, or a slice beyond the end of the input. */
  datatype Blocks = Plain(text: bytes) | BadBlock | OutOfBounds

  function DecryptBlocks(k: Key, c: bytes): Blocks
    requires k.size > 0
    decreases |c|
  {
    if c == [] then Plain([])
    else if |c| < k.size then OutOfBounds
    else
      var block := k.decrypt(c[..k.size]);
      if block.None? then BadBlock else Before(block.value, DecryptBlocks(k, c[k.size..]))
  }

  function Before(text: bytes, b: Blocks): Blocks { if b.Plain? then Plain(text + b.text) else b }

  lemma {:induction false} EncryptLength(k: Key, padding: RsaPadding, m: bytes, tape: nat -> nat, j: nat)
    requires Lawful(k, padding)
    ensures |EncryptBlocks(k, padding, m, tape, j)| == CalculateCipherTextSize(k, |m|, padding)
    decreases |m|
  {
    var block := PlainTextBlockSize(k, padding);
    if m != [] {
      var n := Chunk(m, block);
      EncryptLength(k, padding, m[n..], tape, j + 1);
      BlockCountStep(|m|, block);
      Distribute(1, BlockCount(|m| - n, block), k.size);
    }
  }

  /** Decryption recovers every message from every one of its cipher texts. */
  lemma {:induction false} DecryptInvertsEncrypt(k: Key, padding: RsaPadding, m: bytes, tape: nat -> nat, j: nat)
    requires Lawful(k, padding)
    ensures DecryptBlocks(k, EncryptBlocks(k, padding, m, tape, j)) == Plain(m)
    decreases |m|
  {
    if m != [] {
      var n := Chunk(m, PlainTextBlockSize(k, padding));
      DecryptInvertsEncrypt(k, padding, m[n..], tape, j + 1);
      var block := k.encrypt(m[..n], tape(j));
      var c := EncryptBlocks(k, padding, m, tape, j);
      assert c[..k.size] == block && c[k.size..] == EncryptBlocks(k, padding, m[n..], tape, j + 1);
      assert m[..n] + m[n..] == m;
    }
  }

  /** Decryption of whole blocks stays in bounds; a partial block is never decrypted to a text. */
  lemma {:induction false} DecryptNeedsWholeBlocks(k: Key, c: bytes)
    requires k.size > 0
    ensures |c| % k.size == 0 ==> !DecryptBlocks(k, c).OutOfBounds?
    ensures |c| % k.size != 0 ==> !DecryptBlocks(k, c).Plain?
    decreases |c|
  {
    if |c| >= k.size {
      DecryptNeedsWholeBlocks(k, c[k.size..]);
      OneBlockLess(|c|, k.size);
    } else if c != [] {
      DivisionIs(|c|, k.size, 0, |c|);
    }
  }

  /** A message is cut from the front into blocks that leave 11, 42 or 66 bytes of the key's size to the padding; each
      block is encrypted with its own random bits. */
  lemma BlocksInOrder(k: Key, padding: RsaPadding, first: bytes, rest: bytes, tape: nat -> nat, j: nat)
    requires
      && k.size > (match padding case Pkcs1 => 11 case OaepSha1 => 42 case OaepSha256 => 66)
      && |first| == k.size - (match padding case Pkcs1 => 11 case OaepSha1 => 42 case OaepSha256 => 66)
    ensures EncryptBlocks(k, padding, [], tape, j) == []
    ensures 0 < |rest| < |first| ==> EncryptBlocks(k, padding, rest, tape, j) == k.encrypt(rest, tape(j))
    ensures EncryptBlocks(k, padding, first + rest, tape, j) ==
            k.encrypt(first, tape(j)) + EncryptBlocks(k, padding, rest, tape, j + 1)
  {
    var m := first + rest;
    assert m[..|first|] == first && m[|first|..] == rest;
    assert rest[..|rest|] == rest && rest[|rest|..] == [];
    assert EncryptBlocks(k, padding, [], tape, j + 1) == [];
  }

  // ---------------------------------------------------------------- the loops

  /** How a call ends: with a number of bytes, with an error, or at a slice out of bounds. */
  datatype Run = Finished(size: nat) | Failed | Panicked

  method CopyInto(dst: array<u8>, at: nat, block: bytes)
    requires at + |block| <= dst.Length
    modifies dst
    ensures dst[..at + |block|] == old(dst[..at]) + block
  {
    for i := 0 to |block|
      invariant dst[..at + i] == old(dst[..at]) + block[..i]
    {
      dst[at + i] := block[i];
    }
  }

  /** What is left to encrypt from byte `i` on. */
  function Remaining(k: Key, padding: RsaPadding, m: bytes, i: nat, tape: nat -> nat, j: nat): bytes
    requires k.size > Overhead(padding) && i <= |m|
  {
    EncryptBlocks(k, padding, m[i..], tape, j)
  }

  lemma AllRemains(k: Key, padding: RsaPadding, m: bytes, tape: nat -> nat)
    requires k.size > Overhead(padding)
    ensures Remaining(k, padding, m, 0, tape, 0) == EncryptBlocks(k, padding, m, tape, 0)
  {
    assert m[0..] == m;
  }

  lemma NothingRemains(k: Key, padding: RsaPadding, m: bytes, tape: nat -> nat, j: nat)
    requires k.size > Overhead(padding)
    ensures Remaining(k, padding, m, |m|, tape, j) == []
  {
  }

  /** One turn of the loop, on what is done and what is left. */
  lemma EncryptStep(k: Key, padding: RsaPadding, done: bytes, m: bytes, i: nat, tape: nat -> nat, j: nat, n: nat)
    requires Lawful(k, padding) && i < |m|
    requires n == if |m| - i < PlainTextBlockSize(k, padding) then |m| - i else PlainTextBlockSize(k, padding)
    ensures
      var cipher := k.encrypt(m[i..i + n], tape(j));
      && |cipher| == k.size <= |Remaining(k, padding, m, i, tape, j)|
      && done + Remaining(k, padding, m, i, tape, j) == done + cipher + Remaining(k, padding, m, i + n, tape, j + 1)
  {
    var left := m[i..];
    assert left[..n] == m[i..i + n] && left[n..] == m[i + n..];
    var cipher, rest := k.encrypt(m[i..i + n], tape(j)), EncryptBlocks(k, padding, m[i + n..], tape, j + 1);
    assert done + (cipher + rest) == done + cipher + rest;
  }

  /** The body of the loop: encrypts `n` bytes from `i` on and puts them at `at`. */
  method EncryptNext(k: Key, padding: RsaPadding, src: array<u8>, i: nat, n: nat, dst: array<u8>, at: nat,
                     tape: nat -> nat, j: nat) returns (out: Run)
    requires Lawful(k, padding) && src != dst && i < src.Length && at <= dst.Length
    requires n == if src.Length - i < PlainTextBlockSize(k, padding) then src.Length - i else PlainTextBlockSize(k, padding)
    modifies dst
    ensures
      if at + k.size > dst.Length
      then out == Panicked && k.size <= |Remaining(k, padding, src[..], i, tape, j)|
      else
        && out == Finished(k.size)
        && dst[..at + k.size] + Remaining(k, padding, src[..], i + n, tape, j + 1) ==
           old(dst[..at]) + Remaining(k, padding, src[..], i, tape, j)
  {
    ghost var m := src[..];
    EncryptStep(k, padding, dst[..at], m, i, tape, j, n);
    if at + k.size > dst.Length { return Panicked; }
    assert m[i..i + n] == src[i..i + n];
    var cipher := k.encrypt(src[i..i + n], tape(j));
    hide Remaining, EncryptBlocks, Lawful;
    CopyInto(dst, at, cipher);
    assert src[..] == m;
    out := Finished(|cipher|);
  }

  lemma HasRoom(k: Key, padding: RsaPadding)
    requires Lawful(k, padding)
    ensures k.size > Overhead(padding) && PlainTextBlockSize(k, padding) > 0
  {
  }

  /** `public_encrypt`: fills exactly `calculate_cipher_text_size` bytes when there is room for them. */
  method PublicEncrypt(k: Key, padding: RsaPadding, src: array<u8>, dst: array<u8>, tape: nat -> nat) returns (out: Run)
    requires Lawful(k, padding) && src != dst
    modifies dst
    ensures
      var n := CalculateCipherTextSize(k, src.Length, padding);
      if dst.Length < n then out == Panicked
      else out == Finished(n) && dst[..n] == EncryptBlocks(k, padding, src[..], tape, 0)
  {
    hide EncryptBlocks, Lawful, CalculateCipherTextSize, PlainTextBlockSize, Overhead, Remaining;
    HasRoom(k, padding);
    var block := PlainTextBlockSize(k, padding);
    var srcIdx, dstIdx, j := 0, 0, 0;
    ghost var m := src[..];
    ghost var total := EncryptBlocks(k, padding, m, tape, 0);
    EncryptLength(k, padding, m, tape, 0);
    AllRemains(k, padding, m, tape);
    while srcIdx < src.Length
      invariant 0 <= srcIdx <= src.Length && 0 <= dstIdx <= dst.Length && 0 <= j
      invariant src[..] == m && (src.Length < block ==> srcIdx == 0 || srcIdx == src.Length)
      invariant dst[..dstIdx] + Remaining(k, padding, m, srcIdx, tape, j) == total
    {
      var bytesToEncrypt :=
        if src.Length < block then src.Length
        else if src.Length - srcIdx < block then src.Length - srcIdx
        else block;
      var step := EncryptNext(k, padding, src, srcIdx, bytesToEncrypt, dst, dstIdx, tape, j);
      if step.Panicked? { return Panicked; }
      dstIdx := dstIdx + step.size;
      srcIdx := srcIdx + bytesToEncrypt;
      j := j + 1;
    }
    NothingRemains(k, padding, m, tape, j);
    assert dst[..dstIdx] + [] == dst[..dstIdx];
    out := Finished(dstIdx);
  }

  /** Decrypting into a buffer with `room` bytes left: every block needs room for a whole block, however short its text. */
  function DecryptInto(k: Key, c: bytes, room: nat): Blocks
    requires k.size > 0
    decreases |c|
  {
    if c == [] then Plain([])
    else if |c| < k.size || room < k.size then OutOfBounds
    else
      var block := k.decrypt(c[..k.size]);
      if block.None? then BadBlock
      else if |block.value| > room then OutOfBounds
      else Before(block.value, DecryptInto(k, c[k.size..], room - |block.value|))
  }

  /** A buffer at least as long as the input has room for every block. */
  lemma {:induction false} RoomIsEnough(k: Key, padding: RsaPadding, c: bytes, room: nat)
    requires Lawful(k, padding) && room >= |c|
    ensures DecryptInto(k, c, room) == DecryptBlocks(k, c)
    decreases |c|
  {
    if |c| >= k.size && k.decrypt(c[..k.size]).Some? {
      RoomIsEnough(k, padding, c[k.size..], room - |k.decrypt(c[..k.size]).value|);
    }
  }

  lemma NextBlock(k: Key, done: bytes, c: bytes, room: nat)
    requires k.size > 0 && c != []
    ensures Before(done, DecryptInto(k, c, room)) ==
            if |c| < k.size || room < k.size then OutOfBounds
            else if k.decrypt(c[..k.size]).None? then BadBlock
            else if |k.decrypt(c[..k.size]).value| > room then OutOfBounds
            else
              var text := k.decrypt(c[..k.size]).value;
              Before(done + text, DecryptInto(k, c[k.size..], room - |text|))
  {
    if |c| >= k.size && k.decrypt(c[..k.size]).Some? && |k.decrypt(c[..k.size]).value| <= room {
      var text := k.decrypt(c[..k.size]).value;
      var rest := DecryptInto(k, c[k.size..], room - |text|);
      if rest.Plain? { assert done + (text + rest.text) == done + text + rest.text; }
    }
  }

  lemma NothingDone(b: Blocks)
    ensures Before([], b) == b
  {
    if b.Plain? { assert [] + b.text == b.text; }
  }

  /** `private_decrypt` */
  method PrivateDecrypt(k: Key, padding: RsaPadding, src: array<u8>, dst: array<u8>) returns (out: Run)
    requires Lawful(k, padding) && src != dst
    modifies dst
    ensures
      match DecryptInto(k, src[..], dst.Length)
      case Plain(text) => out == Finished(|text|) && |text| <= dst.Length && dst[..|text|] == text
      case BadBlock => out == Failed
      case OutOfBounds => out == Panicked
  {
    hide DecryptInto;
    var srcIdx, dstIdx := 0, 0;
    ghost var total := DecryptInto(k, src[..], dst.Length);
    NothingDone(total);
    assert src[0..] == src[..] && dst[..0] == [];
    while srcIdx < src.Length
      invariant 0 <= srcIdx <= src.Length && 0 <= dstIdx <= dst.Length
      invariant Before(dst[..dstIdx], DecryptInto(k, src[srcIdx..], dst.Length - dstIdx)) == total
    {
      ghost var rest := src[srcIdx..];
      NextBlock(k, dst[..dstIdx], rest, dst.Length - dstIdx);
      if srcIdx + k.size > src.Length || dstIdx + k.size > dst.Length { return Panicked; }
      assert rest[..k.size] == src[srcIdx..srcIdx + k.size] && rest[k.size..] == src[srcIdx + k.size..];
      var plain := k.decrypt(src[srcIdx..srcIdx + k.size]);
      if plain.None? { return Failed; }
      CopyInto(dst, dstIdx, plain.value);
      dstIdx := dstIdx + |plain.value|;
      srcIdx := srcIdx + k.size;
    }
    EmptyCipher(k, dst.Length - dstIdx);
    assert src[srcIdx..] == [];
    assert dst[..dstIdx] + [] == dst[..dstIdx];
    out := Finished(dstIdx);
  }

  lemma EmptyCipher(k: Key, room: nat)
    requires k.size > 0
    ensures DecryptInto(k, [], room) == Plain([])
  {
  }

  // ---------------------------------------------------------------- passwords

  /** Length, password and nonce; the length is cut to 32 bits. */
  function PasswordMessage(password: string, nonce: bytes): (m: bytes)
    ensures |m| == 4 + |Utf8.Encode(password)| + |nonce|
  {
    var b := Utf8.Encode(password) + nonce;
    WriteU32(|b| % 0x1_0000_0000) + b
  }

  /** `legacy_password_encrypt`; its final assertion holds. */
  method LegacyPasswordEncrypt(password: string, nonce: bytes, k: Key, padding: RsaPadding, tape: nat -> nat)
      returns (secret: ByteString)
    requires Lawful(k, padding)
    ensures secret == Bytes(EncryptBlocks(k, padding, PasswordMessage(password, nonce), tape, 0))
  {
    var message := PasswordMessage(password, nonce);
    var src := new u8[|message|](i requires 0 <= i < |message| => message[i]);
    assert src[..] == message;
    var cipherSize := CalculateCipherTextSize(k, |message|, padding);
    var dst := new u8[cipherSize](_ => 0);
    var actual := PublicEncrypt(k, padding, src, dst, tape);
    assert actual == Finished(cipherSize);
    assert dst[..] == dst[..cipherSize];
    secret := Bytes(dst[..]);
  }

  /** The outcome of a call that may also stop at an index out of bounds. */
  datatype Outcome<T> = Returns(result: Result<T>) | Panics

  /** The checks made on a decrypted message. */
  function CheckPassword(m: bytes, nonce: bytes): Outcome<string> {
    if |m| < 4 || FromLe(m[..4]) + 4 != |m| then Returns(Err(BadDecodingError))
    else if |nonce| > |m| then Panics
    else
      var begin := |m| - |nonce|;
      if m[begin..] != nonce then Returns(Err(BadDecodingError))
      else if begin < 4 then Panics
      else
        var password := Utf8.Decode(m[4..begin]);
        Returns(if password.Some? then Ok(password.value) else Err(BadEncodingError))
  }

  function DecryptPassword(k: Key, secret: ByteString, nonce: bytes): Outcome<string>
    requires k.size > 0
  {
    if secret.NullBytes? then Returns(Err(BadDecodingError))
    else
      match DecryptBlocks(k, secret.data)
      case Plain(m) => CheckPassword(m, nonce)
      case BadBlock => Returns(Err(BadEncodingError))
      case OutOfBounds => Panics
  }

  /** `legacy_password_decrypt` */
  method LegacyPasswordDecrypt(secret: ByteString, nonce: bytes, k: Key, padding: RsaPadding)
      returns (out: Outcome<string>)
    requires Lawful(k, padding)
    ensures out == DecryptPassword(k, secret, nonce)
  {
    if secret.NullBytes? { return Returns(Err(BadDecodingError)); }
    var c := secret.data;
    var src := new u8[|c|](i requires 0 <= i < |c| => c[i]);
    assert src[..] == c;
    var dst := new u8[|c|](_ => 0);
    RoomIsEnough(k, padding, c, |c|);
    var actual := PrivateDecrypt(k, padding, src, dst);
    if actual.Failed? { return Returns(Err(BadEncodingError)); }
    if actual.Panicked? { return Panics; }
    ghost var m := DecryptBlocks(k, c).text;
    if dst.Length < 4 { return Returns(Err(BadDecodingError)); }
    var size := FromLe(dst[..4]);
    assert |m| >= 4 ==> dst[..4] == m[..4];
    if size + 4 != actual.size { return Returns(Err(BadDecodingError)); }
    if |nonce| > actual.size { return Panics; }
    var begin := actual.size - |nonce|;
    assert dst[begin..actual.size] == m[begin..];
    if dst[begin..actual.size] != nonce { return Returns(Err(BadDecodingError)); }
    if begin < 4 { return Panics; }
    assert dst[4..begin] == m[4..begin];
    var password := Utf8.Decode(dst[4..begin]);
    out := Returns(if password.Some? then Ok(password.value) else Err(BadEncodingError));
  }

  lemma PasswordMessageParts(password: string, nonce: bytes)
    ensures
      var m, p := PasswordMessage(password, nonce), Utf8.Encode(password);
      && FromLe(m[..4]) == (|p| + |nonce|) % 0x1_0000_0000
      && m[4..] == p + nonce
      && m[4..|m| - |nonce|] == p && m[|m| - |nonce|..] == nonce
  {
    hide Utf8.Encode, WriteU32;
    var p := Utf8.Encode(password);
    var n := (|p| + |nonce|) % 0x1_0000_0000;
    WrittenLength(n);
    SliceParts(WriteU32(n), p, nonce);
  }

  lemma WrittenLength(n: u32)
    ensures |WriteU32(n)| == 4 && FromLe(WriteU32(n)) == n
  {
    PowersOf256();
    FromLeInvertsLe(n, 4);
  }

  lemma SliceParts(a: bytes, b: bytes, c: bytes)
    ensures
      var m := a + (b + c);
      && m[..|a|] == a && m[|a|..] == b + c
      && m[|a|..|m| - |c|] == b && m[|m| - |c|..] == c
  {
  }

  lemma CutLength(n: nat)
    ensures n % 0x1_0000_0000 == n <==> n < 0x1_0000_0000
  {
  }

  /** A password is recovered, from any of its cipher texts, exactly when it and the nonce are shorter than 2^32 bytes. */
  lemma PasswordRoundTripIff(password: string, nonce: bytes, k: Key, padding: RsaPadding, tape: nat -> nat)
    requires Lawful(k, padding)
    ensures
      var secret := Bytes(EncryptBlocks(k, padding, PasswordMessage(password, nonce), tape, 0));
      DecryptPassword(k, secret, nonce) == Returns(Ok(password)) <==> |Utf8.Encode(password)| + |nonce| < 0x1_0000_0000
  {
    hide Lawful, EncryptBlocks, DecryptBlocks, PasswordMessage, CheckPassword;
    DecryptInvertsEncrypt(k, padding, PasswordMessage(password, nonce), tape, 0);
    MessageChecks(password, nonce);
  }

  /** A nonce of 2^32 bytes with which no password is. */
  lemma LongNonceExample(password: string, k: Key, padding: RsaPadding, tape: nat -> nat)
    requires Lawful(k, padding)
    ensures
      var nonce: bytes := seq(0x1_0000_0000, _ => 0);
      var secret := Bytes(EncryptBlocks(k, padding, PasswordMessage(password, nonce), tape, 0));
      DecryptPassword(k, secret, nonce) != Returns(Ok(password))
  {
    hide Lawful, EncryptBlocks, DecryptPassword, PasswordMessage;
    PasswordRoundTripIff(password, seq(0x1_0000_0000, _ => 0), k, padding, tape);
  }

  lemma MessageChecks(password: string, nonce: bytes)
    ensures CheckPassword(PasswordMessage(password, nonce), nonce) ==
            Returns(if |Utf8.Encode(password)| + |nonce| < 0x1_0000_0000 then Ok(password) else Err(BadDecodingError))
  {
    PasswordMessageParts(password, nonce);
    Utf8.DecodeInvertsEncode(password);
    CutLength(|Utf8.Encode(password)| + |nonce|);
    hide PasswordMessage, Utf8.Encode, Utf8.Decode, FromLe;
  }

  /** What refuses a secret: null, a block that does not decrypt, a length that does not match; a partial block and a
      nonce longer than the message stop the call. */
  lemma SecretsRefused(k: Key, c: bytes, nonce: bytes)
    requires k.size > 0
    ensures DecryptPassword(k, NullBytes, nonce) == Returns(Err(BadDecodingError))
    ensures 0 < |c| < k.size ==> DecryptPassword(k, Bytes(c), nonce) == Panics
    ensures |c| == k.size && k.decrypt(c).None? ==> DecryptPassword(k, Bytes(c), nonce) == Returns(Err(BadEncodingError))
    ensures
      |c| == k.size && k.decrypt(c).Some? ==>
        var m := k.decrypt(c).value;
        && (|m| < 4 || FromLe(m[..4]) + 4 != |m| ==> DecryptPassword(k, Bytes(c), nonce) == Returns(Err(BadDecodingError)))
        && (|m| >= 4 && FromLe(m[..4]) + 4 == |m| && |nonce| > |m| ==> DecryptPassword(k, Bytes(c), nonce) == Panics)
  {
    hide FromLe, Utf8.Decode;
    if |c| == k.size {
      assert c[..k.size] == c && c[k.size..] == [];
      assert DecryptBlocks(k, []) == Plain([]);
      if k.decrypt(c).Some? { assert k.decrypt(c).value + [] == k.decrypt(c).value; }
    }
  }

  /** Another nonce of the same length is refused. */
  lemma OtherNonceIsRefused(password: string, nonce: bytes, other: bytes, k: Key, padding: RsaPadding, tape: nat -> nat)
    requires Lawful(k, padding) && other != nonce && |other| == |nonce|
    ensures
      var secret := Bytes(EncryptBlocks(k, padding, PasswordMessage(password, nonce), tape, 0));
      DecryptPassword(k, secret, other) == Returns(Err(BadDecodingError))
  {
    hide Lawful, EncryptBlocks, DecryptBlocks, PasswordMessage;
    DecryptInvertsEncrypt(k, padding, PasswordMessage(password, nonce), tape, 0);
    PasswordMessageParts(password, nonce);
  }
}
