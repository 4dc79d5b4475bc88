/** The pseudo-random function and the keys cut from it (lib/src/crypto/{hash,security_policy}.rs;
    OPC UA Part 6, section 6.7.5). */
module KeyDerivation {
  import opened Prelude

  /** A keyed hash: key and data to a code that is never empty. */
  type Hmac = h: (bytes, bytes) -> bytes | forall key: bytes, data: bytes :: h(key, data) != [] witness (_, _) => [0]

  // ---------------------------------------------------------------- the stream

  /** A(0) is the seed; A(n) is the code of A(n - 1). */
  function A(h: Hmac, secret: bytes, seed: bytes, n: nat): bytes {
    if n == 0 then seed else h(secret, A(h, secret, seed, n - 1))
  }

  /** The first `n` codes of the sequence, one after another. */
  function Stream(h: Hmac, secret: bytes, seed: bytes, n: nat): (s: bytes)
    ensures |s| >= n
  {
    if n == 0 then []
    else Stream(h, secret, seed, n - 1) + h(secret, A(h, secret, seed, n) + seed)
  }

  lemma {:induction false} StreamGrows(h: Hmac, secret: bytes, seed: bytes, i: nat, j: nat)
    requires i <= j
    ensures Stream(h, secret, seed, i) <= Stream(h, secret, seed, j)
  {
    if i < j { StreamGrows(h, secret, seed, i, j - 1); }
  }

  /** The first `length` bytes of the endless stream. */
  function PHash(h: Hmac, secret: bytes, seed: bytes, length: nat): (r: bytes)
    ensures |r| == length
  {
    Stream(h, secret, seed, length)[..length]
  }

  /** `p_sha` */
  method PSha(h: Hmac, secret: bytes, seed: bytes, length: nat) returns (result: bytes)
    ensures result == PHash(h, secret, seed, length)
  {
    hide Stream, A;
    result := [];
    var last := seed;
    ghost var n := 0;
    StreamStarts(h, secret, seed);
    while |result| < length
      invariant 0 <= n <= |result| && last == A(h, secret, seed, n) && result == Stream(h, secret, seed, n)
      invariant n <= length
      decreases length - n
    {
      StreamNext(h, secret, seed, n);
      var next := h(secret, last);
      var code := h(secret, next + seed);
      result := result + code;
      last := next;
      n := n + 1;
    }
    StreamGrows(h, secret, seed, n, length);
    result := result[..length];
  }

  lemma StreamStarts(h: Hmac, secret: bytes, seed: bytes)
    ensures A(h, secret, seed, 0) == seed && Stream(h, secret, seed, 0) == []
  {
  }

  lemma StreamNext(h: Hmac, secret: bytes, seed: bytes, n: nat)
    ensures A(h, secret, seed, n + 1) == h(secret, A(h, secret, seed, n))
    ensures Stream(h, secret, seed, n + 1) == Stream(h, secret, seed, n) + h(secret, A(h, secret, seed, n + 1) + seed)
  {
  }

  /** Asking for more bytes never changes those already given. */
  lemma PHashIsPrefix(h: Hmac, secret: bytes, seed: bytes, length: nat, longer: nat)
    requires length <= longer
    ensures PHash(h, secret, seed, length) == PHash(h, secret, seed, longer)[..length]
  {
    StreamGrows(h, secret, seed, length, longer);
  }

  /** The first two codes: each hashes an iterated hash of the seed, followed by the seed. */
  lemma FirstCodes(h: Hmac, secret: bytes, seed: bytes, length: nat)
    ensures
      var one := h(secret, h(secret, seed) + seed);
      var two := h(secret, h(secret, h(secret, seed)) + seed);
      && (length <= |one| ==> PHash(h, secret, seed, length) == one[..length])
      && (length <= |one + two| ==> PHash(h, secret, seed, length) == (one + two)[..length])
  {
    hide Stream, A;
    StreamStarts(h, secret, seed);
    StreamNext(h, secret, seed, 0);
    StreamNext(h, secret, seed, 1);
    var one := h(secret, h(secret, seed) + seed);
    assert [] + one == one;
    if length > 0 { StreamGrows(h, secret, seed, 1, length); }
    if length > 1 { StreamGrows(h, secret, seed, 2, length); }
  }

  // ---------------------------------------------------------------- keys

  datatype SecurityPolicy = Aes128Sha256RsaOaep | Basic256Sha256 | Aes256Sha256RsaPss | Basic128Rsa15 | Basic256

  /** The two digests of the policies. */
  datatype Digests = Digests(sha1: Hmac, sha256: Hmac)

  function DerivedSignatureKeySize(policy: SecurityPolicy): nat {
    (match policy
     case Basic128Rsa15 => 128
     case Basic256 => 192
     case _ => 256) / 8
  }

  /** The lengths of the encrypting key and of the block. */
  function EncryptingLengths(policy: SecurityPolicy): (nat, nat) {
    match policy
    case Basic128Rsa15 => (16, 16)
    case Aes128Sha256RsaOaep => (16, 16)
    case _ => (32, 16)
  }

  function DigestOf(d: Digests, policy: SecurityPolicy): Hmac {
    match policy
    case Basic128Rsa15 => d.sha1
    case Basic256 => d.sha1
    case _ => d.sha256
  }

  /** `prf` */
  method Prf(d: Digests, policy: SecurityPolicy, secret: bytes, seed: bytes, length: nat, offset: nat) returns (r: bytes)
    ensures r == PHash(DigestOf(d, policy), secret, seed, offset + length)[offset..]
  {
    var result := PSha(DigestOf(d, policy), secret, seed, offset + length);
    r := result[offset..offset + length];
  }

  /** `make_secure_channel_keys`: three separate runs of the function cut one stretch of its output, without gap and
      without overlap, into keys of the policy's lengths. */
  method MakeSecureChannelKeys(d: Digests, policy: SecurityPolicy, secret: bytes, seed: bytes)
      returns (signingKey: bytes, encryptingKey: bytes, iv: bytes)
    ensures (|signingKey|, |encryptingKey|, |iv|) ==
            match policy
            case Basic128Rsa15 => (16, 16, 16)
            case Basic256 => (24, 32, 16)
            case Basic256Sha256 => (32, 32, 16)
            case Aes128Sha256RsaOaep => (32, 16, 16)
            case Aes256Sha256RsaPss => (32, 32, 16)
    ensures
      var h := if policy.Basic128Rsa15? || policy.Basic256? then d.sha1 else d.sha256;
      signingKey + encryptingKey + iv == PHash(h, secret, seed, |signingKey| + |encryptingKey| + |iv|)
  {
    var signing := DerivedSignatureKeySize(policy);
    var (encrypting, block) := EncryptingLengths(policy);
    signingKey := Prf(d, policy, secret, seed, signing, 0);
    encryptingKey := Prf(d, policy, secret, seed, encrypting, signing);
    iv := Prf(d, policy, secret, seed, block, signing + encrypting);
    ContiguousCuts(DigestOf(d, policy), secret, seed, signing, encrypting, block);
  }

  lemma ContiguousCuts(h: Hmac, secret: bytes, seed: bytes, a: nat, b: nat, c: nat)
    ensures PHash(h, secret, seed, a) + PHash(h, secret, seed, a + b)[a..] + PHash(h, secret, seed, a + b + c)[a + b..] ==
            PHash(h, secret, seed, a + b + c)
    ensures PHash(h, secret, seed, 0 + a)[0..] == PHash(h, secret, seed, a)
    ensures PHash(h, secret, seed, a + b) == PHash(h, secret, seed, a + b + c)[..a + b]
  {
    PHashIsPrefix(h, secret, seed, a, a + b);
    PHashIsPrefix(h, secret, seed, a + b, a + b + c);
  }
}
