/** Integers, byte runs and arrays on the wire (lib/src/types/encoding.rs, basic_types.rs; OPC UA Part 6, section 5.2). */
module Wire {
  import opened Prelude

  /** What a decoder returns: a value with the bytes it left unread, or a status. */
  datatype Decoded<+T> = Got(value: T, rest: bytes) | Bad(status: Status) {
    predicate IsFailure() { Bad? }

    function PropagateFailure<U>(): Decoded<U>
      requires Bad?
    { Bad(status) }

    function Extract(): (T, bytes)
      requires Got?
    { (value, rest) }
  }

  /** `DecodingOptions`: limits, clock offset in nanoseconds and the bound of the depth gauge. */
  datatype Options = Options(
    clientOffset: int,
    maxStringLength: nat,
    maxByteStringLength: nat,
    maxArrayLength: nat,
    maxDepth: nat)

  // ---------------------------------------------------------------- little-endian integers

  function Pow256(k: nat): nat { if k == 0 then 1 else 256 * Pow256(k - 1) }

  function Le(n: nat, k: nat): (b: bytes)
    ensures |b| == k
  {
    if k == 0 then [] else [n % 256] + Le(n / 256, k - 1)
  }

  function FromLe(b: bytes): (n: nat)
    ensures n < Pow256(|b|)
  {
    if b == [] then 0 else b[0] as nat + 256 * FromLe(b[1..])
  }

  lemma {:induction false} FromLeInvertsLe(n: nat, k: nat)
    requires n < Pow256(k)
    ensures FromLe(Le(n, k)) == n
  {
    if k > 0 {
      FromLeInvertsLe(n / 256, k - 1);
      assert Le(n, k)[1..] == Le(n / 256, k - 1);
    }
  }

  lemma {:induction false} LeInvertsFromLe(b: bytes)
    ensures Le(FromLe(b), |b|) == b
  {
    if b != [] {
      LeInvertsFromLe(b[1..]);
      assert FromLe(b) % 256 == b[0] && FromLe(b) / 256 == FromLe(b[1..]);
    }
  }

  /** `read_exact` */
  function Take(s: bytes, n: nat): Decoded<bytes> {
    if n <= |s| then Got(s[..n], s[n..]) else Bad(BadDecodingError)
  }

  function ReadUint(s: bytes, k: nat): (d: Decoded<nat>)
    ensures d.Got? <==> k <= |s|
    ensures d.Got? ==> d.value < Pow256(k) && d.rest == s[k..]
  {
    var (b, rest) :- Take(s, k);
    Got(FromLe(b), rest)
  }

  /** The two's complement reading of `n` in `k` bytes. */
  function Signed(n: nat, k: nat): int
  {
    if 2 * n < Pow256(k) then n else n - Pow256(k)
  }

  function Unsigned(v: int, k: nat): int {
    if v >= 0 then v else v + Pow256(k)
  }

  lemma PowersOf256()
    ensures Pow256(1) == 0x100 && Pow256(2) == 0x1_0000 && Pow256(4) == 0x1_0000_0000
    ensures Pow256(8) == 0x1_0000_0000_0000_0000
  {
    assert Pow256(3) == 0x100_0000;
    assert Pow256(5) == 0x100_0000_0000;
    assert Pow256(6) == 0x1_0000_0000_0000;
  }

  function WriteU8(v: u8): bytes { [v] }
  function WriteU16(v: u16): bytes { Le(v, 2) }
  function WriteU32(v: u32): bytes { Le(v, 4) }
  function WriteU64(v: u64): bytes { Le(v, 8) }
  function WriteI8(v: i8): bytes { PowersOf256(); Le(Unsigned(v, 1), 1) }
  function WriteI16(v: i16): bytes { PowersOf256(); Le(Unsigned(v, 2), 2) }
  function WriteI32(v: i32): bytes { PowersOf256(); Le(Unsigned(v, 4), 4) }
  function WriteI64(v: i64): bytes { PowersOf256(); Le(Unsigned(v, 8), 8) }

  function ReadU8(s: bytes): Decoded<u8> { if s == [] then Bad(BadDecodingError) else Got(s[0], s[1..]) }

  function ReadU16(s: bytes): (d: Decoded<u16>)
    ensures d.Got? ==> |d.rest| == |s| - 2
  {
    PowersOf256();
    var (n, rest) :- ReadUint(s, 2);
    Got(n, rest)
  }

  function ReadU32(s: bytes): (d: Decoded<u32>)
    ensures d.Got? ==> |d.rest| == |s| - 4
  {
    PowersOf256();
    var (n, rest) :- ReadUint(s, 4);
    Got(n, rest)
  }

  function ReadU64(s: bytes): (d: Decoded<u64>)
    ensures d.Got? ==> |d.rest| == |s| - 8
  {
    PowersOf256();
    var (n, rest) :- ReadUint(s, 8);
    Got(n, rest)
  }

  function ReadI8(s: bytes): (d: Decoded<i8>)
    ensures d.Got? ==> |d.rest| == |s| - 1
  {
    PowersOf256();
    var (n, rest) :- ReadUint(s, 1);
    Got(Signed(n, 1), rest)
  }

  function ReadI16(s: bytes): (d: Decoded<i16>)
    ensures d.Got? ==> |d.rest| == |s| - 2
  {
    PowersOf256();
    var (n, rest) :- ReadUint(s, 2);
    Got(Signed(n, 2), rest)
  }

  function ReadI32(s: bytes): (d: Decoded<i32>)
    ensures d.Got? ==> |d.rest| == |s| - 4
  {
    PowersOf256();
    var (n, rest) :- ReadUint(s, 4);
    Got(Signed(n, 4), rest)
  }

  function ReadI64(s: bytes): (d: Decoded<i64>)
    ensures d.Got? ==> |d.rest| == |s| - 8
  {
    PowersOf256();
    var (n, rest) :- ReadUint(s, 8);
    Got(Signed(n, 8), rest)
  }

  lemma TakeWritten(b: bytes, rest: bytes)
    ensures Take(b + rest, |b|) == Got(b, rest)
  {
    assert (b + rest)[..|b|] == b && (b + rest)[|b|..] == rest;
  }

  lemma ReadUintWritten(n: nat, k: nat, rest: bytes)
    requires n < Pow256(k)
    ensures ReadUint(Le(n, k) + rest, k) == Got(n, rest)
  {
    TakeWritten(Le(n, k), rest);
    FromLeInvertsLe(n, k);
  }

  lemma TakeExtends(s: bytes, n: nat, more: bytes)
    requires n <= |s|
    ensures Take(s + more, n) == Got(Take(s, n).value, Take(s, n).rest + more)
  {
    assert (s + more)[..n] == s[..n] && (s + more)[n..] == s[n..] + more;
  }

  lemma ReadU8Written(v: u8, rest: bytes)
    ensures ReadU8(WriteU8(v) + rest) == Got(v, rest)
  {
    assert ([v] + rest)[1..] == rest;
  }

  lemma ReadU16Written(v: u16, rest: bytes)
    ensures ReadU16(WriteU16(v) + rest) == Got(v, rest)
  { PowersOf256(); ReadUintWritten(v, 2, rest); }

  lemma ReadU32Written(v: u32, rest: bytes)
    ensures ReadU32(WriteU32(v) + rest) == Got(v, rest)
  { PowersOf256(); ReadUintWritten(v, 4, rest); }

  lemma ReadU64Written(v: u64, rest: bytes)
    ensures ReadU64(WriteU64(v) + rest) == Got(v, rest)
  { PowersOf256(); ReadUintWritten(v, 8, rest); }

  lemma ReadI8Written(v: i8, rest: bytes)
    ensures ReadI8(WriteI8(v) + rest) == Got(v, rest)
  { PowersOf256(); ReadUintWritten(Unsigned(v, 1), 1, rest); }

  lemma ReadI16Written(v: i16, rest: bytes)
    ensures ReadI16(WriteI16(v) + rest) == Got(v, rest)
  { PowersOf256(); ReadUintWritten(Unsigned(v, 2), 2, rest); }

  lemma ReadI32Written(v: i32, rest: bytes)
    ensures ReadI32(WriteI32(v) + rest) == Got(v, rest)
  { PowersOf256(); ReadUintWritten(Unsigned(v, 4), 4, rest); }

  lemma ReadI64Written(v: i64, rest: bytes)
    ensures ReadI64(WriteI64(v) + rest) == Got(v, rest)
  { PowersOf256(); ReadUintWritten(Unsigned(v, 8), 8, rest); }
}
