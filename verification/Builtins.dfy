/** The binary codec of the hand-written built-in types that hold no variant
    (OPC UA Part 6, section 5.2.2; lib/src/types/{string,byte_string,guid,node_id,expanded_node_id,
    qualified_name,localized_text,extension_object,diagnostic_info}.rs). */
module Builtins {
  import opened Prelude
  import opened Wire
  import opened UaTypes
  import Utf8

  /** Decoding more input gives the same value and leaves the extra bytes unread. */
  predicate Stable<T(==)>(d: Decoded<T>, extended: Decoded<T>, more: bytes) {
    d.Got? ==> extended == Got(d.value, d.rest + more)
  }

  /** The bytes a successful decoder took from `s`. */
  function Taken<T>(s: bytes, d: Decoded<T>): int
    requires d.Got?
  {
    |s| - |d.rest|
  }

  // ---------------------------------------------------------------- encoding masks

  /** The byte whose bit `i` is `bits[i]`. */
  function Mask(bits: seq<bool>): nat {
    if bits == [] then 0 else (if bits[0] then 1 else 0) + 2 * Mask(bits[1..])
  }

  predicate HasBit(mask: nat, i: nat) {
    if i == 0 then mask % 2 == 1 else HasBit(mask / 2, i - 1)
  }

  lemma {:induction false} BitOfMask(bits: seq<bool>, i: nat)
    requires i < |bits|
    ensures HasBit(Mask(bits), i) == bits[i]
  {
    if i > 0 {
      BitOfMask(bits[1..], i - 1);
      assert Mask(bits) / 2 == Mask(bits[1..]);
    }
  }

  lemma {:induction false} MaskIsByte(bits: seq<bool>)
    requires |bits| <= 8
    ensures Mask(bits) < 256
  {
    MaskBound(bits, [1, 2, 4, 8, 16, 32, 64, 128, 256]);
  }

  lemma {:induction false} MaskBound(bits: seq<bool>, bounds: seq<nat>)
    requires |bits| < |bounds| && bounds[0] == 1
    requires forall i :: 0 <= i && i + 1 < |bounds| ==> bounds[i + 1] == 2 * bounds[i]
    ensures Mask(bits) < bounds[|bits|]
  {
    if bits != [] {
      MaskBound(bits[1..], bounds);
      assert bounds[|bits| - 1 + 1] == 2 * bounds[|bits| - 1];
    }
  }

  // ---------------------------------------------------------------- strings and byte strings

  /** `len as i32` */
  function AsI32(n: nat): i32 {
    PowersOf256();
    Signed(n % 0x1_0000_0000, 4)
  }

  lemma AsI32Keeps(n: nat)
    requires n < 0x8000_0000
    ensures AsI32(n) == n
  {
    PowersOf256();
  }

  function EncodeRun(b: bytes): bytes { WriteI32(AsI32(|b|)) + b }

  /** A length-prefixed run of bytes: `None` for the length -1. */
  function DecodeRun(s: bytes, max: nat): (d: Decoded<Option<bytes>>)
    ensures d.Got? ==> Taken(s, d) == if d.value.None? then 4 else 4 + |d.value.value|
    ensures d.Got? && d.value.Some? ==> |d.value.value| <= max && |d.value.value| < 0x8000_0000
  {
    var (len, rest) :- ReadI32(s);
    if len == -1 then Got(None, rest)
    else if len < -1 || len > max then Bad(BadDecodingError)
    else
      var (b, rest) :- Take(rest, len);
      Got(Some(b), rest)
  }

  predicate RunFits(b: bytes, max: nat) { |b| <= max && |b| < 0x8000_0000 }

  lemma RunRoundTrip(b: bytes, max: nat, rest: bytes)
    requires RunFits(b, max)
    ensures DecodeRun(EncodeRun(b) + rest, max) == Got(Some(b), rest)
    ensures |EncodeRun(b)| == 4 + |b|
  {
    AsI32Keeps(|b|);
    assert EncodeRun(b) + rest == WriteI32(|b|) + (b + rest);
    ReadI32Written(|b|, b + rest);
    TakeWritten(b, rest);
  }

  lemma NullRunRoundTrip(max: nat, rest: bytes)
    ensures DecodeRun(WriteI32(-1) + rest, max) == Got(None, rest)
  {
    ReadI32Written(-1, rest);
  }

  lemma RunExtends(s: bytes, max: nat, more: bytes)
    ensures Stable(DecodeRun(s, max), DecodeRun(s + more, max), more)
  {
    if DecodeRun(s, max).Got? {
      TakeExtends(s, 4, more);
      var rest := ReadI32(s).rest;
      if ReadI32(s).value >= 0 { TakeExtends(rest, ReadI32(s).value, more); }
    }
  }

  function EncodeString(v: UAString): bytes {
    if v.Null? then WriteI32(-1) else EncodeRun(Utf8.Encode(v.text))
  }

  function StringLength(v: UAString): nat { 4 + if v.Null? then 0 else |Utf8.Encode(v.text)| }

  function DecodeString(s: bytes, o: Options): (d: Decoded<UAString>)
    ensures d.Got? ==> Taken(s, d) == StringLength(d.value) && StringFits(d.value, o)
  {
    var (run, rest) :- DecodeRun(s, o.maxStringLength);
    if run.None? then Got(Null, rest)
    else match Utf8.Decode(run.value)
      case None => Bad(BadDecodingError)
      case Some(text) =>
        Utf8.EncodeInvertsDecode(run.value);
        Got(Str(text), rest)
  }

  predicate StringFits(v: UAString, o: Options) {
    v.Str? ==> RunFits(Utf8.Encode(v.text), o.maxStringLength)
  }

  lemma StringRoundTrip(v: UAString, o: Options, rest: bytes)
    requires StringFits(v, o)
    ensures DecodeString(EncodeString(v) + rest, o) == Got(v, rest)
  {
    if v.Null? {
      NullRunRoundTrip(o.maxStringLength, rest);
    } else {
      RunRoundTrip(Utf8.Encode(v.text), o.maxStringLength, rest);
      Utf8.DecodeInvertsEncode(v.text);
    }
  }

  lemma StringExtends(s: bytes, o: Options, more: bytes)
    ensures Stable(DecodeString(s, o), DecodeString(s + more, o), more)
  {
    RunExtends(s, o.maxStringLength, more);
  }

  function EncodeByteString(v: ByteString): bytes {
    if v.NullBytes? then WriteI32(-1) else EncodeRun(v.data)
  }

  function ByteStringLength(v: ByteString): nat { 4 + if v.NullBytes? then 0 else |v.data| }

  function DecodeByteString(s: bytes, o: Options): (d: Decoded<ByteString>)
    ensures d.Got? ==> Taken(s, d) == ByteStringLength(d.value) && ByteStringFits(d.value, o)
  {
    var (run, rest) :- DecodeRun(s, o.maxByteStringLength);
    Got(if run.None? then NullBytes else Bytes(run.value), rest)
  }

  predicate ByteStringFits(v: ByteString, o: Options) {
    v.Bytes? ==> RunFits(v.data, o.maxByteStringLength)
  }

  lemma ByteStringRoundTrip(v: ByteString, o: Options, rest: bytes)
    requires ByteStringFits(v, o)
    ensures DecodeByteString(EncodeByteString(v) + rest, o) == Got(v, rest)
  {
    if v.NullBytes? {
      NullRunRoundTrip(o.maxByteStringLength, rest);
    } else {
      RunRoundTrip(v.data, o.maxByteStringLength, rest);
    }
  }

  lemma ByteStringExtends(s: bytes, o: Options, more: bytes)
    ensures Stable(DecodeByteString(s, o), DecodeByteString(s + more, o), more)
  {
    RunExtends(s, o.maxByteStringLength, more);
  }

  function DecodeGuid(s: bytes): (d: Decoded<Guid>)
    ensures d.Got? ==> Taken(s, d) == 16
  {
    var (g, rest) :- Take(s, 16);
    Got(g, rest)
  }
}
