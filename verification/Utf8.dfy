/** UTF-8 as `String::as_bytes` writes it and `String::from_utf8` accepts it (Unicode Standard, Table 3-7). */
module Utf8 {
  import opened Prelude

  /** The bytes of one scalar value. */
  function EncodeChar(c: char): (b: bytes)
    ensures 1 <= |b| <= 4
  {
    var v := c as int;
    if v < 0x80 then [v]
    else if v < 0x800 then [0xC0 + v / 64, 0x80 + v % 64]
    else if v < 0x1_0000 then [0xE0 + v / 4096, 0x80 + v / 64 % 64, 0x80 + v % 64]
    else [0xF0 + v / 262144, 0x80 + v / 4096 % 64, 0x80 + v / 64 % 64, 0x80 + v % 64]
  }

  function Encode(s: string): bytes {
    if s == [] then [] else EncodeChar(s[0]) + Encode(s[1..])
  }

  predicate Tail(b: u8) { 0x80 <= b < 0xC0 }

  /** Appends the six payload bits of a continuation byte. */
  function Join(high: int, tail: int): int { high * 64 + tail - 0x80 }

  /** The first scalar value of `b` with the number of bytes it takes, if `b` starts with a well-formed one. */
  function DecodeChar(b: bytes): (r: Option<(char, nat)>)
    ensures r.Some? ==> 1 <= r.value.1 <= |b|
  {
    if |b| == 0 then None
    else if b[0] < 0x80 then Some((b[0] as char, 1))
    else if 0xC2 <= b[0] < 0xE0 && |b| >= 2 && Tail(b[1]) then
      Some((Join(b[0] - 0xC0, b[1]) as char, 2))
    else if 0xE0 <= b[0] < 0xF0 && |b| >= 3 && Tail(b[1]) && Tail(b[2])
            && (b[0] == 0xE0 ==> b[1] >= 0xA0) && (b[0] == 0xED ==> b[1] < 0xA0) then
      Some((Join(Join(b[0] - 0xE0, b[1]), b[2]) as char, 3))
    else if 0xF0 <= b[0] < 0xF5 && |b| >= 4 && Tail(b[1]) && Tail(b[2]) && Tail(b[3])
            && (b[0] == 0xF0 ==> b[1] >= 0x90) && (b[0] == 0xF4 ==> b[1] < 0x90) then
      Some((Join(Join(Join(b[0] - 0xF0, b[1]), b[2]), b[3]) as char, 4))
    else None
  }

  function Decode(b: bytes): Option<string> {
    if b == [] then Some([])
    else match DecodeChar(b)
      case None => None
      case Some((c, n)) =>
        match Decode(b[n..])
        case None => None
        case Some(s) => Some([c] + s)
  }

  lemma JoinDivides(high: int, tail: int)
    requires high >= 0 && 0x80 <= tail < 0xC0
    ensures Join(high, tail) / 64 == high && 0x80 + Join(high, tail) % 64 == tail
  {
  }

  lemma DecodeCharInvertsEncodeChar(c: char, rest: bytes)
    ensures DecodeChar(EncodeChar(c) + rest) == Some((c, |EncodeChar(c)|))
  {
    var v := c as int;
    assert v == Join(v / 64, 0x80 + v % 64);
    assert v / 64 == Join(v / 4096, 0x80 + v / 64 % 64);
    assert v / 4096 == Join(v / 262144, 0x80 + v / 4096 % 64);
  }

  lemma EncodeCharInvertsDecodeChar(b: bytes)
    requires DecodeChar(b).Some?
    ensures EncodeChar(DecodeChar(b).value.0) == b[..DecodeChar(b).value.1]
  {
    var n := DecodeChar(b).value.1;
    if n == 2 {
      JoinDivides(b[0] - 0xC0, b[1]);
    } else if n == 3 {
      var top := Join(b[0] - 0xE0, b[1]);
      JoinDivides(b[0] - 0xE0, b[1]);
      JoinDivides(top, b[2]);
      assert Join(top, b[2]) / 4096 == b[0] - 0xE0;
    } else if n == 4 {
      var top := Join(b[0] - 0xF0, b[1]);
      var mid := Join(top, b[2]);
      JoinDivides(b[0] - 0xF0, b[1]);
      JoinDivides(top, b[2]);
      JoinDivides(mid, b[3]);
      assert Join(mid, b[3]) / 4096 == top;
      assert Join(mid, b[3]) / 262144 == b[0] - 0xF0;
    }
  }

  /** Every string survives encoding and validation. */
  lemma {:induction false} DecodeInvertsEncode(s: string)
    ensures Decode(Encode(s)) == Some(s)
  {
    if s != [] {
      DecodeCharInvertsEncodeChar(s[0], Encode(s[1..]));
      var b := EncodeChar(s[0]) + Encode(s[1..]);
      assert b == Encode(s) && b[|EncodeChar(s[0])|..] == Encode(s[1..]);
      DecodeInvertsEncode(s[1..]);
      assert s == [s[0]] + s[1..];
    }
  }

  lemma EncodeCons(c: char, s: string)
    ensures Encode([c] + s) == EncodeChar(c) + Encode(s)
  {
    assert ([c] + s)[1..] == s;
  }

  /** Validated bytes are exactly the bytes of the string they denote. */
  lemma {:induction false} EncodeInvertsDecode(b: bytes)
    requires Decode(b).Some?
    ensures Encode(Decode(b).value) == b
  {
    if b != [] {
      var (c, n) := DecodeChar(b).value;
      var rest := Decode(b[n..]).value;
      EncodeCharInvertsDecodeChar(b);
      EncodeInvertsDecode(b[n..]);
      EncodeCons(c, rest);
      assert Decode(b).value == [c] + rest;
    }
  }

  lemma {:induction false} EncodeConcat(s: string, t: string)
    ensures Encode(s + t) == Encode(s) + Encode(t)
  {
    if s == [] {
      assert s + t == t;
    } else {
      assert (s + t)[1..] == s[1..] + t;
      EncodeConcat(s[1..], t);
    }
  }
}
