/** Running the generated code: its meaning on typed values, and what it preserves for every schema. */
module SchemaLaws {
  import opened Prelude
  import opened Wire
  import opened Builtins
  import Scalars
  import opened Variants
  import opened VariantLaws
  import opened Schema

  /** A value of a generated Rust type. */
  datatype Value =
    | Prim(variant: Variant)
    | Number(n: int)
    | List(items: Option<seq<Value>>)
    | Record(fields: map<string, Value>)

  // ---------------------------------------------------------------- typing

  predicate InRange(w: Width, n: int) {
    match w
    case W8 => 0 <= n < 0x100
    case W16 => -0x8000 <= n < 0x8000
    case W32 => -0x8000_0000 <= n < 0x8000_0000
    case W64 => -0x8000_0000_0000_0000 <= n < 0x8000_0000_0000_0000
  }

  predicate HasType(v: Value, t: TypeRef)
    decreases Height(t), 1
  {
    match t
    case Builtin(id) => v.Prim? && !v.variant.Array? && TypeOf(v.variant) == id && WellTyped(v.variant)
    case Enum(e) => v.Number? && v.n in e.values && InRange(e.width, v.n)
    case Struct(decls) =>
      && v.Record?
      && v.fields.Keys == (set f <- StructFields(decls) :: f.name)
      && forall f <- StructFields(decls) :: f.name in v.fields && FieldHasType(v.fields[f.name], f)
  }

  predicate FieldHasType(v: Value, f: Field)
    decreases Height(f.typ), 2
  {
    if f.isArray then v.List? && (v.items.Some? ==> forall x <- v.items.value :: HasType(x, f.typ))
    else HasType(v, f.typ)
  }

  /** Every emitted line loads a field that the structure has, at its type. */
  predicate Runs(lines: seq<Statement>, self: map<string, Value>, height: nat) {
    forall l <- lines ::
      l.field.name in self && Height(l.field.typ) < height && FieldHasType(self[l.field.name], l.field)
  }

  // ---------------------------------------------------------------- running `encode`

  function EncodeEnum(e: EnumDecl, n: int): bytes
    requires InRange(e.width, n)
  {
    match e.width
    case W8 => WriteU8(n)
    case W16 => WriteI16(n)
    case W32 => WriteI32(n)
    case W64 => WriteI64(n)
  }

  function EncodeType(t: TypeRef, v: Value): bytes
    requires HasType(v, t)
    decreases Height(t), 1
  {
    match t
    case Builtin(_) =>
      WellTypedIsEncodable(v.variant);
      EncodePayload(v.variant)
    case Enum(e) => EncodeEnum(e, v.n)
    case Struct(decls) => RunEncode(CodeFor(StructFields(decls)).encode, v.fields, Height(t))
  }

  function RunEncode(lines: seq<Statement>, self: map<string, Value>, height: nat): bytes
    requires Runs(lines, self, height)
    decreases height, 0, |lines|
  {
    if lines == [] then []
    else EncodeField(lines[0].field, self[lines[0].field.name]) + RunEncode(lines[1..], self, height)
  }

  /** `write_array` for an array field. */
  function EncodeField(f: Field, v: Value): bytes
    requires FieldHasType(v, f)
    decreases Height(f.typ), 3
  {
    if !f.isArray then EncodeType(f.typ, v)
    else if v.items.None? then WriteI32(-1)
    else WriteI32(AsI32(|v.items.value|)) + EncodeItems(f.typ, v.items.value)
  }

  function EncodeItems(t: TypeRef, items: seq<Value>): bytes
    requires forall x <- items :: HasType(x, t)
    decreases Height(t), 2, |items|
  {
    if items == [] then [] else EncodeType(t, items[0]) + EncodeItems(t, items[1..])
  }

  // ---------------------------------------------------------------- running `byte_len`

  function EnumLength(e: EnumDecl): nat {
    match e.width
    case W8 => 1
    case W16 => 2
    case W32 => 4
    case W64 => 8
  }

  function TypeLength(t: TypeRef, v: Value): nat
    requires HasType(v, t)
    decreases Height(t), 1
  {
    match t
    case Builtin(_) => PayloadLength(v.variant)
    case Enum(e) => EnumLength(e)
    case Struct(decls) => RunByteLen(CodeFor(StructFields(decls)).byteLen, v.fields, Height(t))
  }

  function RunByteLen(lines: seq<Statement>, self: map<string, Value>, height: nat): nat
    requires Runs(lines, self, height)
    decreases height, 0, |lines|
  {
    if lines == [] then 0
    else FieldLength(lines[0].field, self[lines[0].field.name]) + RunByteLen(lines[1..], self, height)
  }

  /** `byte_len_array` for an array field. */
  function FieldLength(f: Field, v: Value): nat
    requires FieldHasType(v, f)
    decreases Height(f.typ), 3
  {
    if !f.isArray then TypeLength(f.typ, v)
    else 4 + if v.items.None? then 0 else ItemsLength(f.typ, v.items.value)
  }

  function ItemsLength(t: TypeRef, items: seq<Value>): nat
    requires forall x <- items :: HasType(x, t)
    decreases Height(t), 2, |items|
  {
    if items == [] then 0 else TypeLength(t, items[0]) + ItemsLength(t, items[1..])
  }

  // ---------------------------------------------------------------- running `decode`

  function ReadNumber(w: Width, s: bytes): Decoded<int> {
    match w
    case W8 => var (n, s) :- ReadU8(s); Got(n, s)
    case W16 => var (n, s) :- ReadI16(s); Got(n, s)
    case W32 => var (n, s) :- ReadI32(s); Got(n, s)
    case W64 => var (n, s) :- ReadI64(s); Got(n, s)
  }

  function DecodeEnum(e: EnumDecl, s: bytes): Decoded<Value> {
    var (n, s) :- ReadNumber(e.width, s);
    if n in e.values then Got(Number(n), s)
    else if e.fallback.Some? then Got(Number(e.fallback.value), s)
    else Bad(BadUnexpectedError)
  }

  /** The type's own `decode`. That of a variant takes no depth lock, unlike a variant held by a variant. */
  function DecodeBuiltin(id: TypeId, s: bytes, o: Options, depth: nat): Decoded<Variant> {
    if id == 24 then
      var (v, s) :- DecodeVariant(s, o, depth);
      Got(Nested(v), s)
    else DecodeValue(id, s, o, depth)
  }

  /** The depth locks that reading a field of a built-in type holds at once. */
  function FieldDepth(v: Variant): nat { if v.Nested? then Depth(v.inner) else Depth(v) }

  function DecodeType(t: TypeRef, s: bytes, o: Options, depth: nat): Decoded<Value>
    decreases Height(t), 1
  {
    match t
    case Builtin(id) => var (v, s) :- DecodeBuiltin(id, s, o, depth); Got(Prim(v), s)
    case Enum(e) => DecodeEnum(e, s)
    case Struct(decls) =>
      var code := CodeFor(StructFields(decls));
      var (locals, s) :- RunDecode(code.decode, map[], s, o, depth, Height(t));
      Got(Record(map n | n in code.literal && n in locals :: locals[n]), s)
  }

  /** The `let` lines in order, each binding a local. */
  function RunDecode(lines: seq<Statement>, locals: map<string, Value>, s: bytes, o: Options, depth: nat, height: nat)
    : Decoded<map<string, Value>>
    requires forall l <- lines :: Height(l.field.typ) < height
    decreases height, 0, |lines|
  {
    if lines == [] then Got(locals, s)
    else
      var f := lines[0].field;
      var (v, s) :- DecodeField(f, s, o, depth);
      RunDecode(lines[1..], locals[f.name := v], s, o, depth, height)
  }

  /** `read_array` for an array field. */
  function DecodeField(f: Field, s: bytes, o: Options, depth: nat): Decoded<Value>
    decreases Height(f.typ), 3
  {
    if !f.isArray then DecodeType(f.typ, s, o, depth)
    else
      var (len, s) :- ReadI32(s);
      if len == -1 then Got(List(None), s)
      else if len < -1 || len > o.maxArrayLength then Bad(BadDecodingError)
      else
        var (items, s) :- DecodeItems(f.typ, len, s, o, depth);
        Got(List(Some(items)), s)
  }

  function DecodeItems(t: TypeRef, n: nat, s: bytes, o: Options, depth: nat): Decoded<seq<Value>>
    decreases Height(t), 2, n
  {
    if n == 0 then Got([], s)
    else
      var (v, s) :- DecodeType(t, s, o, depth);
      var (vs, s) :- DecodeItems(t, n - 1, s, o, depth);
      Got([v] + vs, s)
  }

  // ---------------------------------------------------------------- limits and normal forms

  /** Every part is one that its own codec round-trips, within the limits. */
  predicate Fits(v: Value, t: TypeRef, o: Options, depth: nat)
    requires HasType(v, t)
    decreases Height(t), 1
  {
    match t
    case Builtin(_) =>
      VariantFits(v.variant, o) && Rectangular(v.variant) && depth + FieldDepth(v.variant) <= o.maxDepth
    case Enum(_) => true
    case Struct(decls) => forall f <- StructFields(decls) :: FieldFits(v.fields[f.name], f, o, depth)
  }

  predicate FieldFits(v: Value, f: Field, o: Options, depth: nat)
    requires FieldHasType(v, f)
    decreases Height(f.typ), 2
  {
    if !f.isArray then Fits(v, f.typ, o, depth)
    else v.items.Some? ==>
      && |v.items.value| <= o.maxArrayLength && |v.items.value| < 0x8000_0000
      && forall x <- v.items.value :: Fits(x, f.typ, o, depth)
  }

  function Normal(v: Value, t: TypeRef, o: Options): Value
    requires HasType(v, t)
    decreases Height(t), 1
  {
    match t
    case Builtin(_) => Prim(NormalVariant(v.variant, o))
    case Enum(_) => v
    case Struct(decls) => Record(NormalFields(Lines(Read, StructFields(decls)), v.fields, map[], o, Height(t)))
  }

  /** Each field in its own normal form. */
  function NormalFields(lines: seq<Statement>, self: map<string, Value>, done: map<string, Value>, o: Options, height: nat)
    : (r: map<string, Value>)
    requires Runs(lines, self, height)
    ensures forall n :: n in r <==> n in done || exists l <- lines :: l.field.name == n
    decreases height, 0, |lines|
  {
    if lines == [] then done
    else
      var f := lines[0].field;
      var r := NormalFields(lines[1..], self, done[f.name := NormalField(self[f.name], f, o)], o, height);
      assert lines == [lines[0]] + lines[1..];
      r
  }

  function NormalField(v: Value, f: Field, o: Options): Value
    requires FieldHasType(v, f)
    decreases Height(f.typ), 3
  {
    if !f.isArray then Normal(v, f.typ, o)
    else List(if v.items.None? then None else Some(NormalItems(v.items.value, f.typ, o)))
  }

  function NormalItems(items: seq<Value>, t: TypeRef, o: Options): seq<Value>
    requires forall x <- items :: HasType(x, t)
    decreases Height(t), 2, |items|
  {
    if items == [] then [] else [Normal(items[0], t, o)] + NormalItems(items[1..], t, o)
  }

  // ---------------------------------------------------------------- the round trip

  lemma EnumRoundTrip(e: EnumDecl, n: int, rest: bytes)
    requires InRange(e.width, n) && n in e.values
    ensures DecodeEnum(e, EncodeEnum(e, n) + rest) == Got(Number(n), rest)
    ensures |EncodeEnum(e, n)| == EnumLength(e)
  {
    hide WriteI16, ReadI16, WriteI32, ReadI32, WriteI64, ReadI64;
    Scalars.NumberWidths();
    match e.width
    case W8 => ReadU8Written(n, rest);
    case W16 => ReadI16Written(n, rest);
    case W32 => ReadI32Written(n, rest);
    case W64 => ReadI64Written(n, rest);
  }

  lemma StructRuns(decls: seq<FieldDecl>, v: Value, action: Action)
    requires HasType(v, Struct(decls))
    ensures Runs(Lines(action, StructFields(decls)), v.fields, Height(Struct(decls)))
  {
  }

  lemma BuiltinRoundTrip(v: Variant, o: Options, depth: nat, rest: bytes)
    requires !v.Array? && VariantFits(v, o) && WellTyped(v) && Rectangular(v) && depth + FieldDepth(v) <= o.maxDepth
    ensures Encodable(v) && DecodeBuiltin(TypeOf(v), EncodePayload(v) + rest, o, depth) == Got(NormalVariant(v, o), rest)
  {
    hide DecodeVariant, DecodeValue, EncodeVariant;
    if v.Nested? {
      VariantRoundTrip(v.inner, o, depth, rest);
    } else {
      hide EncodePayload;
      PayloadRoundTrip(v, o, depth, rest);
    }
  }

  /** For every schema: generated `decode` undoes generated `encode`, up to the normal forms of the built-in types,
      and leaves the bytes that follow. */
  lemma {:induction false} GeneratedRoundTrip(t: TypeRef, v: Value, o: Options, depth: nat, rest: bytes)
    requires HasType(v, t) && Fits(v, t, o, depth)
    ensures DecodeType(t, EncodeType(t, v) + rest, o, depth) == Got(Normal(v, t, o), rest)
    decreases Height(t), 1
  {
    match t
    case Builtin(id) =>
      hide EncodePayload, DecodeBuiltin, NormalVariant;
      BuiltinRoundTrip(v.variant, o, depth, rest);
    case Enum(e) => EnumRoundTrip(e, v.n, rest);
    case Struct(decls) =>
      hide RunEncode, RunDecode;
      var lines := Lines(Read, StructFields(decls));
      StructRuns(decls, v, Read);
      StructRuns(decls, v, Write);
      forall l | l in lines ensures FieldFits(v.fields[l.field.name], l.field, o, depth) {
        assert l.field in StructFields(decls);
      }
      FieldsRoundTrip(StructFields(decls), v.fields, map[], o, depth, Height(t), rest);
      var r := NormalFields(lines, v.fields, map[], o, Height(t));
      LiteralIsAll(StructFields(decls), r);
  }

  /** The struct literal names every local. */
  lemma LiteralIsAll(fields: seq<Field>, r: map<string, Value>)
    requires forall n :: n in r <==> exists l <- Lines(Read, fields) :: l.field.name == n
    ensures (map n | n in Names(fields) && n in r :: r[n]) == r
  {
    forall n | n in r ensures n in Names(fields) {
      var l :| l in Lines(Read, fields) && l.field.name == n;
      var i :| 0 <= i < |fields| && Lines(Read, fields)[i] == l;
      assert Names(fields)[i] == n;
    }
  }

  lemma {:induction false} FieldsRoundTrip(
      fields: seq<Field>, self: map<string, Value>, locals: map<string, Value>, o: Options, depth: nat, height: nat, rest: bytes)
    requires Runs(Lines(Write, fields), self, height) && Runs(Lines(Read, fields), self, height)
    requires forall l <- Lines(Read, fields) :: FieldFits(self[l.field.name], l.field, o, depth)
    ensures RunDecode(Lines(Read, fields), locals, RunEncode(Lines(Write, fields), self, height) + rest, o, depth, height) ==
            Got(NormalFields(Lines(Read, fields), self, locals, o, height), rest)
    decreases height, 0, |fields|
  {
    var loads, stores := Lines(Read, fields), Lines(Write, fields);
    if fields == [] {
      assert RunEncode(stores, self, height) + rest == rest;
    } else {
      hide EncodeField, DecodeField, NormalField;
      var f := fields[0];
      assert loads[1..] == Lines(Read, fields[1..]) && stores[1..] == Lines(Write, fields[1..]);
      assert loads[0] in loads && stores[0] in stores && loads[0].field == f && stores[0].field == f;
      var tail := RunEncode(stores[1..], self, height);
      assert RunEncode(stores, self, height) + rest == EncodeField(f, self[f.name]) + (tail + rest);
      FieldRoundTrip(f, self[f.name], o, depth, tail + rest);
      FieldsRoundTrip(fields[1..], self, locals[f.name := NormalField(self[f.name], f, o)], o, depth, height, rest);
    }
  }

  lemma {:induction false} FieldRoundTrip(f: Field, v: Value, o: Options, depth: nat, rest: bytes)
    requires FieldHasType(v, f) && FieldFits(v, f, o, depth)
    ensures DecodeField(f, EncodeField(f, v) + rest, o, depth) == Got(NormalField(v, f, o), rest)
    decreases Height(f.typ), 3
  {
    hide WriteI32, ReadI32, EncodeItems, DecodeItems, EncodeType, DecodeType;
    if !f.isArray {
      GeneratedRoundTrip(f.typ, v, o, depth, rest);
    } else if v.items.None? {
      ReadI32Written(-1, rest);
    } else {
      var items := v.items.value;
      assert EncodeField(f, v) + rest == WriteI32(AsI32(|items|)) + (EncodeItems(f.typ, items) + rest);
      LengthWritten(|items|, EncodeItems(f.typ, items) + rest);
      ItemsRoundTrip(f.typ, items, o, depth, rest);
    }
  }

  lemma {:induction false} ItemsRoundTrip(t: TypeRef, items: seq<Value>, o: Options, depth: nat, rest: bytes)
    requires forall x <- items :: HasType(x, t)
    requires forall x <- items :: Fits(x, t, o, depth)
    ensures DecodeItems(t, |items|, EncodeItems(t, items) + rest, o, depth) == Got(NormalItems(items, t, o), rest)
    decreases Height(t), 2, |items|
  {
    hide EncodeType, DecodeType, Normal, EncodeItems, DecodeItems, HasType, Fits, Height;
    if items == [] {
      NoItems(t, o, depth, rest);
    } else {
      assert |items[1..]| == |items| - 1 && items[0] in items && forall x <- items[1..] :: x in items;
      var tail := EncodeItems(t, items[1..]);
      EncodeItemsCons(t, items, rest);
      GeneratedRoundTrip(t, items[0], o, depth, tail + rest);
      ItemsRoundTrip(t, items[1..], o, depth, rest);
      DecodeItemsCons(t, |items|, EncodeType(t, items[0]) + (tail + rest), o, depth);
    }
  }

  lemma NoItems(t: TypeRef, o: Options, depth: nat, rest: bytes)
    ensures DecodeItems(t, 0, EncodeItems(t, []) + rest, o, depth) == Got([], rest)
  {
    assert EncodeItems(t, []) + rest == rest;
  }

  lemma EncodeItemsCons(t: TypeRef, items: seq<Value>, rest: bytes)
    requires items != [] && (forall x <- items :: HasType(x, t)) && forall x <- items[1..] :: HasType(x, t)
    ensures EncodeItems(t, items) + rest == EncodeType(t, items[0]) + (EncodeItems(t, items[1..]) + rest)
  {
    hide EncodeType, HasType;
  }

  lemma DecodeItemsCons(t: TypeRef, n: nat, s: bytes, o: Options, depth: nat)
    requires n > 0 && DecodeType(t, s, o, depth).Got?
    requires DecodeItems(t, n - 1, DecodeType(t, s, o, depth).rest, o, depth).Got?
    ensures
      var first := DecodeType(t, s, o, depth);
      var more := DecodeItems(t, n - 1, first.rest, o, depth);
      DecodeItems(t, n, s, o, depth) == Got([first.value] + more.value, more.rest)
  {
    hide DecodeType;
  }

  // ---------------------------------------------------------------- lengths

  /** For every schema, generated `byte_len` is the number of bytes generated `encode` stores. */
  lemma {:induction false} GeneratedLengthExact(t: TypeRef, v: Value)
    requires HasType(v, t)
    ensures |EncodeType(t, v)| == TypeLength(t, v)
    decreases Height(t), 1
  {
    match t
    case Builtin(_) =>
      hide EncodePayload, PayloadLength;
      WellTypedIsEncodable(v.variant);
      PayloadLengthExact(v.variant);
    case Enum(e) => EnumRoundTrip(e, v.n, []);
    case Struct(decls) =>
      StructRuns(decls, v, Write);
      StructRuns(decls, v, Measure);
      FieldsLengthExact(StructFields(decls), v.fields, Height(t));
  }

  lemma {:induction false} FieldsLengthExact(fields: seq<Field>, self: map<string, Value>, height: nat)
    requires Runs(Lines(Write, fields), self, height) && Runs(Lines(Measure, fields), self, height)
    ensures |RunEncode(Lines(Write, fields), self, height)| == RunByteLen(Lines(Measure, fields), self, height)
    decreases height, 0, |fields|
  {
    if fields != [] {
      hide EncodeField, FieldLength;
      var stores, measures := Lines(Write, fields), Lines(Measure, fields);
      var f := fields[0];
      assert stores[1..] == Lines(Write, fields[1..]) && measures[1..] == Lines(Measure, fields[1..]);
      assert stores[0] in stores && measures[0] in measures;
      FieldLengthExact(f, self[f.name]);
      FieldsLengthExact(fields[1..], self, height);
    }
  }

  lemma {:induction false} FieldLengthExact(f: Field, v: Value)
    requires FieldHasType(v, f)
    ensures |EncodeField(f, v)| == FieldLength(f, v)
    decreases Height(f.typ), 3
  {
    if !f.isArray {
      GeneratedLengthExact(f.typ, v);
    } else if v.items.Some? {
      ItemsLengthExact(f.typ, v.items.value);
      LengthPrefix(|v.items.value|);
    }
  }

  lemma {:induction false} ItemsLengthExact(t: TypeRef, items: seq<Value>)
    requires forall x <- items :: HasType(x, t)
    ensures |EncodeItems(t, items)| == ItemsLength(t, items)
    decreases Height(t), 2, |items|
  {
    if items != [] {
      GeneratedLengthExact(t, items[0]);
      ItemsLengthExact(t, items[1..]);
    }
  }

  // ---------------------------------------------------------------- a prefix code

  lemma EnumExtends(e: EnumDecl, s: bytes, more: bytes)
    ensures Stable(DecodeEnum(e, s), DecodeEnum(e, s + more), more)
  {
    NumberExtends(e.width, s, more);
    hide ReadNumber;
  }

  lemma NumberExtends(w: Width, s: bytes, more: bytes)
    ensures Stable(ReadNumber(w, s), ReadNumber(w, s + more), more)
  {
    var n := match w case W8 => 1 case W16 => 2 case W32 => 4 case W64 => 8;
    if |s| >= n { TakeExtends(s, n, more); }
  }

  /** For every schema, more input never changes what generated `decode` returns. */
  lemma {:induction false} GeneratedExtends(t: TypeRef, s: bytes, o: Options, depth: nat, more: bytes)
    ensures Stable(DecodeType(t, s, o, depth), DecodeType(t, s + more, o, depth), more)
    decreases Height(t), 1
  {
    match t
    case Builtin(id) =>
      hide DecodeValue, DecodeVariant;
      if id == 24 { VariantExtends(s, o, depth, more); } else { ValueExtends(id, s, o, depth, more); }
    case Enum(e) => EnumExtends(e, s, more);
    case Struct(decls) =>
      hide RunDecode;
      RunExtends(Lines(Read, StructFields(decls)), map[], s, o, depth, Height(t), more);
  }

  lemma {:induction false} RunExtends(
      lines: seq<Statement>, locals: map<string, Value>, s: bytes, o: Options, depth: nat, height: nat, more: bytes)
    requires forall l <- lines :: Height(l.field.typ) < height
    ensures Stable(RunDecode(lines, locals, s, o, depth, height), RunDecode(lines, locals, s + more, o, depth, height), more)
    decreases height, 0, |lines|
  {
    if lines != [] {
      hide DecodeField;
      var f := lines[0].field;
      FieldExtends(f, s, o, depth, more);
      var d := DecodeField(f, s, o, depth);
      if d.Got? { RunExtends(lines[1..], locals[f.name := d.value], d.rest, o, depth, height, more); }
    }
  }

  lemma {:induction false} FieldExtends(f: Field, s: bytes, o: Options, depth: nat, more: bytes)
    ensures Stable(DecodeField(f, s, o, depth), DecodeField(f, s + more, o, depth), more)
    decreases Height(f.typ), 3
  {
    hide DecodeItems, DecodeType;
    if !f.isArray {
      GeneratedExtends(f.typ, s, o, depth, more);
    } else if |s| >= 4 {
      TakeExtends(s, 4, more);
      if ReadI32(s).value >= 0 { ItemsExtend(f.typ, ReadI32(s).value, ReadI32(s).rest, o, depth, more); }
    }
  }

  lemma {:induction false} ItemsExtend(t: TypeRef, n: nat, s: bytes, o: Options, depth: nat, more: bytes)
    ensures Stable(DecodeItems(t, n, s, o, depth), DecodeItems(t, n, s + more, o, depth), more)
    decreases Height(t), 2, n
  {
    if n > 0 {
      hide DecodeType;
      GeneratedExtends(t, s, o, depth, more);
      var d := DecodeType(t, s, o, depth);
      if d.Got? { ItemsExtend(t, n - 1, d.rest, o, depth, more); }
    }
  }
}
