/** What generated code stores and accepts, spelled out: which fields, in which order, and the bytes of arrays and
    enumerations (tools/schema/types.js; lib/src/types/encoding.rs). */
module SchemaFormats {
  import opened Prelude
  import opened Wire
  import opened Builtins
  import opened Variants
  import opened VariantLaws
  import opened Schema
  import opened SchemaLaws
  import WireFormats

  // ---------------------------------------------------------------- fields

  lemma {:induction false} HiddenIff(decls: seq<FieldDecl>, name: string)
    ensures name in HiddenOf(decls) <==> exists d <- decls :: d.lengthField == Some(name)
  {
    if decls != [] {
      HiddenIff(decls[..|decls| - 1], name);
      assert decls == decls[..|decls| - 1] + [decls[|decls| - 1]];
    }
  }

  lemma {:induction false} VisibleIff(fields: seq<Field>, hidden: seq<string>, f: Field)
    ensures f in Visible(fields, hidden) <==> f in fields && f.name !in hidden
  {
    if fields != [] {
      VisibleIff(fields[..|fields| - 1], hidden, f);
      assert fields == fields[..|fields| - 1] + [fields[|fields| - 1]];
    }
  }

  /** A declared field is generated exactly when no array names it as its length; it is an array when it names one. */
  lemma GeneratedIff(decls: seq<FieldDecl>, f: Field)
    ensures f in StructFields(decls) <==>
            && (exists i :: 0 <= i < |decls| && f == Field(decls[i].name, decls[i].typ, decls[i].lengthField.Some?))
            && (forall d <- decls :: d.lengthField != Some(f.name))
  {
    HiddenIff(decls, f.name);
    VisibleIff(FieldsOf(decls), HiddenOf(decls), f);
    FieldsOfAt(decls);
    hide HiddenOf, FieldsOf, Visible;
    if f in FieldsOf(decls) {
      var i :| 0 <= i < |decls| && FieldsOf(decls)[i] == f;
      assert f == Field(decls[i].name, decls[i].typ, decls[i].lengthField.Some?);
    }
    if i :| 0 <= i < |decls| && f == Field(decls[i].name, decls[i].typ, decls[i].lengthField.Some?) {
      assert FieldsOf(decls)[i] == f;
    }
  }

  /** Fields keep the order of their declarations: the fields of a longer schema extend those of a shorter one. */
  lemma {:induction false} VisibleInOrder(a: seq<Field>, b: seq<Field>, hidden: seq<string>)
    ensures Visible(a + b, hidden) == Visible(a, hidden) + Visible(b, hidden)
  {
    if b == [] {
      assert a + b == a && Visible(a, hidden) + [] == Visible(a, hidden);
    } else {
      hide Visible;
      var front, last := b[..|b| - 1], b[|b| - 1];
      VisibleInOrder(a, front, hidden);
      assert a + b == (a + front) + [last] && b == front + [last];
      VisibleNext(a + front, last, hidden);
      VisibleNext(front, last, hidden);
    }
  }

  // ---------------------------------------------------------------- bytes

  /** The bytes of some fields, one field after another. */
  function Concatenated(fields: seq<Field>, self: map<string, Value>): bytes
    requires forall f <- fields :: f.name in self && FieldHasType(self[f.name], f)
  {
    if fields == [] then []
    else
      var front, last := fields[..|fields| - 1], fields[|fields| - 1];
      Concatenated(front, self) + EncodeField(last, self[last.name])
  }

  /** The bytes of a structure are those of its fields, in order, with nothing between them. */
  lemma StructLayout(decls: seq<FieldDecl>, v: Value)
    requires HasType(v, Struct(decls))
    ensures EncodeType(Struct(decls), v) == Concatenated(StructFields(decls), v.fields)
  {
    hide EncodeField, FieldHasType;
    var fields := StructFields(decls);
    StructRuns(decls, v, Write);
    assert forall f <- fields :: f.name in v.fields && FieldHasType(v.fields[f.name], f);
    LinesConcatenated(fields, v.fields, Height(Struct(decls)));
  }

  lemma {:induction false} LinesConcatenated(fields: seq<Field>, self: map<string, Value>, height: nat)
    requires Runs(Lines(Write, fields), self, height)
    requires forall f <- fields :: f.name in self && FieldHasType(self[f.name], f)
    ensures RunEncode(Lines(Write, fields), self, height) == Concatenated(fields, self)
    decreases |fields|
  {
    if fields != [] {
      hide EncodeField, FieldHasType;
      var front, last := fields[..|fields| - 1], fields[|fields| - 1];
      assert fields == front + [last];
      LinesNext(Write, front, last);
      assert Runs(Lines(Write, front), self, height) by {
        forall l | l in Lines(Write, front) ensures l in Lines(Write, fields) {}
      }
      LinesConcatenated(front, self, height);
      RunEncodeNext(Lines(Write, front), Statement(Write, last), self, height);
    }
  }

  lemma {:induction false} RunEncodeNext(lines: seq<Statement>, l: Statement, self: map<string, Value>, height: nat)
    requires Runs(lines + [l], self, height)
    ensures Runs(lines, self, height) && l.field.name in self && FieldHasType(self[l.field.name], l.field)
    ensures RunEncode(lines + [l], self, height) == RunEncode(lines, self, height) + EncodeField(l.field, self[l.field.name])
    decreases |lines|
  {
    hide EncodeField, FieldHasType;
    var all := lines + [l];
    assert forall x <- lines :: x in all;
    assert l in all;
    if lines == [] {
      assert all[1..] == [] && RunEncode([], self, height) == [];
    } else {
      assert all[1..] == lines[1..] + [l];
      assert forall x <- all[1..] :: x in all;
      RunEncodeNext(lines[1..], l, self, height);
    }
  }

  /** A field that is not an array is stored as its type; a null array as minus one; any other as its length and its
      elements, in order. */
  lemma FieldLayout(f: Field, v: Value, k: nat)
    requires FieldHasType(v, f)
    ensures !f.isArray ==> EncodeField(f, v) == EncodeType(f.typ, v)
    ensures f.isArray && v.items.None? ==> EncodeField(f, v) == [0xFF, 0xFF, 0xFF, 0xFF]
    ensures f.isArray && v.items.Some? && |v.items.value| < 0x8000_0000 ==>
              EncodeField(f, v) == Le(|v.items.value|, 4) + EncodeItems(f.typ, v.items.value)
    ensures f.isArray && v.items.Some? && k < |v.items.value| ==>
              EncodeItems(f.typ, v.items.value[..k + 1]) ==
              EncodeItems(f.typ, v.items.value[..k]) + EncodeType(f.typ, v.items.value[k])
    ensures f.isArray && v.items.Some? ==> EncodeItems(f.typ, []) == []
  {
    hide EncodeType, WriteI32, AsI32, Le, HasType;
    WireFormats.MinusOne();
    if f.isArray && v.items.Some? {
      var items := v.items.value;
      if |items| < 0x8000_0000 { WireFormats.LengthBytes(|items|); }
      if k < |items| {
        assert items[..k + 1] == items[..k] + [items[k]];
        ItemsNext(f.typ, items[..k], items[k]);
      }
    }
  }

  lemma {:induction false} ItemsNext(t: TypeRef, items: seq<Value>, x: Value)
    requires HasType(x, t) && forall y <- items :: HasType(y, t)
    ensures EncodeItems(t, items + [x]) == EncodeItems(t, items) + EncodeType(t, x)
    decreases |items|
  {
    hide EncodeType, HasType;
    var all := items + [x];
    if items == [] {
      assert all[1..] == [] && EncodeItems(t, []) == [];
    } else {
      assert all[1..] == items[1..] + [x];
      ItemsNext(t, items[1..], x);
    }
  }

  /** An enumeration is its number in one, two, four or eight bytes, in two's complement. */
  lemma EnumLayout(e: EnumDecl, n: int)
    requires InRange(e.width, n) && n in e.values
    ensures
      EncodeType(Enum(e), Number(n)) ==
      match e.width
      case W8 => [n]
      case W16 => Le(if n < 0 then n + 0x1_0000 else n, 2)
      case W32 => Le(if n < 0 then n + 0x1_0000_0000 else n, 4)
      case W64 => Le(if n < 0 then n + 0x1_0000_0000_0000_0000 else n, 8)
  {
    hide Le, WriteI16, WriteI32, WriteI64;
    match e.width
    case W8 => WireFormats.SmallBytes(n);
    case W16 => WireFormats.TwosComplement(0, n, 0, 0);
    case W32 => WireFormats.TwosComplement(0, 0, n, 0);
    case W64 => WireFormats.TwosComplement(0, 0, 0, n);
  }

  /** A built-in type is stored as it is in a variant, without the encoding byte. */
  lemma BuiltinLayout(id: TypeId, v: Variant)
    requires HasType(Prim(v), Builtin(id))
    ensures Encodable(v) && EncodeVariant(v)[1..] == EncodeType(Builtin(id), Prim(v))
  {
    hide EncodePayload;
    WellTypedIsEncodable(v);
  }

  // ---------------------------------------------------------------- refusals

  /** A number that the enumeration does not have gives its fallback, if it has one, and is refused otherwise. */
  lemma UnknownNumber(e: EnumDecl, n: int, o: Options, depth: nat, rest: bytes)
    requires InRange(e.width, n) && n !in e.values
    ensures DecodeType(Enum(e), EncodeEnum(e, n) + rest, o, depth) ==
            if e.fallback.Some? then Got(Number(e.fallback.value), rest) else Bad(BadUnexpectedError)
  {
    hide WriteI16, ReadI16, WriteI32, ReadI32, WriteI64, ReadI64, WriteU8, ReadU8;
    match e.width
    case W8 => ReadU8Written(n, rest);
    case W16 => ReadI16Written(n, rest);
    case W32 => ReadI32Written(n, rest);
    case W64 => ReadI64Written(n, rest);
  }

  /** An array field is refused for its length alone exactly when that is below minus one or above the limit. */
  lemma ArrayLengthRefused(f: Field, len: i32, rest: bytes, o: Options, depth: nat)
    requires f.isArray
    ensures len < -1 || len > o.maxArrayLength ==> DecodeField(f, WriteI32(len) + rest, o, depth) == Bad(BadDecodingError)
    ensures len == -1 ==> DecodeField(f, WriteI32(len) + rest, o, depth) == Got(List(None), rest)
    ensures len == 0 ==> DecodeField(f, WriteI32(len) + rest, o, depth) == Got(List(Some([])), rest)
  {
    hide WriteI32, ReadI32, DecodeType;
    ReadI32Written(len, rest);
  }
}
