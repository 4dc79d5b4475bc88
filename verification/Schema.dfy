/** The code generator for structured types: from a schema to the statements of the emitted `byte_len`, `encode` and
    `decode`, and the meaning of those statements (tools/schema/types.js; lib/src/types/encoding.rs). */
module Schema {
  import opened Prelude
  import opened Variants

  // ---------------------------------------------------------------- schemas

  /** The integer type chosen for an enumeration from its length in bits. */
  datatype Width = W8 | W16 | W32 | W64

  /** `fallback` is the value returned for an unknown number, for the enumerations that have one. */
  datatype EnumDecl = EnumDecl(width: Width, values: seq<int>, fallback: Option<int>)

  /** A built-in type by its number, an enumeration, or another generated structure. */
  datatype TypeRef = Builtin(id: TypeId) | Enum(decl: EnumDecl) | Struct(fields: seq<FieldDecl>)

  /** An `opc:Field`; the type of an array field is the type of its elements. */
  datatype FieldDecl = FieldDecl(name: string, typ: TypeRef, lengthField: Option<string>)

  datatype Field = Field(name: string, typ: TypeRef, isArray: bool)

  /** `structured_type`: every field, and the names of the length fields to leave out. */
  datatype StructuredType = StructuredType(fieldsToAdd: seq<Field>, fieldsToHide: seq<string>)

  function ToField(f: FieldDecl): Field { Field(f.name, f.typ, f.lengthField.Some?) }

  function FieldsOf(decls: seq<FieldDecl>): seq<Field> {
    if decls == [] then [] else FieldsOf(decls[..|decls| - 1]) + [ToField(decls[|decls| - 1])]
  }

  function HiddenOf(decls: seq<FieldDecl>): seq<string> {
    if decls == [] then []
    else
      var last := decls[|decls| - 1];
      HiddenOf(decls[..|decls| - 1]) + (if last.lengthField.Some? then [last.lengthField.value] else [])
  }

  /** The loop over `opc:Field` in `from_xml`. */
  method FromXml(decls: seq<FieldDecl>) returns (st: StructuredType)
    ensures st == StructuredType(FieldsOf(decls), HiddenOf(decls))
  {
    var fieldsToAdd: seq<Field> := [];
    var fieldsToHide: seq<string> := [];
    for i := 0 to |decls|
      invariant fieldsToAdd == FieldsOf(decls[..i]) && fieldsToHide == HiddenOf(decls[..i])
    {
      var f := decls[i];
      assert decls[..i + 1][..i] == decls[..i];
      if f.lengthField.Some? {
        fieldsToAdd := fieldsToAdd + [Field(f.name, f.typ, true)];
        fieldsToHide := fieldsToHide + [f.lengthField.value];
      } else {
        fieldsToAdd := fieldsToAdd + [Field(f.name, f.typ, false)];
      }
    }
    assert decls[..|decls|] == decls;
    st := StructuredType(fieldsToAdd, fieldsToHide);
  }

  // ---------------------------------------------------------------- emitted code

  datatype Action = Measure | Write | Read

  /** One emitted line: `size += …byte_len()`, `size += …encode(stream)?` or `let … = …decode(stream, …)?`. */
  datatype Statement = Statement(action: Action, field: Field)

  datatype Code = Code(byteLen: seq<Statement>, encode: seq<Statement>, decode: seq<Statement>, literal: seq<string>)

  /** The fields that are not hidden, in order. */
  function Visible(fields: seq<Field>, hidden: seq<string>): seq<Field> {
    if fields == [] then []
    else
      var last := fields[|fields| - 1];
      Visible(fields[..|fields| - 1], hidden) + (if last.name in hidden then [] else [last])
  }

  lemma {:induction false} VisibleIsShown(fields: seq<Field>, hidden: seq<string>)
    ensures forall f <- Visible(fields, hidden) :: f in fields && f.name !in hidden
  {
    if fields != [] {
      VisibleIsShown(fields[..|fields| - 1], hidden);
      assert fields == fields[..|fields| - 1] + [fields[|fields| - 1]];
    }
  }

  function Lines(action: Action, fields: seq<Field>): (lines: seq<Statement>)
    ensures |lines| == |fields|
    ensures forall i :: 0 <= i < |lines| ==> lines[i] == Statement(action, fields[i])
  {
    seq(|fields|, i requires 0 <= i < |fields| => Statement(action, fields[i]))
  }

  function Names(fields: seq<Field>): (names: seq<string>)
    ensures |names| == |fields|
    ensures forall i :: 0 <= i < |names| ==> names[i] == fields[i].name
  {
    seq(|fields|, i requires 0 <= i < |fields| => fields[i].name)
  }

  /** The code of a structure whose visible fields are `fields`. */
  function CodeFor(fields: seq<Field>): Code {
    Code(Lines(Measure, fields), Lines(Write, fields), Lines(Read, fields), Names(fields))
  }

  /** One of the passes over the fields; each skips the hidden ones. */
  method Emit(action: Action, st: StructuredType) returns (lines: seq<Statement>)
    ensures lines == Lines(action, Visible(st.fieldsToAdd, st.fieldsToHide))
  {
    var fields := st.fieldsToAdd;
    lines := [];
    assert Lines(action, Visible(fields[..0], st.fieldsToHide)) == [];
    hide Visible, Lines;
    for i := 0 to |fields|
      invariant lines == Lines(action, Visible(fields[..i], st.fieldsToHide))
    {
      EmitNext(action, fields, i, st.fieldsToHide);
      if fields[i].name !in st.fieldsToHide {
        lines := lines + [Statement(action, fields[i])];
      }
    }
    assert fields[..|fields|] == fields;
  }

  /** `generate_structured_type_file` */
  method Generate(st: StructuredType) returns (code: Code)
    ensures code == CodeFor(Visible(st.fieldsToAdd, st.fieldsToHide))
  {
    var byteLen := Emit(Measure, st);
    var encode := Emit(Write, st);
    var decode := Emit(Read, st);
    var literal := EmitLiteral(st);
    code := Code(byteLen, encode, decode, literal);
  }

  /** The pass that names the fields of the struct literal. */
  method EmitLiteral(st: StructuredType) returns (literal: seq<string>)
    ensures literal == Names(Visible(st.fieldsToAdd, st.fieldsToHide))
  {
    var fields := st.fieldsToAdd;
    literal := [];
    assert Names(Visible(fields[..0], st.fieldsToHide)) == [];
    hide Visible, Names;
    for i := 0 to |fields|
      invariant literal == Names(Visible(fields[..i], st.fieldsToHide))
    {
      NameNext(fields, i, st.fieldsToHide);
      if fields[i].name !in st.fieldsToHide {
        literal := literal + [fields[i].name];
      }
    }
    assert fields[..|fields|] == fields;
  }

  lemma LinesNext(action: Action, fields: seq<Field>, f: Field)
    ensures Lines(action, fields + [f]) == Lines(action, fields) + [Statement(action, f)]
  {
  }

  lemma NamesNext(fields: seq<Field>, f: Field)
    ensures Names(fields + [f]) == Names(fields) + [f.name]
  {
  }

  lemma EmitNext(action: Action, fields: seq<Field>, i: nat, hidden: seq<string>)
    requires i < |fields|
    ensures Lines(action, Visible(fields[..i + 1], hidden)) ==
            Lines(action, Visible(fields[..i], hidden)) + if fields[i].name in hidden then [] else [Statement(action, fields[i])]
  {
    assert fields[..i + 1] == fields[..i] + [fields[i]];
    VisibleNext(fields[..i], fields[i], hidden);
    LinesNext(action, Visible(fields[..i], hidden), fields[i]);
  }

  lemma NameNext(fields: seq<Field>, i: nat, hidden: seq<string>)
    requires i < |fields|
    ensures Names(Visible(fields[..i + 1], hidden)) ==
            Names(Visible(fields[..i], hidden)) + if fields[i].name in hidden then [] else [fields[i].name]
  {
    assert fields[..i + 1] == fields[..i] + [fields[i]];
    VisibleNext(fields[..i], fields[i], hidden);
    NamesNext(Visible(fields[..i], hidden), fields[i]);
  }

  lemma VisibleNext(fields: seq<Field>, f: Field, hidden: seq<string>)
    ensures Visible(fields + [f], hidden) == if f.name in hidden then Visible(fields, hidden) else Visible(fields, hidden) + [f]
  {
    assert (fields + [f])[..|fields|] == fields;
  }

  // ---------------------------------------------------------------- heights

  /** How deeply structures nest in a type. */
  function Height(t: TypeRef): nat
    decreases t, 1
  {
    if t.Struct? then 1 + MaxHeight(t.fields) else 0
  }

  function MaxHeight(decls: seq<FieldDecl>): nat
    decreases decls, 0
  {
    if decls == [] then 0
    else
      var h, rest := Height(decls[0].typ), MaxHeight(decls[1..]);
      if h < rest then rest else h
  }

  lemma {:induction false} HeightOfDecl(decls: seq<FieldDecl>, i: nat)
    requires i < |decls|
    ensures Height(decls[i].typ) <= MaxHeight(decls)
  {
    if i > 0 { HeightOfDecl(decls[1..], i - 1); }
  }

  lemma {:induction false} FieldsOfAt(decls: seq<FieldDecl>)
    ensures |FieldsOf(decls)| == |decls|
    ensures forall i :: 0 <= i < |decls| ==> FieldsOf(decls)[i] == ToField(decls[i])
  {
    if decls != [] { FieldsOfAt(decls[..|decls| - 1]); }
  }

  /** The fields a structure really has. */
  function StructFields(decls: seq<FieldDecl>): (v: seq<Field>)
    ensures forall f <- v :: Height(f.typ) <= MaxHeight(decls)
  {
    var v := Visible(FieldsOf(decls), HiddenOf(decls));
    FieldsOfAt(decls);
    VisibleIsShown(FieldsOf(decls), HiddenOf(decls));
    assert forall f <- v :: Height(f.typ) <= MaxHeight(decls) by {
      forall f | f in v ensures Height(f.typ) <= MaxHeight(decls) {
        var i :| 0 <= i < |decls| && FieldsOf(decls)[i] == f;
        HeightOfDecl(decls, i);
      }
    }
    v
  }
}
