/** One element of a relative path: printer, the two regular expressions as matchers, and the exact round trip
    (lib/src/types/relative_path.rs; OPC UA Part 4, Appendix A). */
module RelativePathElement {
  import opened Prelude
  import opened UaTypes
  import opened Text
  import opened BrowseName

  datatype Element = Element(referenceType: NodeId, isInverse: bool, includeSubtypes: bool, target: QualifiedName)

  /** `node_resolver`: browse name to reference type. */
  type Resolver = (u16, string) -> Option<NodeId>

  const HIERARCHICAL_REFERENCES: NodeId := NodeId(0, Numeric(33))
  const AGGREGATES: NodeId := NodeId(0, Numeric(44))

  /** The standard reference types that the default resolvers know. */
  const REFERENCE_TYPES: seq<(u32, string)> := [
    (31, "References"),
    (32, "NonHierarchicalReferences"),
    (33, "HierarchicalReferences"),
    (34, "HasChild"),
    (35, "Organizes"),
    (36, "HasEventSource"),
    (37, "HasModellingRule"),
    (38, "HasEncoding"),
    (39, "HasDescription"),
    (40, "HasTypeDefinition"),
    (41, "GeneratesEvent"),
    (44, "Aggregates"),
    (45, "HasSubtype"),
    (46, "HasProperty"),
    (47, "HasComponent"),
    (48, "HasNotifier"),
    (49, "HasOrderedComponent"),
    (51, "FromState"),
    (52, "ToState"),
    (53, "HasCause"),
    (54, "HasEffect"),
    (56, "HasHistoricalConfiguration"),
    (117, "HasSubStateMachine"),
    (3065, "AlwaysGeneratesEvent"),
    (9004, "HasTrueSubState"),
    (9005, "HasFalseSubState"),
    (9006, "HasCondition")
  ]

  function NameIn(table: seq<(u32, string)>, id: u32): Option<string> {
    if table == [] then None
    else if table[0].0 == id then Some(table[0].1)
    else NameIn(table[1..], id)
  }

  function IdIn(table: seq<(u32, string)>, name: string): Option<u32> {
    if table == [] then None
    else if table[0].1 == name then Some(table[0].0)
    else IdIn(table[1..], name)
  }

  function ReferenceTypeName(id: u32): Option<string> { NameIn(REFERENCE_TYPES, id) }

  function ReferenceTypeId(name: string): Option<u32> { IdIn(REFERENCE_TYPES, name) }

  lemma ReferenceTypesIncrease(i: nat)
    requires i + 1 < |REFERENCE_TYPES|
    ensures REFERENCE_TYPES[i].0 < REFERENCE_TYPES[i + 1].0
  {
  }

  lemma {:induction false} NameOfId(table: seq<(u32, string)>, name: string)
    requires forall i :: 0 <= i && i + 1 < |table| ==> table[i].0 < table[i + 1].0
    requires IdIn(table, name).Some?
    ensures NameIn(table, IdIn(table, name).value) == Some(name)
    ensures IdIn(table, name).value >= table[0].0
  {
    if table[0].1 != name {
      var rest := table[1..];
      forall i | 0 <= i && i + 1 < |rest| ensures rest[i].0 < rest[i + 1].0 {
        assert rest[i] == table[i + 1] && rest[i + 1] == table[i + 2];
      }
      NameOfId(rest, name);
      assert table[0].0 < table[1].0;
    }
  }

  /** `default_node_resolver` */
  function DefaultNodeResolver(ns: u16, name: string): Option<NodeId> {
    if ns == 0 && ReferenceTypeId(name).Some? then Some(NodeId(0, Numeric(ReferenceTypeId(name).value)))
    else Some(NodeId(ns, Name(Str(name))))
  }

  /** `default_browse_name_resolver` */
  function DefaultBrowseName(id: NodeId): Option<string> {
    match id.identifier
    case Name(name) => Some(name.AsRef())
    case Numeric(n) => if id.ns == 0 then ReferenceTypeName(n) else None
    case _ => None
  }

  // ---------------------------------------------------------------- printing

  /** The reference type is written as `/` or `.`. */
  predicate Abbreviated(e: Element) {
    e.includeSubtypes && !e.isInverse && (e.referenceType == HIERARCHICAL_REFERENCES || e.referenceType == AGGREGATES)
  }

  function Flags(e: Element): string {
    (if e.includeSubtypes then "" else "#") + (if e.isInverse then "!" else "")
  }

  function NamespacePrefix(ns: u16): string {
    if ns == 0 then "" else Decimal(ns) + ":"
  }

  /** `relative_path_reference_type`, once the browse name of the reference type is known. */
  function PrintReference(e: Element, name: string): string {
    if Abbreviated(e) then (if e.referenceType == HIERARCHICAL_REFERENCES then "/" else ".")
    else "<" + Flags(e) + NamespacePrefix(e.referenceType.ns) + Escape(name) + ">"
  }

  function PrintTarget(target: QualifiedName): string {
    if target.name.Null? then "" else Decimal(target.ns) + ":" + Escape(target.name.text)
  }

  function PrintNamed(e: Element, name: string): string {
    PrintReference(e, name) + PrintTarget(e.target)
  }

  /** `None` is the panic of the `unwrap` on a reference type that has no browse name. */
  function PrintElement(e: Element): Option<string> {
    match DefaultBrowseName(e.referenceType)
    case None => None
    case Some(name) => Some(PrintNamed(e, name))
  }

  // ---------------------------------------------------------------- parsing

  datatype Reference = Slash | Dot | Bracket(flags: string, nsidx: Option<string>, name: string)

  datatype Captures = Captures(reference: Reference, target: string)

  /** `(?P<name>[^#!].*)>` and then `(?P<target>.*)`: the name runs to the last `>` of its line. */
  function MatchName(s: string): (r: Option<(string, string)>)
    ensures r.Some? ==> r.value.0 != [] && '\n' !in r.value.0[1..]
  {
    if s == [] || s[0] == '#' || s[0] == '!' then None
    else match LastIndex(Line(s[1..]), '>')
      case None => None
      case Some(k) => Some((s[..k + 1], Line(s[k + 2..])))
  }

  /** `((?P<nsidx>[0-9]+):)?` and the rest, preferring to capture a namespace. */
  function MatchNamespace(s: string): Option<(Option<string>, string, string)> {
    var k := DigitRun(s);
    if 0 < k < |s| && s[k] == ':' && MatchName(s[k + 1..]).Some? then
      var (name, target) := MatchName(s[k + 1..]).value;
      Some((Some(s[..k]), name, target))
    else match MatchName(s)
      case None => None
      case Some((name, target)) => Some((None, name, target))
  }

  /** `(?P<flags>#|!|#!)?` and the rest, alternatives tried in order. */
  function MatchFlags(s: string): Option<Captures> {
    if "#" <= s && MatchNamespace(s[1..]).Some? then ToCaptures("#", MatchNamespace(s[1..]))
    else if "!" <= s && MatchNamespace(s[1..]).Some? then ToCaptures("!", MatchNamespace(s[1..]))
    else if "#!" <= s && MatchNamespace(s[2..]).Some? then ToCaptures("#!", MatchNamespace(s[2..]))
    else ToCaptures("", MatchNamespace(s))
  }

  function ToCaptures(flags: string, m: Option<(Option<string>, string, string)>): Option<Captures> {
    match m
    case None => None
    case Some((nsidx, name, target)) => Some(Captures(Bracket(flags, nsidx, name), target))
  }

  function MatchAt(s: string): Option<Captures> {
    if s == [] then None
    else if s[0] == '/' then Some(Captures(Slash, Line(s[1..])))
    else if s[0] == '.' then Some(Captures(Dot, Line(s[1..])))
    else if s[0] == '<' then MatchFlags(s[1..])
    else None
  }

  /** `RE.captures`: the expression has no anchor, so the leftmost position that matches wins. */
  function Search(s: string): Option<Captures> {
    if s == [] then None
    else match MatchAt(s)
      case Some(captures) => Some(captures)
      case None => Search(s[1..])
  }

  /** `target_name`: the namespace is a single character. */
  function TargetName(t: string): Option<QualifiedName> {
    if |t| >= 2 && (IsDigit(t[0]) || t[0] == '+') && t[1] == ':' then
      match ParseUnsigned(t[..1], 0xFFFF)
      case None => None
      case Some(ns) => Some(QualifiedName(ns, ParsedName(Line(t[2..]))))
    else Some(QualifiedName(0, ParsedName(Line(t))))
  }

  function ParsedName(name: string): UAString {
    if name == "" then Null else Str(Unescape(name))
  }

  function ParseNamespace(nsidx: Option<string>): Option<u16> {
    match nsidx
    case None => Some(0)
    case Some(digits) => if digits == "0" then Some(0) else ParseUnsigned(digits, 0xFFFF)
  }

  /** The element a match denotes. */
  function Build(captures: Captures, resolve: Resolver): Option<Element> {
    match TargetName(captures.target)
    case None => None
    case Some(target) =>
      match captures.reference
      case Slash => Some(Element(HIERARCHICAL_REFERENCES, false, true, target))
      case Dot => Some(Element(AGGREGATES, false, true, target))
      case Bracket(flags, nsidx, name) =>
        match ParseNamespace(nsidx)
        case None => None
        case Some(ns) =>
          match resolve(ns, name)
          case None => None
          case Some(id) => Some(Element(id, flags == "!" || flags == "#!", flags == "" || flags == "!", target))
  }

  /** `RelativePathElement::from_str` */
  function ParseElement(s: string, resolve: Resolver): Option<Element> {
    match Search(s)
    case None => None
    case Some(captures) => Build(captures, resolve)
  }

  // ---------------------------------------------------------------- targets

  /** The target survives: no name in namespace 0, or a one-line name in a one-digit namespace. */
  predicate TargetRepresentable(q: QualifiedName) {
    if q.name.Null? then q.ns == 0
    else q.ns <= 9 && q.name.text != "" && '\n' !in q.name.text
  }

  lemma {:induction false} EscapeNewlines(s: string)
    ensures Line(Escape(s)) == Escape(Line(s))
    ensures '\n' in Escape(s) <==> '\n' in s
    ensures Escape(s) == [] <==> s == []
  {
    if s != [] {
      EscapeNewlines(s[1..]);
      var tail := Escape(s[1..]);
      if s[0] in ReservedSet() {
        assert Escape(s) == ['&', s[0]] + tail;
        LineConcat(['&', s[0]], tail);
      } else {
        assert Escape(s) == [s[0]] + tail && Escape(s)[1..] == tail;
      }
    }
  }

  lemma DecimalIsOneLine(n: nat)
    ensures '\n' !in Decimal(n) && ':' !in Decimal(n) && '>' !in Decimal(n)
  {
    assert forall c <- Decimal(n) :: IsDigit(c);
  }

  lemma LineOfTarget(ns: u16, n: string)
    ensures Line(Decimal(ns) + ":" + Escape(n)) == Decimal(ns) + ":" + Escape(Line(n))
  {
    DecimalIsOneLine(ns);
    LineConcat(Decimal(ns) + ":", Escape(n));
    EscapeNewlines(n);
  }

  lemma ParsedNameOfEscape(n: string)
    requires '\n' !in n
    ensures ParsedName(Line(Escape(n))) == if n == "" then Null else Str(n)
  {
    EscapeNewlines(n);
    UnescapeInvertsEscape(n);
    assert Line(n) == n;
  }

  lemma TargetOneDigit(ns: u16, n: string)
    requires ns <= 9 && '\n' !in n
    ensures TargetName(Decimal(ns) + ":" + Escape(n)) == Some(QualifiedName(ns, if n == "" then Null else Str(n)))
  {
    var t := Decimal(ns) + ":" + Escape(n);
    DecimalLength(ns);
    ParseInvertsDecimal(ns, 0xFFFF);
    ParsedNameOfEscape(n);
    assert t[..1] == Decimal(ns) && t[2..] == Escape(n);
  }

  lemma TargetManyDigits(ns: u16, rest: string)
    requires ns > 9
    ensures TargetName(Decimal(ns) + rest).Some? && TargetName(Decimal(ns) + rest).value.ns == 0
  {
    DecimalLength(ns);
    var t := Decimal(ns) + rest;
    assert t[1] == Decimal(ns)[1] && IsDigit(Decimal(ns)[1]);
  }

  /** A printed target parses back exactly when it is representable. */
  lemma TargetRoundTripIff(q: QualifiedName)
    ensures TargetName(Line(PrintTarget(q))) == Some(q) <==> TargetRepresentable(q)
  {
    if q.name.Str? { NamedTargetRoundTripIff(q); }
  }

  lemma NamedTargetRoundTripIff(q: QualifiedName)
    requires q.name.Str?
    ensures TargetName(Line(PrintTarget(q))) == Some(q) <==> TargetRepresentable(q)
  {
    var n := q.name.text;
    LineOfTarget(q.ns, n);
    WholeLine(n);
    if q.ns <= 9 {
      TargetOneDigit(q.ns, Line(n));
      hide TargetName, Line, Escape, Decimal;
    } else {
      TargetManyDigits(q.ns, ":" + Escape(Line(n)));
      hide TargetName, Line, Escape, Decimal;
      Associate(Decimal(q.ns), ":", Escape(Line(n)));
    }
  }

  lemma Associate(a: string, b: string, c: string)
    ensures a + b + c == a + (b + c)
  {
  }

  lemma WholeLine(n: string)
    ensures Line(n) == n <==> '\n' !in n
  {
  }

  // ---------------------------------------------------------------- bracketed references

  /** The text after the flags of a bracketed reference. */
  function AfterFlags(ns: u16, name: string, target: string): string {
    NamespacePrefix(ns) + (Escape(name) + ">" + target)
  }

  lemma EscapeHead(name: string, target: string)
    ensures var x := Escape(name) + ">" + target; x[0] != '#' && x[0] != '!' && x[0] != ':'
  {
    if name != [] { assert Escape(name)[0] == if name[0] in ReservedSet() then '&' else name[0]; }
  }

  /** The flags that were printed are the flags that are captured. */
  lemma FlagsRecognised(e: Element, rest: string)
    requires rest != [] && rest[0] != '#' && rest[0] != '!'
    ensures MatchFlags(Flags(e) + rest) == ToCaptures(Flags(e), MatchNamespace(rest))
  {
    hide MatchNamespace;
    var s := Flags(e) + rest;
    if Flags(e) == "" {
      assert s == rest;
    } else if |Flags(e)| == 1 {
      assert s[1..] == rest && s[0] == Flags(e)[0] && [s[0]] == Flags(e);
      NoNameAtFlag(s);
    } else {
      assert Flags(e) == "#!" && s[2..] == rest && s[1..][0] == '!';
      NoNameAtFlag(s);
      NoNameAtFlag(s[1..]);
    }
  }

  lemma NoNameAtFlag(s: string)
    requires s != [] && (s[0] == '#' || s[0] == '!')
    ensures MatchNamespace(s).None?
  {
  }

  /** An escaped name never reads as a namespace: a `:` in it follows `&`. */
  lemma {:induction false} EscapedNameHasNoNamespace(name: string, target: string)
    ensures var x := Escape(name) + ">" + target; var k := DigitRun(x); k < |x| && x[k] != ':'
  {
    var x := Escape(name) + ">" + target;
    EscapeHead(name, target);
    if name != [] && IsDigit(name[0]) {
      EscapedNameHasNoNamespace(name[1..], target);
      assert x[1..] == Escape(name[1..]) + ">" + target;
    }
  }

  lemma NamespaceRecognised(ns: u16, name: string, target: string)
    ensures MatchNamespace(AfterFlags(ns, name, target)) ==
            var x := Escape(name) + ">" + target;
            match MatchName(x)
            case Some((n, t)) => Some((PrintedNamespace(ns), n, t))
            case None => if ns == 0 then None else
              match MatchName(AfterFlags(ns, name, target))
              case None => None
              case Some((n, t)) => Some((None, n, t))
  {
    var x := Escape(name) + ">" + target;
    var s := AfterFlags(ns, name, target);
    if ns == 0 {
      assert s == x;
      EscapedNameHasNoNamespace(name, target);
    } else {
      assert s == Decimal(ns) + (":" + x);
      DigitRunConcat(Decimal(ns), ":" + x);
      assert s[|Decimal(ns)|..][1..] == x && s[|Decimal(ns)| + 1..] == x;
      assert s[..|Decimal(ns)|] == Decimal(ns);
    }
  }

  lemma {:induction false} LastCloseIs(before: string, after: string)
    requires '>' !in after
    ensures LastIndex(before + ">" + after, '>') == Some(|before|)
  {
    var s := before + ">" + after;
    if after != [] {
      var shorter := after[..|after| - 1];
      assert s[..|s| - 1] == before + ">" + shorter;
      LastCloseIs(before, shorter);
    }
  }

  /** The name is captured whole when it is non-empty, on one line and no later `>` follows. */
  lemma NameCapturedRaw(q: string, target: string)
    requires q != "" && q[0] != '#' && q[0] != '!' && '\n' !in q[1..] && '>' !in Line(target)
    ensures MatchName(q + ">" + target) == Some((q, Line(target)))
  {
    hide Line, LastIndex;
    var x := q + ">" + target;
    assert x[1..] == (q[1..] + ">") + target;
    LineConcat(q[1..] + ">", target);
    LastCloseIs(q[1..], Line(target));
    assert x[..|q|] == q && x[|q| + 1..] == target;
  }

  lemma EscapeTail(name: string)
    requires name != ""
    ensures Escape(name) != "" && Escape(name)[0] != '#' && Escape(name)[0] != '!'
    ensures '\n' !in Escape(name)[1..] <==> '\n' !in name[1..]
  {
    EscapeNewlines(name[1..]);
    if name[0] in ReservedSet() {
      assert Escape(name)[1..] == [name[0]] + Escape(name[1..]);
    } else {
      assert Escape(name)[1..] == Escape(name[1..]);
    }
  }

  lemma NameCaptured(name: string, target: string)
    requires name != "" && '\n' !in name[1..] && '>' !in Line(target)
    ensures MatchName(Escape(name) + ">" + target) == Some((Escape(name), Line(target)))
  {
    EscapeTail(name);
    NameCapturedRaw(Escape(name), target);
  }

  /** For any resolver that maps the printed name back, a bracketed element round-trips. */
  lemma BracketedRoundTrip(e: Element, name: string, resolve: Resolver)
    requires !Abbreviated(e) && TargetRepresentable(e.target)
    requires name != "" && '\n' !in name[1..]
    requires resolve(e.referenceType.ns, Escape(name)) == Some(e.referenceType)
    requires '>' !in e.target.name.AsRef()
    ensures ParseElement(PrintNamed(e, name), resolve) == Some(e)
  {
    var ns, target := e.referenceType.ns, PrintTarget(e.target);
    CapturesOfPrinted(e, name, Escape(name), Line(target)) by {
      TargetHasClose(e.target);
      NameCaptured(name, target);
    }
    TargetRoundTripIff(e.target);
    NamespaceParsed(ns);
    BuildBracket(e, Escape(name), Line(target), resolve);
  }

  /** What the expression captures from a printed element, once the name part is known to match. */
  lemma CapturesOfPrinted(e: Element, name: string, n: string, t: string)
    requires !Abbreviated(e)
    requires MatchName(Escape(name) + ">" + PrintTarget(e.target)) == Some((n, t))
    ensures MatchAt(PrintNamed(e, name)) ==
            Some(Captures(Bracket(Flags(e), PrintedNamespace(e.referenceType.ns), n), t))
  {
    BracketShape(e, name);
    BracketMatch(e, AfterFlags(e.referenceType.ns, name, PrintTarget(e.target)));
    NamespaceRecognised(e.referenceType.ns, name, PrintTarget(e.target));
  }

  lemma BuildBracket(e: Element, n: string, t: string, resolve: Resolver)
    ensures var ns := e.referenceType.ns;
            Build(Captures(Bracket(Flags(e), PrintedNamespace(ns), n), t), resolve) == Some(e) <==>
            TargetName(t) == Some(e.target) && resolve(ns, n) == Some(e.referenceType)
  {
    NamespaceParsed(e.referenceType.ns);
    assert Flags(e) == if e.includeSubtypes then (if e.isInverse then "!" else "") else if e.isInverse then "#!" else "#";
  }

  function PrintedNamespace(ns: u16): Option<string> {
    if ns == 0 then None else Some(Decimal(ns))
  }

  lemma NamespaceParsed(ns: u16)
    ensures ParseNamespace(PrintedNamespace(ns)) == Some(ns)
  {
    ParseInvertsDecimal(ns, 0xFFFF);
  }

  lemma BracketShape(e: Element, name: string)
    requires !Abbreviated(e)
    ensures var rest := AfterFlags(e.referenceType.ns, name, PrintTarget(e.target));
            PrintNamed(e, name) == "<" + (Flags(e) + rest) && rest[0] != '#' && rest[0] != '!'
  {
    var flags, prefix, q, target :=
      Flags(e), NamespacePrefix(e.referenceType.ns), Escape(name), PrintTarget(e.target);
    assert "<" + flags + prefix + q + ">" + target == "<" + (flags + (prefix + (q + ">" + target)));
    EscapeHead(name, target);
    if e.referenceType.ns != 0 { assert IsDigit(Decimal(e.referenceType.ns)[0]); }
  }

  lemma BracketMatch(e: Element, rest: string)
    requires rest != [] && rest[0] != '#' && rest[0] != '!'
    ensures MatchAt("<" + (Flags(e) + rest)) == ToCaptures(Flags(e), MatchNamespace(rest))
  {
    hide MatchFlags, MatchNamespace;
    FlagsRecognised(e, rest);
    assert ("<" + (Flags(e) + rest))[1..] == Flags(e) + rest;
  }

  lemma TargetHasClose(q: QualifiedName)
    ensures '>' in PrintTarget(q) <==> '>' in q.name.AsRef()
    ensures '\n' !in q.name.AsRef() ==> Line(PrintTarget(q)) == PrintTarget(q)
  {
    if q.name.Str? {
      DecimalIsOneLine(q.ns);
      EscapeHasClose(q.name.text);
      EscapeNewlines(q.name.text);
    }
  }

  lemma {:induction false} EscapeHasClose(s: string)
    ensures '>' in Escape(s) <==> '>' in s
  {
    if s != [] {
      EscapeHasClose(s[1..]);
      assert Escape(s) == (if s[0] in ReservedSet() then ['&', s[0]] else [s[0]]) + Escape(s[1..]);
      assert s == [s[0]] + s[1..];
    }
  }

  // ---------------------------------------------------------------- the exact round trip

  predicate Plain(s: string) { forall c <- s :: !Reserved(c) }

  /** What an element needs for its printed form to parse back to it with the default resolvers. */
  predicate Representable(e: Element) {
    match DefaultBrowseName(e.referenceType)
    case None => false
    case Some(name) => TargetRepresentable(e.target) && (Abbreviated(e) || BracketRepresentable(e, name))
  }

  predicate BracketRepresentable(e: Element, name: string) {
    && name != "" && Plain(name) && '\n' !in name[1..]
    && DefaultNodeResolver(e.referenceType.ns, name) == Some(e.referenceType)
    && '>' !in e.target.name.AsRef()
  }

  predicate RoundTrips(e: Element) {
    PrintElement(e).Some? && ParseElement(PrintElement(e).value, DefaultNodeResolver) == Some(e)
  }

  /** Printing then parsing with the default resolvers is the identity on an element exactly when it is representable. */
  lemma ElementRoundTripIff(e: Element)
    ensures RoundTrips(e) <==> Representable(e)
  {
    if DefaultBrowseName(e.referenceType).Some? {
      var name := DefaultBrowseName(e.referenceType).value;
      if Abbreviated(e) {
        AbbreviatedRoundTripIff(e, name, DefaultNodeResolver);
      } else {
        BracketRoundTripIff(e, name);
      }
    }
  }

  lemma BracketRoundTripIff(e: Element, name: string)
    requires !Abbreviated(e) && DefaultBrowseName(e.referenceType) == Some(name)
    ensures ParseElement(PrintNamed(e, name), DefaultNodeResolver) == Some(e) <==>
            TargetRepresentable(e.target) && BracketRepresentable(e, name)
  {
    if TargetRepresentable(e.target) && BracketRepresentable(e, name) {
      EscapeLength(name);
      BracketedRoundTrip(e, name, DefaultNodeResolver);
    }
    if ParseElement(PrintNamed(e, name), DefaultNodeResolver) == Some(e) {
      BracketNecessary(e, name);
    }
  }

  lemma AbbreviatedRoundTripIff(e: Element, name: string, resolve: Resolver)
    requires Abbreviated(e)
    ensures ParseElement(PrintNamed(e, name), resolve) == Some(e) <==> TargetRepresentable(e.target)
  {
    var s, target := PrintNamed(e, name), PrintTarget(e.target);
    assert s[1..] == target;
    TargetRoundTripIff(e.target);
  }

  /** What the default resolver returns determines the name it was given. */
  lemma ResolverDetermines(ns: u16, name: string, id: NodeId)
    requires DefaultNodeResolver(ns, name) == Some(id)
    ensures id.ns == ns && DefaultBrowseName(id) == Some(name)
  {
    if ReferenceTypeId(name).Some? {
      forall i | 0 <= i && i + 1 < |REFERENCE_TYPES| ensures REFERENCE_TYPES[i].0 < REFERENCE_TYPES[i + 1].0 {
        ReferenceTypesIncrease(i);
      }
      NameOfId(REFERENCE_TYPES, name);
    }
  }

  lemma {:induction false} EscapeLength(s: string)
    ensures |Escape(s)| >= |s|
    ensures |Escape(s)| == |s| <==> Plain(s)
    ensures Plain(s) ==> Escape(s) == s
  {
    if s != [] {
      EscapeLength(s[1..]);
      assert s == [s[0]] + s[1..];
      assert s[0] in ReservedSet() <==> Reserved(s[0]);
    }
  }

  /** If the captured name is the printed name itself, nothing was escaped and the target has no `>`. */
  lemma CapturedNameIsWhole(name: string, target: string, t: string)
    requires MatchName(Escape(name) + ">" + target) == Some((name, t))
    ensures name != "" && '\n' !in name[1..] && Plain(name)
    ensures '>' !in Line(target) && t == Line(target)
  {
    var q := Escape(name);
    var x := q + ">" + target;
    EscapeTail(name);
    EscapeLength(name);
    CapturedLength(q, target);
    assert q == name;
    NoCloseAfter(q, target, t);
  }

  lemma CapturedLength(q: string, target: string)
    requires q != "" && '\n' !in q[1..]
    requires MatchName(q + ">" + target).Some?
    ensures |MatchName(q + ">" + target).value.0| >= |q|
    ensures |MatchName(q + ">" + target).value.0| == |q| ==> '>' !in Line(target)
  {
    var x := q + ">" + target;
    LineOfCaptured(q, target);
    var line := Line(x[1..]);
    var k := LastIndex(line, '>').value;
    assert line[|q| - 1] == '>';
    if k == |q| - 1 { assert line[k + 1..] == Line(target); }
  }

  lemma LineOfCaptured(q: string, target: string)
    requires q != "" && '\n' !in q[1..]
    ensures Line((q + ">" + target)[1..]) == q[1..] + ">" + Line(target)
  {
    assert (q + ">" + target)[1..] == (q[1..] + ">") + target;
    LineConcat(q[1..] + ">", target);
  }

  lemma NoCloseAfter(q: string, target: string, t: string)
    requires q != "" && '\n' !in q[1..]
    requires MatchName(q + ">" + target) == Some((q, t))
    ensures '>' !in Line(target) && t == Line(target)
  {
    CapturedLength(q, target);
    NameCapturedRaw(q, target);
  }

  /** Whatever position the search settles on, a captured name is not empty and only its first character can be a newline. */
  lemma {:induction false} SearchName(s: string)
    requires Search(s).Some? && Search(s).value.reference.Bracket?
    ensures var n := Search(s).value.reference.name; n != "" && '\n' !in n[1..]
  {
    hide MatchName;
    if MatchAt(s).None? {
      SearchName(s[1..]);
    }
  }

  /** The parsed reference type is never one that would have been abbreviated, so it comes from the resolver. */
  lemma BuildUsesResolver(captures: Captures, e: Element)
    requires !Abbreviated(e) && Build(captures, DefaultNodeResolver) == Some(e)
    ensures captures.reference.Bracket?
    ensures DefaultBrowseName(e.referenceType) == Some(captures.reference.name)
    ensures ParseNamespace(captures.reference.nsidx) == Some(e.referenceType.ns)
    ensures TargetName(captures.target) == Some(e.target)
    ensures DefaultNodeResolver(e.referenceType.ns, captures.reference.name) == Some(e.referenceType)
  {
    if captures.reference.Bracket? {
      ResolverDetermines(ParseNamespace(captures.reference.nsidx).value, captures.reference.name, e.referenceType);
    }
  }

  lemma BracketNecessary(e: Element, name: string)
    requires !Abbreviated(e) && DefaultBrowseName(e.referenceType) == Some(name)
    requires ParseElement(PrintNamed(e, name), DefaultNodeResolver) == Some(e)
    ensures TargetRepresentable(e.target) && BracketRepresentable(e, name)
  {
    var s, target := PrintNamed(e, name), PrintTarget(e.target);
    BuildUsesResolver(Search(s).value, e);
    NameMatches(e, name);
    var (n, t) := MatchName(Escape(name) + ">" + target).value;
    CapturesOfPrinted(e, name, n, t);
    BuildUsesResolver(Captures(Bracket(Flags(e), PrintedNamespace(e.referenceType.ns), n), t), e);
    CapturedNameIsWhole(name, target, t);
    TargetRoundTripIff(e.target);
    TargetHasClose(e.target);
  }

  /** When the printed element parses back, the expression matched at its first character, on the printed name. */
  lemma NameMatches(e: Element, name: string)
    requires !Abbreviated(e) && DefaultBrowseName(e.referenceType) == Some(name)
    requires ParseElement(PrintNamed(e, name), DefaultNodeResolver) == Some(e)
    ensures MatchName(Escape(name) + ">" + PrintTarget(e.target)).Some?
  {
    var s, target := PrintNamed(e, name), PrintTarget(e.target);
    BuildUsesResolver(Search(s).value, e);
    SearchName(s);
    EscapeTail(name);
    LineOfCaptured(Escape(name), target);
    assert '>' in Escape(name)[1..] + ">" + Line(target);
  }

  /** Namespace 10 prints as `/10:a`; the parser keeps `10:a` as a name in namespace 0. */
  lemma TwoDigitNamespaceIsLost()
    ensures !RoundTrips(Element(HIERARCHICAL_REFERENCES, false, true, QualifiedName(10, Str("a"))))
  {
    ElementRoundTripIff(Element(HIERARCHICAL_REFERENCES, false, true, QualifiedName(10, Str("a"))));
  }
}
