/** The text forms spelled out, character by character, for every value: relative paths, node ids and numeric ranges
    (lib/src/types/{relative_path,node_id,expanded_node_id,numeric_range}.rs; OPC UA Part 4, Appendix A). */
module TextFormats {
  import opened Prelude
  import opened UaTypes
  import opened Text
  import opened RelativePathElement
  import opened RelativePath
  import BrowseName
  import Utf8
  import NodeIdText
  import NumericRanges

  // ---------------------------------------------------------------- browse names

  /** A reserved character is written after `&`, any other as itself, one after the other. */
  lemma EscapedCharacters(c: char, rest: string)
    ensures BrowseName.Escape("") == ""
    ensures c in {'&', '/', '.', '<', '>', ':', '#', '!'} ==>
              BrowseName.Escape([c] + rest) == ['&', c] + BrowseName.Escape(rest)
    ensures c !in {'&', '/', '.', '<', '>', ':', '#', '!'} ==>
              BrowseName.Escape([c] + rest) == [c] + BrowseName.Escape(rest)
  {
    var s := [c] + rest;
    assert s[0] == c && s[1..] == rest;
    assert c in BrowseName.ReservedSet() <==> c in {'&', '/', '.', '<', '>', ':', '#', '!'} by {
      assert BrowseName.RESERVED == ['&', '/', '.', '<', '>', ':', '#', '!'];
    }
  }

  // ---------------------------------------------------------------- path elements

  /** A target without a name is written as nothing, any other as `namespace:name`. */
  lemma TargetText(q: QualifiedName)
    ensures q.name.Null? ==> PrintTarget(q) == ""
    ensures q.name.Str? ==> PrintTarget(q) == Decimal(q.ns) + ":" + BrowseName.Escape(q.name.text)
  {
  }

  /** `/` and `.` stand for the forward references of types 33 and 44 with their subtypes. */
  lemma AbbreviatedText(q: QualifiedName, name: string)
    ensures PrintNamed(Element(NodeId(0, Numeric(33)), false, true, q), name) == "/" + PrintTarget(q)
    ensures PrintNamed(Element(NodeId(0, Numeric(44)), false, true, q), name) == "." + PrintTarget(q)
  {
  }

  lemma AbbreviatedElements(q: QualifiedName, resolve: Resolver)
    requires TargetRepresentable(q)
    ensures ParseElement("/" + PrintTarget(q), resolve) == Some(Element(NodeId(0, Numeric(33)), false, true, q))
    ensures ParseElement("." + PrintTarget(q), resolve) == Some(Element(NodeId(0, Numeric(44)), false, true, q))
  {
    hide ParseElement, PrintNamed;
    var slash := Element(NodeId(0, Numeric(33)), false, true, q);
    var dot := Element(NodeId(0, Numeric(44)), false, true, q);
    AbbreviatedText(q, "");
    assert Abbreviated(slash) && Abbreviated(dot);
    AbbreviatedRoundTripIff(slash, "", resolve);
    AbbreviatedRoundTripIff(dot, "", resolve);
  }

  /** Any other reference is written in brackets: `#` without subtypes, then `!` when inverse, then its namespace
      unless it is 0, then its name. */
  lemma BracketedText(id: NodeId, q: QualifiedName, name: string)
    ensures
      var r := (if id.ns == 0 then "" else Decimal(id.ns) + ":") + BrowseName.Escape(name) + ">" + PrintTarget(q);
      && PrintNamed(Element(id, false, false, q), name) == "<#" + r
      && PrintNamed(Element(id, true, true, q), name) == "<!" + r
      && PrintNamed(Element(id, true, false, q), name) == "<#!" + r
      && (id != NodeId(0, Numeric(33)) && id != NodeId(0, Numeric(44)) ==>
            PrintNamed(Element(id, false, true, q), name) == "<" + r)
  {
    hide BrowseName.Escape, PrintTarget, Decimal, Flags;
    var p, n, t := NamespacePrefix(id.ns), BrowseName.Escape(name), PrintTarget(q);
    Regrouped("<#", p, n, t);
    Regrouped("<!", p, n, t);
    Regrouped("<#!", p, n, t);
    Regrouped("<", p, n, t);
    FlagTexts(id, q);
  }

  lemma Regrouped(lead: string, p: string, n: string, t: string)
    ensures lead + p + n + ">" + t == lead + (p + n + ">" + t)
  {
  }

  lemma FlagTexts(id: NodeId, q: QualifiedName)
    ensures "<" + Flags(Element(id, false, false, q)) == "<#" && "<" + Flags(Element(id, true, true, q)) == "<!"
    ensures "<" + Flags(Element(id, true, false, q)) == "<#!" && "<" + Flags(Element(id, false, true, q)) == "<"
  {
  }

  /** The name between the brackets is resolved, and `#` and `!` exclude subtypes and invert the reference. */
  lemma BracketedElements(id: NodeId, name: string, q: QualifiedName, resolve: Resolver)
    requires name != "" && '\n' !in name[1..] && TargetRepresentable(q) && '>' !in q.name.AsRef()
    requires resolve(id.ns, BrowseName.Escape(name)) == Some(id)
    ensures
      var r := (if id.ns == 0 then "" else Decimal(id.ns) + ":") + BrowseName.Escape(name) + ">" + PrintTarget(q);
      && ParseElement("<#" + r, resolve) == Some(Element(id, false, false, q))
      && ParseElement("<!" + r, resolve) == Some(Element(id, true, true, q))
      && ParseElement("<#!" + r, resolve) == Some(Element(id, true, false, q))
      && (id != NodeId(0, Numeric(33)) && id != NodeId(0, Numeric(44)) ==>
            ParseElement("<" + r, resolve) == Some(Element(id, false, true, q)))
  {
    hide ParseElement, PrintNamed, PrintTarget, TargetRepresentable, BrowseName.Escape, Decimal;
    BracketedText(id, q, name);
    BracketedRoundTrip(Element(id, false, false, q), name, resolve);
    BracketedRoundTrip(Element(id, true, true, q), name, resolve);
    BracketedRoundTrip(Element(id, true, false, q), name, resolve);
    if id != NodeId(0, Numeric(33)) && id != NodeId(0, Numeric(44)) {
      BracketedRoundTrip(Element(id, false, true, q), name, resolve);
    }
  }

  /** The expression is not anchored: text before the first `/`, `.` or `<` is passed over. */
  lemma {:induction false} LeadingTextIsIgnored(lead: string, s: string, resolve: Resolver)
    requires forall c <- lead :: c !in {'/', '.', '<'}
    ensures ParseElement(lead + s, resolve) == ParseElement(s, resolve)
    ensures ParseElement(lead, resolve) == None
  {
    if lead == [] {
      assert lead + s == s;
    } else {
      assert (lead + s)[0] == lead[0] && (lead + s)[1..] == lead[1..] + s;
      assert lead[0] in lead && forall c <- lead[1..] :: c in lead;
      LeadingTextIsIgnored(lead[1..], s, resolve);
    }
  }

  /** The elements of a path are written one after the other and read in that order. */
  lemma TwoElements(q: QualifiedName, r: QualifiedName, resolve: Resolver)
    requires TargetRepresentable(q) && |Utf8.Encode("/" + PrintTarget(q))| <= 256
    requires TargetRepresentable(r) && |Utf8.Encode("." + PrintTarget(r))| <= 256
    ensures ParsePath("/" + PrintTarget(q) + ("." + PrintTarget(r)), resolve) ==
            Some([Element(NodeId(0, Numeric(33)), false, true, q), Element(NodeId(0, Numeric(44)), false, true, r)])
  {
    hide PrintNamed, PrintTarget, ParsePath, Utf8.Encode;
    var slash := Element(NodeId(0, Numeric(33)), false, true, q);
    var dot := Element(NodeId(0, Numeric(44)), false, true, r);
    AbbreviatedText(q, "");
    AbbreviatedText(r, "");
    assert Abbreviated(slash) && Abbreviated(dot);
    var tokens := PrintsNamed([slash, dot], ["", ""]);
    NamedPathRoundTrip([slash, dot], ["", ""], resolve);
    assert tokens == [PrintNamed(slash, ""), PrintNamed(dot, "")];
    assert Flat([PrintNamed(dot, "")]) == PrintNamed(dot, "") + Flat([]);
    assert tokens[1..] == [PrintNamed(dot, "")];
    assert Flat(tokens) == PrintNamed(slash, "") + PrintNamed(dot, "");
  }

  // ---------------------------------------------------------------- reference types

  lemma {:induction false} NameAt(table: seq<(u32, string)>, i: nat)
    requires i < |table| && forall k :: 0 <= k && k + 1 < |table| ==> table[k].0 < table[k + 1].0
    ensures NameIn(table, table[i].0) == Some(table[i].1)
    ensures table[0].0 <= table[i].0
  {
    if i > 0 {
      var rest := table[1..];
      forall k | 0 <= k && k + 1 < |rest| ensures rest[k].0 < rest[k + 1].0 {
        assert rest[k] == table[k + 1] && rest[k + 1] == table[k + 2];
      }
      NameAt(rest, i - 1);
      assert table[0].0 < table[1].0;
    }
  }

  lemma NameOf(i: nat)
    requires i < |REFERENCE_TYPES|
    ensures ReferenceTypeName(REFERENCE_TYPES[i].0) == Some(REFERENCE_TYPES[i].1)
  {
    forall k | 0 <= k && k + 1 < |REFERENCE_TYPES| ensures REFERENCE_TYPES[k].0 < REFERENCE_TYPES[k + 1].0 {
      ReferenceTypesIncrease(k);
    }
    NameAt(REFERENCE_TYPES, i);
  }

  lemma {:induction false} IdAt(table: seq<(u32, string)>, i: nat)
    requires i < |table| && forall k :: 0 <= k < i ==> table[k].1 != table[i].1
    ensures IdIn(table, table[i].1) == Some(table[i].0)
  {
    if i > 0 {
      var rest := table[1..];
      forall k | 0 <= k < i - 1 ensures rest[k].1 != rest[i - 1].1 { assert rest[k] == table[k + 1]; }
      IdAt(rest, i - 1);
    }
  }

  /** The reference types that the abbreviations stand for, and two more, by number and by name. */
  lemma ReferenceTypeExamples()
    ensures |REFERENCE_TYPES| == 27
    ensures ReferenceTypeName(33) == Some("HierarchicalReferences") && ReferenceTypeId("HierarchicalReferences") == Some(33)
    ensures ReferenceTypeName(34) == Some("HasChild") && ReferenceTypeId("HasChild") == Some(34)
    ensures ReferenceTypeName(44) == Some("Aggregates") && ReferenceTypeId("Aggregates") == Some(44)
    ensures ReferenceTypeName(56) == Some("HasHistoricalConfiguration")
    ensures ReferenceTypeId("HasHistoricalConfiguration") == Some(56)
  {
    hide NameIn, IdIn;
    NameOf(2);
    NameOf(3);
    NameOf(11);
    NameOf(21);
    IdAt(REFERENCE_TYPES, 2);
    IdAt(REFERENCE_TYPES, 3);
    assert REFERENCE_TYPES[11].1[0] == 'A';
    IdAt(REFERENCE_TYPES, 11);
    IdAt(REFERENCE_TYPES, 21);
  }

  /** A name that is not in the table, or not in namespace 0, resolves to itself. */
  lemma OtherNamesResolveToThemselves(ns: u16, name: string)
    requires ns != 0 || forall i :: 0 <= i < |REFERENCE_TYPES| ==> REFERENCE_TYPES[i].1 != name
    ensures DefaultNodeResolver(ns, name) == Some(NodeId(ns, Name(Str(name))))
    ensures DefaultBrowseName(NodeId(ns, Name(Str(name)))) == Some(name)
  {
    hide DefaultBrowseName;
    if ns == 0 { NotInTable(REFERENCE_TYPES, name); }
    ResolverDetermines(ns, name, NodeId(ns, Name(Str(name))));
  }

  lemma {:induction false} NotInTable(table: seq<(u32, string)>, name: string)
    requires forall i :: 0 <= i < |table| ==> table[i].1 != name
    ensures IdIn(table, name) == None
  {
    if table != [] { NotInTable(table[1..], name); }
  }

  // ---------------------------------------------------------------- node ids

  /** The namespace comes first unless it is 0, then the kind and value of the identifier. */
  lemma NodeIdTexts(lib: NodeIdText.Library, ns: u16, n: u32, name: UAString, g: Guid, b: ByteString)
    ensures
      var p := if ns == 0 then "" else "ns=" + Decimal(ns) + ";";
      && NodeIdText.PrintNodeId(lib, NodeId(ns, Numeric(n))) == p + ("i=" + Decimal(n))
      && NodeIdText.PrintNodeId(lib, NodeId(ns, Name(name))) == p + ("s=" + if name.Null? then "[null]" else name.text)
      && NodeIdText.PrintNodeId(lib, NodeId(ns, GuidId(g))) == p + ("g=" + lib.printGuid(g))
      && NodeIdText.PrintNodeId(lib, NodeId(ns, Opaque(b))) ==
           p + ("b=" + lib.encode64(if b.NullBytes? then [] else b.data))
  {
  }

  /** The server index comes first; a namespace URI stands in for the index, with `%` and `;` escaped. */
  lemma ExpandedNodeIdTexts(lib: NodeIdText.Library, id: Identifier, ns: u16, uri: string, server: u32)
    ensures
      var node, local := NodeIdText.PrintNodeId(lib, NodeId(ns, id)), NodeIdText.PrintNodeId(lib, NodeId(0, id));
      var lead := "svr=" + Decimal(server) + ";";
      && NodeIdText.PrintExpanded(lib, ExpandedNodeId(NodeId(ns, id), Null, server)) == lead + node
      && (uri != "" ==>
            NodeIdText.PrintExpanded(lib, ExpandedNodeId(NodeId(ns, id), Str(uri), server)) ==
            lead + ("nsu=" + EscapedUri(uri) + ";" + local))
  {
    NodeIdText.EscapeChainIsEscape(uri);
    UriIsEscaped(uri);
  }

  /** Every `%` of a URI is written `%25` and every `;` is written `%3b`. */
  function EscapedUri(uri: string): string {
    if uri == [] then []
    else if uri[0] == '%' then "%25" + EscapedUri(uri[1..])
    else if uri[0] == ';' then "%3b" + EscapedUri(uri[1..])
    else [uri[0]] + EscapedUri(uri[1..])
  }

  lemma {:induction false} UriIsEscaped(uri: string)
    ensures NodeIdText.Escape(uri) == EscapedUri(uri)
  {
    if uri != [] { UriIsEscaped(uri[1..]); }
  }

  /** A namespace index of more than 16 bits, or a number of more than 32, is refused. */
  lemma LargeNumbersAreRefused(lib: NodeIdText.Library, n: nat, rest: string)
    ensures n > 65535 ==> NodeIdText.ParseNodeId(lib, "ns=" + Decimal(n) + ";" + rest) == Err(BadNodeIdInvalid)
    ensures n > 4294967295 ==> NodeIdText.ParseNodeId(lib, "i=" + Decimal(n)) == Err(BadNodeIdInvalid)
    ensures n > 4294967295 ==> NodeIdText.ParseExpanded(lib, "svr=" + Decimal(n) + ";" + rest) == Err(BadNodeIdInvalid)
  {
    NodeIdText.TakeNumberPrinted("ns=", n, rest);
    NodeIdText.TakeNumberPrinted("svr=", n, rest);
    ParseInvertsDecimal(n, 0xFFFF);
    ParseInvertsDecimal(n, 0xFFFF_FFFF);
    var s := "i=" + Decimal(n);
    assert s[0] == 'i' && s[..2] == "i=" && s[2..] == Decimal(n);
    NodeIdText.TakeNumberRefuses("ns=", s, 0);
  }

  // ---------------------------------------------------------------- numeric ranges

  lemma RangeTexts(i: u32, min: u32, max: u32, first: NumericRanges.NumericRange, rest: seq<NumericRanges.NumericRange>)
    ensures NumericRanges.Print(NumericRanges.NoRange) == ""
    ensures NumericRanges.Print(NumericRanges.Index(i)) == Decimal(i)
    ensures NumericRanges.Print(NumericRanges.Range(min, max)) == Decimal(min) + ":" + Decimal(max)
    ensures NumericRanges.Print(NumericRanges.MultipleRanges([first])) == NumericRanges.Print(first)
    ensures rest != [] ==>
              NumericRanges.Print(NumericRanges.MultipleRanges([first] + rest)) ==
              NumericRanges.Print(first) + "," + NumericRanges.Print(NumericRanges.MultipleRanges(rest))
  {
    var parts := NumericRanges.PrintAll([first] + rest);
    assert parts[1..] == NumericRanges.PrintAll(rest) && parts[0] == NumericRanges.Print(first);
    assert NumericRanges.PrintAll([first]) == [NumericRanges.Print(first)];
  }

  lemma DigitsHaveNoSeparator(s: string)
    requires AllDigits(s)
    ensures ',' !in s && ':' !in s
  {
    assert !IsDigit(',') && !IsDigit(':');
  }

  /** Leading zeros count towards the ten digits; the value must fit 32 bits. */
  lemma NumberReads(s: string)
    requires AllDigits(s) && s != []
    ensures NumericRanges.Parse(s) ==
            if |s| <= 10 && Value(s) <= 4294967295 then Some(NumericRanges.Index(Value(s))) else None
  {
    hide Split, Join, Value;
    DigitsHaveNoSeparator(s);
    WholeText(s, ',');
    WholeText(s, ':');
  }

  /** The bounds must increase. */
  lemma RangeReads(a: string, b: string)
    requires AllDigits(a) && AllDigits(b) && a != [] && b != []
    ensures NumericRanges.Parse(a + ":" + b) ==
            if |a| <= 10 && |b| <= 10 && Value(a) < Value(b) <= 4294967295
            then Some(NumericRanges.Range(Value(a), Value(b))) else None
  {
    hide Split, Join, Value;
    DigitsHaveNoSeparator(a);
    DigitsHaveNoSeparator(b);
    WholeText(a + ":" + b, ',');
    TwoParts(a, b);
  }

  lemma WholeText(s: string, c: char)
    requires c !in s
    ensures Split(s, c) == [s]
  {
    assert Join([s], c) == s;
    SplitInvertsJoin([s], c);
  }

  lemma TwoParts(a: string, b: string)
    requires ':' !in a && ':' !in b
    ensures Split(a + ":" + b, ':') == [a, b]
  {
    var parts := [a, b];
    assert parts[1..] == [b];
    assert Join(parts, ':') == a + ":" + b;
    hide Join;
    SplitInvertsJoin(parts, ':');
  }
}
