/** The text form of node ids and expanded node ids, and exactly which of them it carries
    (lib/src/types/{node_id,expanded_node_id}.rs; OPC UA Part 6, sections 5.3.1.10 and 5.3.1.11). */
module NodeIdText {
  import opened Prelude
  import opened Text
  import opened UaTypes

  /** The text functions of the `uuid` and `base64` crates. */
  datatype Library = Library(
    printGuid: Guid -> string,
    parseGuid: string -> Option<Guid>,
    encode64: bytes -> string,
    decode64: string -> Option<bytes>)

  /** What those crates promise: each parser undoes its printer, on one line, and only nothing prints as nothing. */
  ghost predicate Lawful(lib: Library) {
    && (forall g: Guid :: lib.parseGuid(lib.printGuid(g)) == Some(g))
    && (forall g: Guid :: lib.printGuid(g) != [] && '\n' !in lib.printGuid(g))
    && (forall b: bytes :: lib.decode64(lib.encode64(b)) == Some(b))
    && (forall b: bytes :: (lib.encode64(b) == [] <==> b == []) && '\n' !in lib.encode64(b))
  }

  // ---------------------------------------------------------------- identifiers

  function PrintIdentifier(lib: Library, id: Identifier): (s: string)
    ensures |s| >= 2 && s[0] in "isgb" && s[1] == '='
  {
    match id
    case Numeric(n) => "i=" + Decimal(n)
    case Name(name) => "s=" + (if name.Null? then "[null]" else name.text)
    case GuidId(g) => "g=" + lib.printGuid(g)
    case Opaque(b) => "b=" + lib.encode64(if b.NullBytes? then [] else b.data)
  }

  function ParseIdentifier(lib: Library, s: string): Option<Identifier> {
    if |s| < 2 then None
    else
      var k, v := s[..2], s[2..];
      if k == "i=" then
        var n := ParseUnsigned(v, 0xFFFF_FFFF);
        if n.Some? then Some(Numeric(n.value)) else None
      else if k == "s=" then Some(Name(Str(v)))
      else if k == "g=" then
        var g := lib.parseGuid(v);
        if g.Some? then Some(GuidId(g.value)) else None
      else if k == "b=" then
        var b := lib.decode64(v);
        if b.Some? then Some(Opaque(Bytes(b.value))) else None
      else None
  }

  /** What the group `[isgb]=.+` accepts up to the end of the text. */
  predicate Typed(s: string) { |s| >= 3 && s[0] in "isgb" && s[1] == '=' && '\n' !in s[2..] }

  /** The identifiers that survive printing: no null and no empty value, and no newline in a name. */
  predicate Printable(id: Identifier) {
    match id
    case Numeric(_) => true
    case Name(name) => name.Str? && name.text != [] && '\n' !in name.text
    case GuidId(_) => true
    case Opaque(b) => b.Bytes? && b.data != []
  }

  lemma IdentifierRoundTripIff(lib: Library, id: Identifier)
    requires Lawful(lib)
    ensures Typed(PrintIdentifier(lib, id)) && ParseIdentifier(lib, PrintIdentifier(lib, id)) == Some(id) <==> Printable(id)
  {
    var s := PrintIdentifier(lib, id);
    match id
    case Numeric(n) =>
      assert s[..2] == "i=" && s[2..] == Decimal(n);
      ParseInvertsDecimal(n, 0xFFFF_FFFF);
      assert '\n' !in Decimal(n) by { assert !IsDigit('\n'); }
    case Name(name) => assert s[..2] == "s=" && s[2..] == if name.Null? then "[null]" else name.text;
    case GuidId(g) => assert s[..2] == "g=" && s[2..] == lib.printGuid(g);
    case Opaque(b) => assert s[..2] == "b=" && s[2..] == lib.encode64(if b.NullBytes? then [] else b.data);
  }

  // ---------------------------------------------------------------- numbered groups

  /** The group `prefix[0-9]+;`: its digits and what follows it. */
  function TakeNumber(prefix: string, s: string): (r: Option<(string, string)>)
    ensures r.Some? ==> prefix <= s
  {
    if !(prefix <= s) then None
    else
      var t := s[|prefix|..];
      var k := DigitRun(t);
      if k > 0 && k < |t| && t[k] == ';' then Some((t[..k], t[k + 1..])) else None
  }

  lemma TakeNumberPrinted(prefix: string, n: nat, rest: string)
    ensures TakeNumber(prefix, prefix + Decimal(n) + ";" + rest) == Some((Decimal(n), rest))
  {
    var s := prefix + Decimal(n) + ";" + rest;
    var t := Decimal(n) + (";" + rest);
    assert s == prefix + t && s[|prefix|..] == t;
    DigitRunConcat(Decimal(n), ";" + rest);
    assert t[..|Decimal(n)|] == Decimal(n) && t[|Decimal(n)| + 1..] == rest;
  }

  lemma TakeNumberRefuses(prefix: string, s: string, i: nat)
    requires i < |prefix| && i < |s| && s[i] != prefix[i]
    ensures TakeNumber(prefix, s) == None
  {
  }

  // ---------------------------------------------------------------- node ids

  function PrintNodeId(lib: Library, n: NodeId): string {
    if n.ns != 0 then "ns=" + Decimal(n.ns) + ";" + PrintIdentifier(lib, n.identifier) else PrintIdentifier(lib, n.identifier)
  }

  function WithIdentifier(lib: Library, ns: u16, t: string): Result<NodeId> {
    if !Typed(t) then Err(BadNodeIdInvalid)
    else
      var id := ParseIdentifier(lib, t);
      if id.Some? then Ok(NodeId(ns, id.value)) else Err(BadNodeIdInvalid)
  }

  function ParseNodeId(lib: Library, s: string): Result<NodeId> {
    var group := TakeNumber("ns=", s);
    if group.None? then WithIdentifier(lib, 0, s)
    else
      var ns := ParseUnsigned(group.value.0, 0xFFFF);
      if ns.None? then Err(BadNodeIdInvalid) else WithIdentifier(lib, ns.value, group.value.1)
  }

  /** Parsing gives a node id back exactly when its identifier is printable. */
  lemma NodeIdRoundTripIff(lib: Library, n: NodeId)
    requires Lawful(lib)
    ensures ParseNodeId(lib, PrintNodeId(lib, n)) == Ok(n) <==> Printable(n.identifier)
  {
    hide Lawful, ParseIdentifier, PrintIdentifier, Printable, ParseUnsigned, TakeNumber;
    var t := PrintIdentifier(lib, n.identifier);
    IdentifierRoundTripIff(lib, n.identifier);
    if n.ns != 0 {
      TakeNumberPrinted("ns=", n.ns, t);
      ParseInvertsDecimal(n.ns, 0xFFFF);
    } else {
      TakeNumberRefuses("ns=", t, 0);
    }
  }

  // ---------------------------------------------------------------- namespace URIs

  /** The two replacements of the printer. */
  function EscapeChain(uri: string): string { Replace(Replace(uri, "%", "%25"), ";", "%3b") }

  /** The two replacements of the parser. */
  function UnescapeChain(text: string): string { Replace(Replace(text, "%3b", ";"), "%25", "%") }

  function Mark(c: char): string { if c == '%' then "%25" else if c == ';' then "%3b" else [c] }

  function Escape(uri: string): string { if uri == [] then [] else Mark(uri[0]) + Escape(uri[1..]) }

  /** Both escapes undone in one pass. */
  function Unescape(text: string): string {
    if text == [] then []
    else if "%3b" <= text then ";" + Unescape(text[3..])
    else if "%25" <= text then "%" + Unescape(text[3..])
    else [text[0]] + Unescape(text[1..])
  }

  lemma {:induction false} EscapeChainIsEscape(uri: string)
    ensures EscapeChain(uri) == Escape(uri)
  {
    if uri != [] {
      var c, rest := uri[0], uri[1..];
      EscapeChainIsEscape(rest);
      assert uri == [c] + rest;
      var r := Replace(rest, "%", "%25");
      if c == '%' {
        ReplaceHit("%", rest, "%25");
        assert "%25" + r == ['%'] + (['2'] + (['5'] + r));
        ReplaceMiss('%', ['2'] + (['5'] + r), ";", "%3b");
        ReplaceMiss('2', ['5'] + r, ";", "%3b");
        ReplaceMiss('5', r, ";", "%3b");
      } else {
        ReplaceMiss(c, rest, "%", "%25");
        if c == ';' { ReplaceHit(";", r, "%3b"); } else { ReplaceMiss(c, r, ";", "%3b"); }
      }
    }
  }

  /** Replacing `%3b` by `;` neither makes nor hides an initial `25`. */
  lemma StartsAlike(t: string)
    ensures "25" <= Replace(t, "%3b", ";") ==> "25" <= t
  {
    var r := Replace(t, "%3b", ";");
    if "25" <= r {
      assert r[0] == '2' && r[1] == '5';
      assert !("%3b" <= t) && r == [t[0]] + Replace(t[1..], "%3b", ";");
      assert r[1..] == Replace(t[1..], "%3b", ";") && r[1..][0] == '5';
      assert !("%3b" <= t[1..]) && t[1] == '5';
    }
  }

  lemma UnescapeSemicolon(rest: string)
    ensures UnescapeChain("%3b" + rest) == ";" + UnescapeChain(rest)
  {
    hide Replace;
    ReplaceHit("%3b", rest, ";");
    ReplaceMiss(';', Replace(rest, "%3b", ";"), "%25", "%");
  }

  lemma UnescapePercent(rest: string)
    ensures UnescapeChain("%25" + rest) == "%" + UnescapeChain(rest)
  {
    hide Replace;
    var r := Replace(rest, "%3b", ";");
    assert "%25" + rest == ['%'] + (['2'] + (['5'] + rest));
    ReplaceMiss('%', ['2'] + (['5'] + rest), "%3b", ";");
    ReplaceMiss('2', ['5'] + rest, "%3b", ";");
    ReplaceMiss('5', rest, "%3b", ";");
    assert ['%'] + (['2'] + (['5'] + r)) == "%25" + r;
    ReplaceHit("%25", r, "%");
  }

  lemma UnescapeOther(c: char, t: string)
    requires !("%3b" <= [c] + t) && !("%25" <= [c] + t)
    ensures UnescapeChain([c] + t) == [c] + UnescapeChain(t)
  {
    StartsAlike(t);
    hide Replace;
    ReplaceSkip(c, t, "%3b", ";");
    PrefixTwo('2', '5', t);
    PrefixThree('%', '2', '5', [c] + t);
    PercentMiss(c, Replace(t, "%3b", ";"));
  }

  /** The order of the two replacements does not matter: together they are one pass, on every text. */
  lemma {:induction false} UnescapeChainIsOnePass(text: string)
    ensures UnescapeChain(text) == Unescape(text)
    decreases |text|
  {
    if text == [] {
      assert Replace(text, "%3b", ";") == [];
    } else {
      hide UnescapeChain;
      if "%3b" <= text {
        assert text == "%3b" + text[3..];
        UnescapeSemicolon(text[3..]);
        UnescapeChainIsOnePass(text[3..]);
      } else if "%25" <= text {
        assert text == "%25" + text[3..];
        UnescapePercent(text[3..]);
        UnescapeChainIsOnePass(text[3..]);
      } else {
        assert text == [text[0]] + text[1..];
        UnescapeOther(text[0], text[1..]);
        UnescapeChainIsOnePass(text[1..]);
      }
    }
  }

  lemma PrefixTwo(a: char, b: char, r: string)
    ensures [a, b] <= r <==> |r| >= 2 && r[0] == a && r[1] == b
  {
  }

  lemma PrefixThree(a: char, b: char, c: char, r: string)
    ensures [a, b, c] <= r <==> |r| >= 3 && r[0] == a && r[1] == b && r[2] == c
  {
  }

  lemma PercentMiss(c: char, r: string)
    requires c != '%' || !("25" <= r)
    ensures Replace([c] + r, "%25", "%") == [c] + Replace(r, "%25", "%")
  {
    var s := [c] + r;
    PrefixTwo('2', '5', r);
    PrefixThree('%', '2', '5', s);
    assert s[1..] == r && (|r| >= 2 ==> s[1] == r[0] && s[2] == r[1]);
    assert !(['%', '2', '5'] <= s);
  }

  lemma {:induction false} EscapedHasNoSemicolon(uri: string)
    ensures ';' !in Escape(uri)
    ensures Escape(uri) == [] <==> uri == []
  {
    if uri != [] { EscapedHasNoSemicolon(uri[1..]); }
  }

  /** Every URI is read back from its escaped form. */
  lemma {:induction false} UnescapeInvertsEscape(uri: string)
    ensures Unescape(Escape(uri)) == uri
  {
    if uri != [] {
      var c, rest := uri[0], Escape(uri[1..]);
      UnescapeInvertsEscape(uri[1..]);
      var s := Mark(c) + rest;
      if c == '%' {
        assert "%25" <= s && s[1] == '2' && s[3..] == rest;
      } else if c == ';' {
        assert "%3b" <= s && s[3..] == rest;
      } else {
        assert s[0] == c && s[1..] == rest;
      }
    }
  }

  // ---------------------------------------------------------------- expanded node ids

  function PrintExpanded(lib: Library, n: ExpandedNodeId): string {
    "svr=" + Decimal(n.server) + ";" +
    if n.uri.IsEmpty() then PrintNodeId(lib, n.nodeId)
    else "nsu=" + EscapeChain(n.uri.AsRef()) + ";" + PrintIdentifier(lib, n.nodeId.identifier)
  }

  function UntilSemicolon(s: string): (k: nat)
    ensures k <= |s| && ';' !in s[..k] && (k < |s| ==> s[k] == ';')
  {
    if s == [] || s[0] == ';' then 0
    else
      var k := 1 + UntilSemicolon(s[1..]);
      assert s[..k] == [s[0]] + s[1..][..k - 1];
      k
  }

  lemma {:induction false} UntilSemicolonIs(text: string, rest: string)
    requires ';' !in text
    ensures UntilSemicolon(text + (";" + rest)) == |text|
  {
    if text != [] {
      assert (text + (";" + rest))[1..] == text[1..] + (";" + rest);
      UntilSemicolonIs(text[1..], rest);
    }
  }

  /** The group `nsu=[^;]+;` */
  function TakeUri(s: string): Option<(string, string)> {
    if !("nsu=" <= s) then None
    else
      var t := s[4..];
      var k := UntilSemicolon(t);
      if k > 0 && k < |t| then Some((t[..k], t[k + 1..])) else None
  }

  lemma TakeUriPrinted(text: string, rest: string)
    requires text != [] && ';' !in text
    ensures TakeUri("nsu=" + text + ";" + rest) == Some((text, rest))
  {
    var t := text + (";" + rest);
    assert "nsu=" + text + ";" + rest == "nsu=" + t;
    assert ("nsu=" + t)[4..] == t;
    UntilSemicolonIs(text, rest);
    var k := |text|;
    assert t[..k] == text && t[k + 1..] == rest;
  }

  function Expanded(n: Result<NodeId>, uri: UAString, server: u32): Result<ExpandedNodeId> {
    if n.Err? then Err(n.status) else Ok(ExpandedNodeId(n.value, uri, server))
  }

  /** What follows `svr=…;`: a namespace index or a URI, and the identifier. */
  function ParseLocated(lib: Library, s: string, server: u32): Result<ExpandedNodeId> {
    var indexed := TakeNumber("ns=", s);
    if indexed.Some? then
      var ns := ParseUnsigned(indexed.value.0, 0xFFFF);
      if ns.None? then Err(BadNodeIdInvalid) else Expanded(WithIdentifier(lib, ns.value, indexed.value.1), Null, server)
    else
      var named := TakeUri(s);
      if named.None? then Err(BadNodeIdInvalid)
      else Expanded(WithIdentifier(lib, 0, named.value.1), Str(UnescapeChain(named.value.0)), server)
  }

  function ParseExpanded(lib: Library, s: string): Result<ExpandedNodeId> {
    var group := TakeNumber("svr=", s);
    if group.None? then Err(BadNodeIdInvalid)
    else
      var server := ParseUnsigned(group.value.0, 0xFFFF_FFFF);
      if server.None? then Err(BadNodeIdInvalid) else ParseLocated(lib, group.value.1, server.value)
  }

  /** The text carries a namespace index or a URI, never both and never neither. */
  predicate Located(n: ExpandedNodeId) {
    (n.uri.Null? && n.nodeId.ns > 0) || (!n.uri.IsEmpty() && n.nodeId.ns == 0)
  }

  lemma LocatedByIndex(lib: Library, n: ExpandedNodeId)
    requires Lawful(lib) && n.uri.IsEmpty()
    ensures ParseLocated(lib, PrintNodeId(lib, n.nodeId), n.server) == Ok(n) <==> Located(n) && Printable(n.nodeId.identifier)
  {
    hide Lawful, ParseIdentifier, PrintIdentifier, Printable, ParseUnsigned, TakeNumber;
    var t := PrintIdentifier(lib, n.nodeId.identifier);
    IdentifierRoundTripIff(lib, n.nodeId.identifier);
    if n.nodeId.ns != 0 {
      TakeNumberPrinted("ns=", n.nodeId.ns, t);
      ParseInvertsDecimal(n.nodeId.ns, 0xFFFF);
    } else {
      TakeNumberRefuses("ns=", t, 0);
      assert !("nsu=" <= t);
    }
  }

  lemma LocatedByUri(lib: Library, n: ExpandedNodeId)
    requires Lawful(lib) && !n.uri.IsEmpty()
    ensures
      var s := "nsu=" + EscapeChain(n.uri.AsRef()) + ";" + PrintIdentifier(lib, n.nodeId.identifier);
      ParseLocated(lib, s, n.server) == Ok(n) <==> Located(n) && Printable(n.nodeId.identifier)
  {
    hide Lawful, ParseIdentifier, PrintIdentifier, Printable, ParseUnsigned, TakeNumber, TakeUri, EscapeChain, UnescapeChain;
    var t := PrintIdentifier(lib, n.nodeId.identifier);
    var text := EscapeChain(n.uri.text);
    IdentifierRoundTripIff(lib, n.nodeId.identifier);
    EscapeChainIsEscape(n.uri.text);
    EscapedHasNoSemicolon(n.uri.text);
    UnescapeChainIsOnePass(text);
    UnescapeInvertsEscape(n.uri.text);
    TakeUriPrinted(text, t);
    var s := "nsu=" + text + ";" + t;
    assert s[2] == 'u';
    TakeNumberRefuses("ns=", s, 2);
  }

  /** Parsing gives an expanded node id back exactly when one of index and URI locates it and its identifier is
      printable. */
  lemma ExpandedRoundTripIff(lib: Library, n: ExpandedNodeId)
    requires Lawful(lib)
    ensures ParseExpanded(lib, PrintExpanded(lib, n)) == Ok(n) <==> Located(n) && Printable(n.nodeId.identifier)
  {
    hide Lawful, Printable, ParseUnsigned, TakeNumber, ParseLocated, PrintNodeId, PrintIdentifier, EscapeChain;
    ParseInvertsDecimal(n.server, 0xFFFF_FFFF);
    if n.uri.IsEmpty() {
      TakeNumberPrinted("svr=", n.server, PrintNodeId(lib, n.nodeId));
      LocatedByIndex(lib, n);
    } else {
      var s := "nsu=" + EscapeChain(n.uri.AsRef()) + ";" + PrintIdentifier(lib, n.nodeId.identifier);
      TakeNumberPrinted("svr=", n.server, s);
      LocatedByUri(lib, n);
    }
  }

  /** A node id of namespace zero prints as an expanded node id that its own parser refuses. */
  lemma NamespaceZeroIsRefused(lib: Library, id: Identifier, server: u32)
    requires Lawful(lib)
    ensures ParseExpanded(lib, PrintExpanded(lib, ExpandedNodeId(NodeId(0, id), Null, server))) == Err(BadNodeIdInvalid)
  {
    hide Lawful, ParseUnsigned, TakeNumber, PrintIdentifier;
    var t := PrintIdentifier(lib, id);
    TakeNumberPrinted("svr=", server, t);
    ParseInvertsDecimal(server, 0xFFFF_FFFF);
    TakeNumberRefuses("ns=", t, 0);
    assert !("nsu=" <= t);
  }
}
