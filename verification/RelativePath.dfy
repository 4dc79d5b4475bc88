/** Whole relative paths: the tokenizer loop, the printer, and the exact round trip
    (lib/src/types/relative_path.rs; OPC UA Part 4, Appendix A). */
module RelativePath {
  import opened Prelude
  import opened UaTypes
  import Utf8
  import opened Text
  import opened BrowseName
  import opened RelativePathElement

  /** The largest size in bytes of a path element. */
  const MAX_TOKEN_LEN: nat := 256
  const MAX_ELEMENTS: nat := 32

  predicate Separator(c: char) { c == '/' || c == '.' || c == '<' }

  function Size(s: string): nat { |Utf8.Encode(s)| }

  /** The variables of the tokenizer loop. */
  datatype Scan = Scan(elements: seq<Element>, token: string, escaped: bool)

  function Finish(st: Scan, resolve: Resolver): Option<seq<Element>> {
    if st.token == [] then Some(st.elements)
    else if |st.elements| == MAX_ELEMENTS then None
    else match ParseElement(st.token, resolve)
      case None => None
      case Some(e) => Some(st.elements + [e])
  }

  /** What the tokenizer returns when `rest` is still to be read. */
  function ParseFrom(rest: string, st: Scan, resolve: Resolver): Option<seq<Element>>
    decreases |rest|
  {
    if rest == [] then Finish(st, resolve)
    else if !st.escaped && Separator(rest[0]) && st.token != [] then
      if |st.elements| == MAX_ELEMENTS then Finish(st, resolve)
      else match ParseElement(st.token, resolve)
        case None => None
        case Some(e) => ParseFrom(rest[1..], Scan(st.elements + [e], [rest[0]], false), resolve)
    else
      var token := st.token + [rest[0]];
      if Size(token) > MAX_TOKEN_LEN then None
      else ParseFrom(rest[1..], Scan(st.elements, token, !st.escaped && rest[0] == '&'), resolve)
  }

  function ParsePath(path: string, resolve: Resolver): Option<seq<Element>> {
    ParseFrom(path, Scan([], "", false), resolve)
  }

  /** `RelativePath::from_str` */
  method FromStr(path: string, resolve: Resolver) returns (r: Option<seq<Element>>)
    ensures r == ParsePath(path, resolve)
  {
    hide ParseElement, Size;
    var elements: seq<Element> := [];
    var escapedChar := false;
    var token := "";
    var i := 0;
    while i < |path|
      invariant 0 <= i <= |path|
      invariant ParseFrom(path[i..], Scan(elements, token, escapedChar), resolve) == ParsePath(path, resolve)
    {
      var c := path[i];
      assert path[i..][1..] == path[i + 1..];
      if escapedChar {
        token := token + [c];
        escapedChar := false;
      } else {
        if c == '&' {
          escapedChar := true;
        } else if Separator(c) {
          if token != "" {
            if |elements| == MAX_ELEMENTS {
              return None;
            }
            var element := ParseElement(token, resolve);
            if element.None? {
              return None;
            }
            elements := elements + [element.value];
            token := "";
            assert "" + [c] == [c];
            SeparatorSize(c);
          }
        }
        token := token + [c];
      }
      if Size(token) > MAX_TOKEN_LEN {
        return None;
      }
      i := i + 1;
    }
    assert path[i..] == [];
    if token != "" {
      if |elements| == MAX_ELEMENTS {
        return None;
      }
      var element := ParseElement(token, resolve);
      if element.None? {
        return None;
      }
      elements := elements + [element.value];
    }
    return Some(elements);
  }

  /** The printed elements one after another; `None` when one of them panics. */
  function PrintAll(elements: seq<Element>): Option<string> {
    if elements == [] then Some("")
    else match (PrintElement(elements[0]), PrintAll(elements[1..]))
      case (Some(s), Some(t)) => Some(s + t)
      case _ => None
  }

  /** `String::from(&RelativePath)`; a path holds no elements at all or a list of them. */
  method PrintPath(path: Option<seq<Element>>) returns (r: Option<string>)
    ensures r == if path.None? then Some("") else PrintAll(path.value)
  {
    hide PrintElement;
    if path.None? {
      return Some("");
    }
    var elements := path.value;
    var result := "";
    assert elements[0..] == elements;
    assert forall s: string :: "" + s == s;
    for i := 0 to |elements|
      invariant PrintAll(elements) == Prepend(result, PrintAll(elements[i..]))
    {
      assert elements[i..][1..] == elements[i + 1..] && elements[i..][0] == elements[i];
      var s := PrintElement(elements[i]);
      if s.None? {
        return None;
      }
      if PrintAll(elements[i + 1..]).Some? {
        assert result + (s.value + PrintAll(elements[i + 1..]).value) ==
               (result + s.value) + PrintAll(elements[i + 1..]).value;
      }
      result := result + s.value;
    }
    assert elements[|elements|..] == [] && result + "" == result;
    return Some(result);
  }

  function Prepend(s: string, t: Option<string>): Option<string> {
    if t.None? then None else Some(s + t.value)
  }

  // ---------------------------------------------------------------- tokens

  /** Reading `s` meets no separator outside an escape and does not end inside one. */
  predicate Quiet(s: string, escaped: bool) {
    if s == [] then !escaped
    else if escaped then Quiet(s[1..], false)
    else !Separator(s[0]) && Quiet(s[1..], s[0] == '&')
  }

  predicate Token(s: string) { s != [] && Separator(s[0]) && Quiet(s[1..], false) }

  lemma {:induction false} QuietConcat(s: string, t: string, escaped: bool)
    requires Quiet(s, escaped) && Quiet(t, false)
    ensures Quiet(s + t, escaped)
  {
    if s == [] {
      assert s + t == t;
    } else {
      assert (s + t)[1..] == s[1..] + t;
      QuietConcat(s[1..], t, !escaped && s[0] == '&');
    }
  }

  lemma {:induction false} QuietEscape(n: string)
    ensures Quiet(Escape(n), false)
  {
    if n != [] {
      QuietEscape(n[1..]);
      var tail := Escape(n[1..]);
      if n[0] in ReservedSet() {
        assert Escape(n) == ['&', n[0]] + tail;
        assert Escape(n)[1..] == [n[0]] + tail && Escape(n)[1..][1..] == tail;
      } else {
        assert !Separator(n[0]) && n[0] != '&' by {
          assert RESERVED[0] == '&' && RESERVED[1] == '/' && RESERVED[2] == '.' && RESERVED[3] == '<';
        }
        assert Escape(n) == [n[0]] + tail && Escape(n)[1..] == tail;
      }
    }
  }

  lemma {:induction false} QuietPlain(s: string)
    requires forall c <- s :: !Separator(c) && c != '&'
    ensures Quiet(s, false)
  {
    if s != [] { QuietPlain(s[1..]); }
  }

  lemma QuietTarget(q: QualifiedName)
    ensures Quiet(PrintTarget(q), false)
  {
    if q.name.Str? {
      var prefix := Decimal(q.ns) + ":";
      assert forall c <- Decimal(q.ns) :: IsDigit(c);
      QuietPlain(prefix);
      QuietEscape(q.name.text);
      QuietConcat(prefix, Escape(q.name.text), false);
    }
  }

  /** However odd its names are, a printed element is one token. */
  lemma PrintedElementIsToken(e: Element, name: string)
    ensures Token(PrintNamed(e, name))
  {
    hide Escape, PrintTarget, Quiet;
    var target := PrintTarget(e.target);
    QuietTarget(e.target);
    if Abbreviated(e) {
      assert PrintNamed(e, name)[1..] == target;
    } else {
      var flags, prefix, q := Flags(e), NamespacePrefix(e.referenceType.ns), Escape(name);
      assert forall c <- Decimal(e.referenceType.ns) :: IsDigit(c);
      QuietEscape(name);
      QuietBracket(flags + prefix, q, target);
      BracketShape(e, name);
      Regroup(flags, prefix, q, target);
    }
  }

  lemma Regroup(a: string, b: string, c: string, d: string)
    ensures a + (b + (c + ">" + d)) == (a + b) + (c + (">" + d))
  {
  }

  lemma QuietBracket(prefix: string, q: string, target: string)
    requires forall c <- prefix :: !Separator(c) && c != '&'
    requires Quiet(q, false) && Quiet(target, false)
    ensures Token("<" + (prefix + (q + (">" + target))))
  {
    hide Quiet;
    QuietPlain(prefix);
    QuietPlain(">");
    QuietConcat(">", target, false);
    QuietConcat(q, ">" + target, false);
    QuietConcat(prefix, q + (">" + target), false);
    var tail := prefix + (q + (">" + target));
    assert ("<" + tail)[1..] == tail;
  }

  // ---------------------------------------------------------------- reading tokens back

  lemma SizeGrows(s: string, t: string)
    ensures Size(s) <= Size(s + t)
  {
    Utf8.EncodeConcat(s, t);
  }

  /** The tokenizer reads a quiet stretch into the current token, or rejects it for its size. */
  lemma {:induction false} ReadQuiet(s: string, rest: string, st: Scan, resolve: Resolver)
    requires Quiet(s, st.escaped) && st.token != [] && Size(st.token) <= MAX_TOKEN_LEN
    ensures ParseFrom(s + rest, st, resolve) ==
            if Size(st.token + s) <= MAX_TOKEN_LEN
            then ParseFrom(rest, Scan(st.elements, st.token + s, false), resolve)
            else None
  {
    if s == [] {
      assert s + rest == rest && st.token + s == st.token;
    } else {
      var next := Scan(st.elements, st.token + [s[0]], !st.escaped && s[0] == '&');
      assert (s + rest)[0] == s[0] && (s + rest)[1..] == s[1..] + rest;
      assert next.token + s[1..] == st.token + s;
      if Size(next.token) <= MAX_TOKEN_LEN {
        ReadQuiet(s[1..], rest, next, resolve);
      } else {
        SizeGrows(next.token, s[1..]);
      }
    }
  }

  function Flat(tokens: seq<string>): string {
    if tokens == [] then "" else tokens[0] + Flat(tokens[1..])
  }

  /** Parsing a list of tokens, each within the size limit, up to the limit on their number. */
  function ParseTokens(elements: seq<Element>, tokens: seq<string>, resolve: Resolver): Option<seq<Element>>
    decreases |tokens|
  {
    if tokens == [] then Some(elements)
    else if |elements| == MAX_ELEMENTS || Size(tokens[0]) > MAX_TOKEN_LEN then None
    else match ParseElement(tokens[0], resolve)
      case None => None
      case Some(e) => ParseTokens(elements + [e], tokens[1..], resolve)
  }

  lemma SeparatorSize(c: char)
    requires Separator(c)
    ensures Size([c]) == 1
  {
    assert [c][1..] == [] && Utf8.Encode([]) == [];
  }

  /** At the next token the one before it is parsed. */
  lemma ReadNextToken(elements: seq<Element>, token: string, t: string, rest: string, resolve: Resolver)
    requires token != [] && Size(token) <= MAX_TOKEN_LEN && Token(t)
    ensures ParseFrom(t + rest, Scan(elements, token, false), resolve) ==
            if |elements| == MAX_ELEMENTS then None
            else match ParseElement(token, resolve)
              case None => None
              case Some(e) =>
                if Size(t) <= MAX_TOKEN_LEN then ParseFrom(rest, Scan(elements + [e], t, false), resolve) else None
  {
    hide ParseElement, Size, Quiet;
    assert (t + rest)[0] == t[0] && (t + rest)[1..] == t[1..] + rest;
    var e := ParseElement(token, resolve);
    if |elements| != MAX_ELEMENTS && e.Some? {
      SeparatorSize(t[0]);
      ReadQuiet(t[1..], rest, Scan(elements + [e.value], [t[0]], false), resolve);
      assert [t[0]] + t[1..] == t;
    }
  }

  lemma ReadEnd(st: Scan, resolve: Resolver)
    ensures ParseFrom([], st, resolve) == Finish(st, resolve)
  {
  }

  /** With `token` read and `tokens` to come, the tokenizer parses them one by one. */
  lemma {:induction false} ReadTokens(elements: seq<Element>, token: string, tokens: seq<string>, resolve: Resolver)
    requires token != [] && Size(token) <= MAX_TOKEN_LEN && forall t <- tokens :: Token(t)
    ensures ParseFrom(Flat(tokens), Scan(elements, token, false), resolve) ==
            ParseTokens(elements, [token] + tokens, resolve)
    decreases |tokens|
  {
    hide ParseElement, Size, Quiet, ParseFrom;
    assert ([token] + tokens)[1..] == tokens;
    if tokens == [] {
      assert Flat(tokens) == [];
      ReadEnd(Scan(elements, token, false), resolve);
    } else {
      var t := tokens[0];
      assert t in tokens && [t] + tokens[1..] == tokens;
      ReadNextToken(elements, token, t, Flat(tokens[1..]), resolve);
      var e := ParseElement(token, resolve);
      if |elements| != MAX_ELEMENTS && e.Some? && Size(t) <= MAX_TOKEN_LEN {
        ReadTokens(elements + [e.value], t, tokens[1..], resolve);
      }
    }
  }

  /** A path made of tokens is split at exactly their boundaries. */
  lemma PathOfTokens(tokens: seq<string>, resolve: Resolver)
    requires forall t <- tokens :: Token(t)
    ensures ParsePath(Flat(tokens), resolve) == ParseTokens([], tokens, resolve)
  {
    var start := Scan([], "", false);
    if tokens != [] {
      var t, rest := tokens[0], Flat(tokens[1..]);
      assert t in tokens && Flat(tokens)[0] == t[0] && Flat(tokens)[1..] == t[1..] + rest;
      SeparatorSize(t[0]);
      assert "" + [t[0]] == [t[0]] && [t[0]] + t[1..] == t && [t] + tokens[1..] == tokens;
      ReadQuiet(t[1..], rest, Scan([], [t[0]], false), resolve);
      if Size(t) <= MAX_TOKEN_LEN {
        ReadTokens([], t, tokens[1..], resolve);
      }
    }
  }

  // ---------------------------------------------------------------- the exact round trip

  /** Everything a path needs for its printed form to parse back to it with the default resolvers. */
  predicate PathRepresentable(path: Option<seq<Element>>) {
    && path.Some?
    && |path.value| <= 32
    && forall e <- path.value :: Representable(e) && |Utf8.Encode(PrintElement(e).value)| <= 256
  }

  predicate PathRoundTrips(path: Option<seq<Element>>) {
    var printed := if path.None? then Some("") else PrintAll(path.value);
    printed.Some? && ParsePath(printed.value, DefaultNodeResolver) == path
  }

  function Prints(elements: seq<Element>): seq<string>
    requires PrintAll(elements).Some?
  {
    if elements == [] then [] else [PrintElement(elements[0]).value] + Prints(elements[1..])
  }

  lemma {:induction false} PrintAllIsTokens(elements: seq<Element>)
    requires PrintAll(elements).Some?
    ensures Flat(Prints(elements)) == PrintAll(elements).value
    ensures forall t <- Prints(elements) :: Token(t)
  {
    if elements != [] {
      PrintAllIsTokens(elements[1..]);
      PrintedElementIsToken(elements[0], DefaultBrowseName(elements[0].referenceType).value);
      assert Prints(elements)[1..] == Prints(elements[1..]);
    }
  }

  /** Parsing the printed elements gives them back exactly when there is room and each one is representable. */
  lemma {:induction false} TokensRoundTripIff(before: seq<Element>, elements: seq<Element>)
    requires PrintAll(elements).Some? && |before| <= MAX_ELEMENTS
    ensures ParseTokens(before, Prints(elements), DefaultNodeResolver) == Some(before + elements) <==>
            && |before| + |elements| <= MAX_ELEMENTS
            && forall e <- elements :: Representable(e) && Size(PrintElement(e).value) <= MAX_TOKEN_LEN
    decreases |elements|
  {
    hide Representable, ParseElement, PrintElement, Size;
    if elements == [] {
      assert before + elements == before;
    } else {
      var e, tokens := elements[0], Prints(elements);
      ElementRoundTripIff(e);
      assert tokens[1..] == Prints(elements[1..]) && elements == [e] + elements[1..];
      var parsed := ParseElement(tokens[0], DefaultNodeResolver);
      if |before| < MAX_ELEMENTS && Size(tokens[0]) <= MAX_TOKEN_LEN && parsed.Some? {
        ParseTokensExtends(before + [parsed.value], tokens[1..], DefaultNodeResolver);
        TokensRoundTripIff(before + [e], elements[1..]);
        assert (before + [e]) + elements[1..] == before + elements;
        assert (before + [parsed.value])[|before|] == parsed.value && (before + elements)[|before|] == e;
      }
    }
  }

  lemma {:induction false} ParseTokensExtends(before: seq<Element>, tokens: seq<string>, resolve: Resolver)
    ensures var r := ParseTokens(before, tokens, resolve); r.Some? ==> before <= r.value
    decreases |tokens|
  {
    if tokens != [] && ParseElement(tokens[0], resolve).Some? {
      ParseTokensExtends(before + [ParseElement(tokens[0], resolve).value], tokens[1..], resolve);
    }
  }

  lemma {:induction false} PrintAllNeedsNames(elements: seq<Element>)
    requires forall e <- elements :: Representable(e)
    ensures PrintAll(elements).Some?
  {
    if elements != [] {
      assert Representable(elements[0]);
      PrintAllNeedsNames(elements[1..]);
    }
  }

  /** Printing then parsing is the identity on a path exactly when the path is representable. */
  lemma PathRoundTripIff(path: Option<seq<Element>>)
    ensures PathRoundTrips(path) <==> PathRepresentable(path)
  {
    if path.None? {
      assert ParsePath("", DefaultNodeResolver) == Some([]);
    } else {
      var elements := path.value;
      if PathRepresentable(path) { PrintAllNeedsNames(elements); }
      if PrintAll(elements).Some? {
        PrintAllIsTokens(elements);
        PathOfTokens(Prints(elements), DefaultNodeResolver);
        TokensRoundTripIff([], elements);
        assert [] + elements == elements;
      }
    }
  }

  // ---------------------------------------------------------------- any resolver

  /** Printed under `name`, the element can be read with a resolver that maps the name back. */
  predicate ReadsBack(e: Element, name: string, resolve: Resolver) {
    && TargetRepresentable(e.target)
    && |Utf8.Encode(PrintNamed(e, name))| <= 256
    && (Abbreviated(e)
        || (name != "" && '\n' !in name[1..] && '>' !in e.target.name.AsRef()
            && resolve(e.referenceType.ns, Escape(name)) == Some(e.referenceType)))
  }

  function PrintsNamed(elements: seq<Element>, names: seq<string>): (tokens: seq<string>)
    requires |names| == |elements|
    ensures |tokens| == |elements| && forall i :: 0 <= i < |tokens| ==> tokens[i] == PrintNamed(elements[i], names[i])
  {
    seq(|elements|, i requires 0 <= i < |elements| => PrintNamed(elements[i], names[i]))
  }

  lemma NamedElementReadsBack(e: Element, name: string, resolve: Resolver)
    requires ReadsBack(e, name, resolve)
    ensures Size(PrintNamed(e, name)) <= MAX_TOKEN_LEN && ParseElement(PrintNamed(e, name), resolve) == Some(e)
  {
    hide ParseElement, PrintNamed;
    if Abbreviated(e) { AbbreviatedRoundTripIff(e, name, resolve); } else { BracketedRoundTrip(e, name, resolve); }
  }

  lemma {:induction false} NamedTokensRoundTrip(
      before: seq<Element>, elements: seq<Element>, names: seq<string>, resolve: Resolver)
    requires |names| == |elements| && |before| + |elements| <= MAX_ELEMENTS
    requires forall i :: 0 <= i < |elements| ==> ReadsBack(elements[i], names[i], resolve)
    ensures ParseTokens(before, PrintsNamed(elements, names), resolve) == Some(before + elements)
    decreases |elements|
  {
    hide ReadsBack, ParseElement, PrintNamed, Size;
    if elements == [] {
      assert before + elements == before;
    } else {
      var e, name := elements[0], names[0];
      NamedElementReadsBack(e, name, resolve);
      assert PrintsNamed(elements, names)[1..] == PrintsNamed(elements[1..], names[1..]);
      NamedTokensRoundTrip(before + [e], elements[1..], names[1..], resolve);
      assert before + [e] + elements[1..] == before + elements;
    }
  }

  /** With any resolver that maps the printed names back, a path is read back. */
  lemma NamedPathRoundTrip(elements: seq<Element>, names: seq<string>, resolve: Resolver)
    requires |names| == |elements| <= 32
    requires forall i :: 0 <= i < |elements| ==> ReadsBack(elements[i], names[i], resolve)
    ensures ParsePath(Flat(PrintsNamed(elements, names)), resolve) == Some(elements)
  {
    var tokens := PrintsNamed(elements, names);
    forall t | t in tokens ensures Token(t) {
      var i :| 0 <= i < |tokens| && tokens[i] == t;
      PrintedElementIsToken(elements[i], names[i]);
    }
    PathOfTokens(tokens, resolve);
    NamedTokensRoundTrip([], elements, names, resolve);
    assert [] + elements == elements;
  }
}
