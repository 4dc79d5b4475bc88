/** The browse path of a simple attribute operand, whose escaped slashes pass through a placeholder
    (lib/src/types/operand.rs). */
module OperandPath {
  import opened Text

  const PLACEHOLDER: string := "###!!!###@@@$$$$"

  function Restore(parts: seq<string>): (r: seq<string>)
    ensures |r| == |parts|
    ensures forall i :: 0 <= i < |parts| ==> r[i] == Replace(parts[i], PLACEHOLDER, "/")
  {
    if parts == [] then [] else [Replace(parts[0], PLACEHOLDER, "/")] + Restore(parts[1..])
  }

  /** `SimpleAttributeOperand::new`: escaped slashes become the placeholder, then the text is split, then they return. */
  function BrowsePath(path: string): (names: seq<string>)
    ensures names != []
  {
    Restore(Split(Replace(path, "\\/", PLACEHOLDER), '/'))
  }

  function Glue(w: string, names: seq<string>): (r: seq<string>)
    requires names != []
    ensures r != []
  {
    [w + names[0]] + names[1..]
  }

  /** The intended reading, in one pass: an escaped slash is a character, a bare one separates. */
  function Names(path: string): (names: seq<string>)
    ensures names != []
  {
    if path == [] then [[]]
    else if "\\/" <= path then Glue("/", Names(path[2..]))
    else if path[0] == '/' then [[]] + Names(path[1..])
    else Glue([path[0]], Names(path[1..]))
  }

  /** The same reading, with the placeholder as another way of writing an escaped slash. */
  function ActualNames(path: string): (names: seq<string>)
    ensures names != []
  {
    if path == [] then [[]]
    else if "\\/" <= path then Glue("/", ActualNames(path[2..]))
    else if PLACEHOLDER <= path then Glue("/", ActualNames(path[|PLACEHOLDER|..]))
    else if path[0] == '/' then [[]] + ActualNames(path[1..])
    else Glue([path[0]], ActualNames(path[1..]))
  }

  predicate Contains(path: string) { path != [] && (PLACEHOLDER <= path || Contains(path[1..])) }

  // ---------------------------------------------------------------- the placeholder does not overlap itself

  lemma NoBorder(j: nat)
    requires 1 <= j < |PLACEHOLDER|
    ensures exists i :: 0 <= i < |PLACEHOLDER| - j && PLACEHOLDER[j + i] != PLACEHOLDER[i]
  {
    var i := if j == 1 then 2 else if j == 2 then 1 else if j == 6 then 3 else if j == 7 then 2 else if j == 8 then 1 else 0;
    assert PLACEHOLDER[j + i] != PLACEHOLDER[i];
  }

  lemma InsertedDiffers(j: nat, r: string)
    requires 1 <= j < |PLACEHOLDER| && PLACEHOLDER <= r
    ensures !(PLACEHOLDER[j..] <= r)
  {
    NoBorder(j);
    var i :| 0 <= i < |PLACEHOLDER| - j && PLACEHOLDER[j + i] != PLACEHOLDER[i];
    assert r[i] == PLACEHOLDER[i] && PLACEHOLDER[j..][i] == PLACEHOLDER[j + i];
  }

  /** An unfinished placeholder is not completed by an inserted one. */
  lemma {:induction false} TailIsOriginal(j: nat, path: string)
    requires 1 <= j <= |PLACEHOLDER|
    requires PLACEHOLDER[j..] <= Replace(path, "\\/", PLACEHOLDER)
    ensures PLACEHOLDER[j..] <= path
    decreases |PLACEHOLDER| - j
  {
    var r := Replace(path, "\\/", PLACEHOLDER);
    if j < |PLACEHOLDER| {
      if "\\/" <= path {
        InsertedDiffers(j, r);
      } else {
        var q := PLACEHOLDER[j..];
        assert q[0] == r[0] == path[0] && r[1..] == Replace(path[1..], "\\/", PLACEHOLDER);
        assert q[1..] == PLACEHOLDER[j + 1..] && q[1..] <= r[1..];
        TailIsOriginal(j + 1, path[1..]);
        assert q == [path[0]] + q[1..] && path == [path[0]] + path[1..];
      }
    }
  }

  // ---------------------------------------------------------------- what the code does

  lemma RestoreGlue(w: string, v: string, names: seq<string>)
    requires names != []
    requires Replace(w + names[0], PLACEHOLDER, "/") == v + Replace(names[0], PLACEHOLDER, "/")
    ensures Restore(Glue(w, names)) == Glue(v, Restore(names))
  {
  }

  lemma {:induction false} PlainReplace(w: string, path: string)
    requires '\\' !in w
    ensures Replace(w + path, "\\/", PLACEHOLDER) == w + Replace(path, "\\/", PLACEHOLDER)
  {
    hide Replace;
    var r := Replace(path, "\\/", PLACEHOLDER);
    if w == [] {
      assert w + path == path && w + r == r;
    } else {
      assert w + path == [w[0]] + (w[1..] + path);
      ReplaceMiss(w[0], w[1..] + path, "\\/", PLACEHOLDER);
      PlainReplace(w[1..], path);
      assert [w[0]] + (w[1..] + r) == w + r;
    }
  }

  lemma PlaceholderIsPlain()
    ensures '\\' !in PLACEHOLDER && '/' !in PLACEHOLDER
  {
  }

  /** An inserted placeholder comes back as a slash. */
  lemma InsertedComesBack(r: string)
    ensures Restore(Split(PLACEHOLDER + r, '/')) == Glue("/", Restore(Split(r, '/')))
  {
    PlaceholderIsPlain();
    SplitPlain(PLACEHOLDER, r, '/');
    ReplaceHit(PLACEHOLDER, Split(r, '/')[0], "/");
    RestoreGlue(PLACEHOLDER, "/", Split(r, '/'));
  }

  lemma OrdinaryStays(c: char, path: string)
    requires c != '/' && !(PLACEHOLDER <= [c] + path)
    ensures
      var r := Replace(path, "\\/", PLACEHOLDER);
      Restore(Split([c] + r, '/')) == Glue([c], Restore(Split(r, '/')))
  {
    var r := Replace(path, "\\/", PLACEHOLDER);
    var names := Split(r, '/');
    SplitPlain([c], r, '/');
    var s := [c] + names[0];
    assert s[1..] == names[0];
    assert PLACEHOLDER == [PLACEHOLDER[0]] + PLACEHOLDER[1..];
    assert c == PLACEHOLDER[0] && PLACEHOLDER[1..] <= path ==> PLACEHOLDER <= [c] + path;
    if PLACEHOLDER <= s {
      assert s[0] == PLACEHOLDER[0] && PLACEHOLDER[1..] <= s[1..] <= r;
      TailIsOriginal(1, path);
    }
    RestoreGlue([c], [c], names);
  }

  /** The code reads every path in one pass, taking the placeholder for an escaped slash. */
  lemma {:induction false} BrowsePathIsOnePass(path: string)
    ensures BrowsePath(path) == ActualNames(path)
    decreases |path|
  {
    hide Replace, Split;
    if path == [] {
      EmptyPath();
    } else if "\\/" <= path {
      BrowsePathIsOnePass(path[2..]);
      assert path == "\\/" + path[2..];
      ReplaceHit("\\/", path[2..], PLACEHOLDER);
      InsertedComesBack(Replace(path[2..], "\\/", PLACEHOLDER));
    } else if PLACEHOLDER <= path {
      var rest := path[|PLACEHOLDER|..];
      BrowsePathIsOnePass(rest);
      assert path == PLACEHOLDER + rest;
      PlaceholderIsPlain();
      PlainReplace(PLACEHOLDER, rest);
      InsertedComesBack(Replace(rest, "\\/", PLACEHOLDER));
    } else {
      var c, rest := path[0], path[1..];
      BrowsePathIsOnePass(rest);
      assert path == [c] + rest;
      NotEscaped(c, rest);
      if c == '/' {
        SlashSeparates(Replace(rest, "\\/", PLACEHOLDER));
      } else {
        OrdinaryStays(c, rest);
      }
    }
  }

  lemma EmptyPath()
    ensures BrowsePath([]) == [[]]
  {
  }

  lemma NotEscaped(c: char, rest: string)
    requires !("\\/" <= [c] + rest)
    ensures Replace([c] + rest, "\\/", PLACEHOLDER) == [c] + Replace(rest, "\\/", PLACEHOLDER)
  {
    assert ([c] + rest)[1..] == rest;
  }

  lemma SlashSeparates(r: string)
    ensures Restore(Split(['/'] + r, '/')) == [[]] + Restore(Split(r, '/'))
  {
    assert (['/'] + r)[1..] == r;
  }

  // ---------------------------------------------------------------- when that is what was meant

  function Total(names: seq<string>): nat { if names == [] then 0 else |names[0]| + Total(names[1..]) }

  lemma NamesCons(c: char, path: string)
    requires c != '\\' && c != '/'
    ensures Names([c] + path) == Glue([c], Names(path))
  {
    var s := [c] + path;
    assert s[0] == c && s[1..] == path && !("\\/" <= s);
  }

  lemma {:induction false} NamesPlain(w: string, path: string)
    requires '\\' !in w && '/' !in w
    ensures Names(w + path) == Glue(w, Names(path))
  {
    hide Names;
    var names := Names(path);
    if w == [] {
      assert w + path == path && w + names[0] == names[0];
    } else {
      assert w + path == [w[0]] + (w[1..] + path);
      NamesPlain(w[1..], path);
      NamesCons(w[0], w[1..] + path);
      assert [w[0]] + (w[1..] + names[0]) == w + names[0];
    }
  }

  lemma ContainsSkips(path: string)
    requires path != [] && (path[0] == '\\' || path[0] == '/')
    ensures Contains(path) == Contains(path[1..])
  {
    assert PLACEHOLDER[0] == '#';
  }

  /** Without the placeholder the readings agree; with it, characters are lost. */
  lemma {:induction false} CompareReadings(path: string)
    ensures !Contains(path) ==> ActualNames(path) == Names(path)
    ensures Total(ActualNames(path)) <= Total(Names(path))
    ensures Contains(path) ==> Total(ActualNames(path)) < Total(Names(path))
    decreases |path|
  {
    if path != [] {
      if "\\/" <= path {
        ContainsSkips(path);
        ContainsSkips(path[1..]);
        assert path[1..][1..] == path[2..];
        CompareReadings(path[2..]);
      } else if PLACEHOLDER <= path {
        var rest := path[|PLACEHOLDER|..];
        CompareReadings(rest);
        assert path == PLACEHOLDER + rest;
        PlaceholderIsPlain();
        NamesPlain(PLACEHOLDER, rest);
      } else {
        if path[0] == '/' { ContainsSkips(path); }
        CompareReadings(path[1..]);
      }
    }
  }

  /** The operand's path is read as intended exactly when it does not contain the placeholder. */
  lemma BrowsePathIffNoPlaceholder(path: string)
    ensures BrowsePath(path) == Names(path) <==> !Contains(path)
  {
    BrowsePathIsOnePass(path);
    CompareReadings(path);
  }

  /** Slashes separate, and an escaped slash belongs to the name. */
  lemma PathText(w: string, rest: string)
    requires '\\' !in w && '/' !in w && '#' !in w && !Contains(rest)
    ensures BrowsePath(w) == [w]
    ensures BrowsePath(w + ("/" + rest)) == [w] + BrowsePath(rest)
    ensures BrowsePath(w + ("\\/" + rest)) == [w + ("/" + BrowsePath(rest)[0])] + BrowsePath(rest)[1..]
  {
    SlashText(rest);
    hide BrowsePath, Names, Contains;
    assert w + [] == w;
    PlainText(w, []);
    PlainText(w, "/" + rest);
    PlainText(w, "\\/" + rest);
    BrowsePathIffNoPlaceholder(rest);
  }

  lemma PlainText(w: string, path: string)
    requires '\\' !in w && '/' !in w && '#' !in w && !Contains(path)
    ensures BrowsePath(w + path) == Glue(w, Names(path))
  {
    hide BrowsePath, Names, Contains;
    PlainContains(w, path);
    NamesPlain(w, path);
    BrowsePathIffNoPlaceholder(w + path);
  }

  lemma SlashText(rest: string)
    requires !Contains(rest)
    ensures !Contains([]) && !Contains("/" + rest) && !Contains("\\/" + rest)
    ensures Names([]) == [[]]
    ensures Names("/" + rest) == [[]] + Names(rest) && Names("\\/" + rest) == Glue("/", Names(rest))
  {
    var bare, escaped := "/" + rest, "\\/" + rest;
    assert bare[1..] == rest && bare[0] == '/' && escaped[0] == '\\' && escaped[1..] == bare && escaped[2..] == rest;
    ContainsSkips(bare);
    ContainsSkips(escaped);
  }

  lemma {:induction false} PlainContains(w: string, path: string)
    requires '#' !in w
    ensures Contains(w + path) == Contains(path)
  {
    if w == [] {
      assert w + path == path;
    } else {
      assert (w + path)[1..] == w[1..] + path && (w + path)[0] == w[0] && PLACEHOLDER[0] == '#';
      PlainContains(w[1..], path);
    }
  }

  /** A path of one name, the placeholder, is not. */
  lemma PlaceholderExample()
    ensures BrowsePath(PLACEHOLDER) != Names(PLACEHOLDER)
  {
    BrowsePathIffNoPlaceholder(PLACEHOLDER);
  }
}
