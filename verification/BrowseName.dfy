/** Escaping of browse names (lib/src/types/relative_path.rs): a chain of whole-string replacements. */
module BrowseName {
  import opened Text

  const RESERVED: string := "&/.<>:#!"

  predicate Reserved(c: char) { c in RESERVED }

  /** The replacements of `escape_browse_name` for the first `k` reserved characters, in order. */
  function EscapeChain(name: string, k: nat): string
    requires k <= |RESERVED|
  {
    if k == 0 then name
    else Replace(EscapeChain(name, k - 1), [RESERVED[k - 1]], ['&', RESERVED[k - 1]])
  }

  /** The replacements of `unescape_browse_name` for the first `k` reserved characters, in order. */
  function UnescapeChain(name: string, k: nat): string
    requires k <= |RESERVED|
  {
    if k == 0 then name
    else Replace(UnescapeChain(name, k - 1), ['&', RESERVED[k - 1]], [RESERVED[k - 1]])
  }

  /** One left-to-right pass that puts `&` before every character of `special`. */
  function Mark(s: string, special: set<char>): string {
    if s == [] then []
    else (if s[0] in special then ['&', s[0]] else [s[0]]) + Mark(s[1..], special)
  }

  function ReservedSet(): set<char> { set c | c in RESERVED }

  /** The specification of escaping: `&` before each reserved character, nothing else changed. */
  function Escape(s: string): string { Mark(s, ReservedSet()) }

  function Unescape(s: string): string { UnescapeChain(s, |RESERVED|) }

  /** The reserved characters handled after the first `k` steps. */
  function Handled(k: nat): set<char>
    requires k <= |RESERVED|
  {
    set c | c in RESERVED[..k]
  }

  method EscapeBrowseName(name: string) returns (result: string)
    ensures result == Escape(name)
  {
    result := name;
    for i := 0 to |RESERVED|
      invariant result == EscapeChain(name, i)
    {
      result := Replace(result, [RESERVED[i]], ['&', RESERVED[i]]);
    }
    EscapeChainIsMark(name, |RESERVED|);
    assert Handled(|RESERVED|) == ReservedSet();
  }

  method UnescapeBrowseName(name: string) returns (result: string)
    ensures result == Unescape(name)
    ensures forall s :: name == Escape(s) ==> result == s
  {
    result := name;
    for i := 0 to |RESERVED|
      invariant result == UnescapeChain(name, i)
    {
      result := Replace(result, ['&', RESERVED[i]], [RESERVED[i]]);
    }
    forall s | name == Escape(s)
      ensures result == s
    {
      UnescapeInvertsEscape(s);
    }
  }

  /** Replacing one more character extends the marked set, as long as `&` itself is handled first. */
  lemma {:induction false} ReplaceExtendsMark(s: string, special: set<char>, c: char)
    requires c !in special && (c == '&' ==> special == {})
    ensures Replace(Mark(s, special), [c], ['&', c]) == Mark(s, special + {c})
  {
    if s != [] {
      var x, tail := s[0], Mark(s[1..], special);
      ReplaceExtendsMark(s[1..], special, c);
      if x in special {
        ReplaceMissPair('&', x, tail, [c], ['&', c]);
      } else if x == c {
        ReplaceHit([c], tail, ['&', c]);
      } else {
        ReplaceMiss(x, tail, [c], ['&', c]);
      }
    }
  }

  /** Undoing one marked character shrinks the marked set, as long as `&` itself is undone first. */
  lemma {:induction false} ReplaceShrinksMark(s: string, special: set<char>, c: char)
    requires c in special && (c != '&' ==> '&' !in special)
    ensures Replace(Mark(s, special), ['&', c], [c]) == Mark(s, special - {c})
  {
    if s != [] {
      var x, tail := s[0], Mark(s[1..], special);
      ReplaceShrinksMark(s[1..], special, c);
      if x == c {
        ReplaceHit(['&', c], tail, [c]);
      } else if x in special {
        ReplaceMissPair('&', x, tail, ['&', c], [c]);
      } else {
        MarkHead(s[1..], special);
        ReplaceMiss(x, tail, ['&', c], [c]);
      }
    }
  }

  /** A marked text never starts with a marked character other than `&`. */
  lemma MarkHead(s: string, special: set<char>)
    ensures var m := Mark(s, special); m != [] ==> m[0] == '&' || m[0] !in special
  {
  }

  lemma {:induction false} MarkNothing(s: string)
    ensures Mark(s, {}) == s
  {
    if s != [] {
      MarkNothing(s[1..]);
    }
  }

  lemma ReservedDistinct(i: nat, j: nat)
    requires i < j < |RESERVED|
    ensures RESERVED[i] != RESERVED[j]
  {
  }

  lemma {:induction false} EscapeChainIsMark(name: string, k: nat)
    requires k <= |RESERVED|
    ensures EscapeChain(name, k) == Mark(name, Handled(k))
  {
    if k == 0 {
      assert Handled(0) == {};
      MarkNothing(name);
    } else {
      var c := RESERVED[k - 1];
      EscapeChainIsMark(name, k - 1);
      assert c !in Handled(k - 1) by {
        forall i | 0 <= i < k - 1 ensures RESERVED[i] != c { ReservedDistinct(i, k - 1); }
      }
      assert Handled(k) == Handled(k - 1) + {c};
      assert k == 1 ==> Handled(0) == {};
      ReplaceExtendsMark(name, Handled(k - 1), c);
    }
  }

  /** The eight replacements of `escape_browse_name` are one pass. */
  lemma EscapeChainIsEscape(name: string)
    ensures EscapeChain(name, |RESERVED|) == Escape(name)
  {
    EscapeChainIsMark(name, |RESERVED|);
    assert Handled(|RESERVED|) == ReservedSet();
  }

  lemma {:induction false} UnescapeChainOfEscape(s: string, k: nat)
    requires k <= |RESERVED|
    ensures UnescapeChain(Escape(s), k) == Mark(s, ReservedSet() - Handled(k))
  {
    if k == 0 {
      assert ReservedSet() - Handled(0) == ReservedSet();
    } else {
      var c := RESERVED[k - 1];
      UnescapeChainOfEscape(s, k - 1);
      assert c !in Handled(k - 1) by {
        forall i | 0 <= i < k - 1 ensures RESERVED[i] != c { ReservedDistinct(i, k - 1); }
      }
      assert c in ReservedSet() - Handled(k - 1);
      assert k > 1 ==> RESERVED[0] in Handled(k - 1);
      ReplaceShrinksMark(s, ReservedSet() - Handled(k - 1), c);
      assert ReservedSet() - Handled(k) == ReservedSet() - Handled(k - 1) - {c};
    }
  }

  /** Unescaping undoes escaping on every string. */
  lemma UnescapeInvertsEscape(s: string)
    ensures Unescape(Escape(s)) == s
  {
    UnescapeChainOfEscape(s, |RESERVED|);
    assert ReservedSet() - Handled(|RESERVED|) == {};
    MarkNothing(s);
  }

  // On text that `Escape` did not produce, the replacements can act twice on one `&`.

  predicate AtEscape(t: string) { |t| >= 2 && t[0] == '&' && Reserved(t[1]) }

  /** One left-to-right pass that drops the `&` of every escape. */
  function UnescapeOnce(t: string): string {
    if t == [] then []
    else if AtEscape(t) then [t[1]] + UnescapeOnce(t[2..])
    else [t[0]] + UnescapeOnce(t[1..])
  }

  /** `t` starts with a reserved character that nothing escapes. */
  predicate Bare(t: string) { t != [] && t[0] != '&' && Reserved(t[0]) }

  /** Some `&&` is followed at once by a bare reserved character. */
  predicate Clash(t: string) {
    if t == [] then false
    else if AtEscape(t) then (t[1] == '&' && Bare(t[2..])) || Clash(t[2..])
    else Clash(t[1..])
  }

  /** The text once `&` and the characters of `done` have been replaced. */
  function Half(t: string, done: set<char>): string {
    if t == [] then []
    else if AtEscape(t) then
      if t[1] != '&' then (if t[1] in done then [t[1]] else ['&', t[1]]) + Half(t[2..], done)
      else if Bare(t[2..]) && t[2] in done then Half(t[2..], done)
      else ['&'] + Half(t[2..], done)
    else [t[0]] + Half(t[1..], done)
  }

  lemma {:induction false} FirstReplacement(t: string)
    ensures Replace(t, "&&", "&") == Half(t, {'&'})
  {
    if t != [] {
      if AtEscape(t) {
        FirstReplacement(t[2..]);
        if t[1] != '&' {
          assert t[1..] == [t[1]] + t[2..];
        }
      } else {
        FirstReplacement(t[1..]);
      }
    }
  }

  /** What a partly replaced text starts with. */
  lemma HalfHead(t: string, done: set<char>)
    requires t != []
    ensures Half(t, done) != []
    ensures Half(t, done)[0] == '&' || Half(t, done)[0] in done || (!AtEscape(t) && Half(t, done)[0] == t[0])
    decreases |t|
  {
    if AtEscape(t) && t[1] == '&' && Bare(t[2..]) && t[2] in done {
      HalfHead(t[2..], done);
    }
  }

  lemma {:induction false} NextReplacement(t: string, done: set<char>, c: char)
    requires '&' in done && c !in done && Reserved(c)
    ensures Replace(Half(t, done), ['&', c], [c]) == Half(t, done + {c})
    decreases |t|, 1
  {
    if t == [] {
    } else if !AtEscape(t) {
      hide Replace;
      NextReplacement(t[1..], done, c);
      if t[1..] != [] { HalfHead(t[1..], done); }
      ReplaceMiss(t[0], Half(t[1..], done), ['&', c], [c]);
    } else if t[1] != '&' {
      hide Replace;
      var rest := Half(t[2..], done);
      NextReplacement(t[2..], done, c);
      if t[1] in done {
        ReplaceMiss(t[1], rest, ['&', c], [c]);
      } else if t[1] == c {
        ReplaceHit(['&', c], rest, [c]);
      } else {
        ReplaceMissPair('&', t[1], rest, ['&', c], [c]);
      }
    } else {
      NextDouble(t, done, c);
    }
  }

  /** The case of `&&`. */
  lemma {:induction false} NextDouble(t: string, done: set<char>, c: char)
    requires '&' in done && c !in done && Reserved(c) && AtEscape(t) && t[1] == '&'
    ensures Replace(Half(t, done), ['&', c], [c]) == Half(t, done + {c})
    decreases |t|, 0
  {
    hide Replace;
    NextReplacement(t[2..], done, c);
    if Bare(t[2..]) && t[2] == c {
      NextReplacement(t[3..], done, c);
      assert t[2..][1..] == t[3..];
      assert Half(t, done) == ['&', c] + Half(t[3..], done);
      ReplaceHit(['&', c], Half(t[3..], done), [c]);
    } else if !(Bare(t[2..]) && t[2] in done) {
      if t[2..] != [] { HalfHead(t[2..], done); }
      ReplaceMiss('&', Half(t[2..], done), ['&', c], [c]);
    }
  }

  lemma {:induction false} UnescapeChainIsHalf(t: string, k: nat)
    requires 1 <= k <= |RESERVED|
    ensures UnescapeChain(t, k) == Half(t, Handled(k))
  {
    if k == 1 {
      assert UnescapeChain(t, 0) == t;
      assert Handled(1) == {'&'};
      FirstReplacement(t);
    } else {
      var c := RESERVED[k - 1];
      UnescapeChainIsHalf(t, k - 1);
      assert c !in Handled(k - 1) by {
        forall i | 0 <= i < k - 1 ensures RESERVED[i] != c { ReservedDistinct(i, k - 1); }
      }
      assert RESERVED[0] in Handled(k - 1);
      assert Handled(k) == Handled(k - 1) + {c};
      NextReplacement(t, Handled(k - 1), c);
    }
  }

  lemma {:induction false} HalfVersusOnce(t: string, done: set<char>)
    requires forall c :: Reserved(c) ==> c in done
    ensures !Clash(t) ==> Half(t, done) == UnescapeOnce(t)
    ensures |Half(t, done)| <= |UnescapeOnce(t)|
    ensures Clash(t) ==> |Half(t, done)| < |UnescapeOnce(t)|
    decreases |t|
  {
    if t != [] {
      if AtEscape(t) { HalfVersusOnce(t[2..], done); } else { HalfVersusOnce(t[1..], done); }
    }
  }

  /** The replacement chain is the one-pass reading of `t` exactly when no `&&` is followed by a bare reserved character. */
  lemma UnescapeIsOnePassIff(t: string)
    ensures Unescape(t) == UnescapeOnce(t) <==> !Clash(t)
  {
    UnescapeChainIsHalf(t, |RESERVED|);
    HalfVersusOnce(t, Handled(|RESERVED|));
  }

  /** `&&/` reads as `&/` in one pass; the chain makes it `/`. */
  lemma UnescapeClashExample()
    ensures Clash("&&/") && Unescape("&&/") != UnescapeOnce("&&/")
  {
    assert "&&/"[2..] == "/";
    UnescapeIsOnePassIff("&&/");
  }
}
