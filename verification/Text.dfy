/** `str::replace`, lines, and the decimal numbers that the text syntaxes print and parse. */
module Text {
  import opened Prelude

  /** `str::replace`: non-overlapping occurrences of `pattern`, found left to right. */
  function Replace(s: string, pattern: string, with: string): string
    requires pattern != []
    decreases |s|
  {
    if s == [] then []
    else if pattern <= s then with + Replace(s[|pattern|..], pattern, with)
    else [s[0]] + Replace(s[1..], pattern, with)
  }

  lemma ReplaceHit(pattern: string, rest: string, with: string)
    requires pattern != []
    ensures Replace(pattern + rest, pattern, with) == with + Replace(rest, pattern, with)
  {
    assert (pattern + rest)[|pattern|..] == rest;
  }

  lemma ReplaceMiss(c: char, rest: string, pattern: string, with: string)
    requires pattern != []
    requires c != pattern[0] || (|pattern| >= 2 && (rest == [] || rest[0] != pattern[1]))
    ensures Replace([c] + rest, pattern, with) == [c] + Replace(rest, pattern, with)
  {
    var s := [c] + rest;
    assert s[1..] == rest && s[0] == c && (rest != [] ==> s[1] == rest[0]);
    assert !(pattern <= s);
  }

  lemma ReplaceSkip(c: char, rest: string, pattern: string, with: string)
    requires pattern != [] && !(pattern <= [c] + rest)
    ensures Replace([c] + rest, pattern, with) == [c] + Replace(rest, pattern, with)
  {
    assert ([c] + rest)[1..] == rest;
  }

  lemma ReplaceMissPair(c: char, d: char, rest: string, pattern: string, with: string)
    requires pattern != [] && d != pattern[0]
    requires c != pattern[0] || (|pattern| >= 2 && d != pattern[1])
    ensures Replace([c, d] + rest, pattern, with) == [c, d] + Replace(rest, pattern, with)
  {
    hide Replace;
    assert [c, d] + rest == [c] + ([d] + rest);
    ReplaceMiss(c, [d] + rest, pattern, with);
    ReplaceMiss(d, rest, pattern, with);
  }

  /** What the greedy regular expression `.*` matches at the start of `s`: everything up to a newline. */
  function Line(s: string): (l: string)
    ensures l <= s && '\n' !in l
    ensures |l| < |s| ==> s[|l|] == '\n'
  {
    if s == [] || s[0] == '\n' then [] else [s[0]] + Line(s[1..])
  }

  lemma {:induction false} LineConcat(s: string, t: string)
    requires '\n' !in s
    ensures Line(s + t) == s + Line(t)
  {
    if s == [] {
      assert s + t == t;
    } else {
      assert (s + t)[1..] == s[1..] + t;
      LineConcat(s[1..], t);
    }
  }

  /** The index of the last `c` in `s`. */
  function LastIndex(s: string, c: char): (r: Option<nat>)
    ensures r.None? ==> c !in s
    ensures r.Some? ==> r.value < |s| && s[r.value] == c && c !in s[r.value + 1..]
  {
    if s == [] then None
    else if s[|s| - 1] == c then Some(|s| - 1)
    else
      var r := LastIndex(s[..|s| - 1], c);
      assert s == s[..|s| - 1] + [s[|s| - 1]];
      assert r.Some? ==> s[r.value + 1..] == s[..|s| - 1][r.value + 1..] + [s[|s| - 1]];
      r
  }

  predicate IsDigit(c: char) { '0' <= c <= '9' }

  predicate AllDigits(s: string) { forall c <- s :: IsDigit(c) }

  /** How many digits `s` starts with. */
  function DigitRun(s: string): (k: nat)
    ensures k <= |s| && AllDigits(s[..k]) && (k < |s| ==> !IsDigit(s[k]))
  {
    if s == [] || !IsDigit(s[0]) then 0 else 1 + DigitRun(s[1..])
  }

  lemma {:induction false} DigitRunConcat(digits: string, rest: string)
    requires AllDigits(digits) && (rest == [] || !IsDigit(rest[0]))
    ensures DigitRun(digits + rest) == |digits|
  {
    if digits == [] {
      assert digits + rest == rest;
    } else {
      assert IsDigit(digits[0]);
      assert (digits + rest)[1..] == digits[1..] + rest;
      DigitRunConcat(digits[1..], rest);
    }
  }

  /** `format!("{}", n)` for an unsigned number. */
  function Decimal(n: nat): (s: string)
    ensures s != [] && AllDigits(s)
  {
    if n < 10 then [(n + 48) as char]
    else Decimal(n / 10) + [(n % 10 + 48) as char]
  }

  function Value(s: string): nat
    requires AllDigits(s)
  {
    if s == [] then 0
    else
      assert IsDigit(s[|s| - 1]);
      Value(s[..|s| - 1]) * 10 + (s[|s| - 1] as int - 48)
  }

  lemma {:induction false} ValueInvertsDecimal(n: nat)
    ensures Value(Decimal(n)) == n
  {
    if n >= 10 {
      ValueInvertsDecimal(n / 10);
      assert Decimal(n)[..|Decimal(n)| - 1] == Decimal(n / 10);
    } else {
      assert Decimal(n)[..0] == [];
    }
  }

  /** Numbers of at most ten digits print in at most ten characters; below ten, in one. */
  lemma DecimalLength(n: nat)
    requires n < 10_000_000_000
    ensures |Decimal(n)| <= 10
    ensures |Decimal(n)| == 1 <==> n < 10
  {
    if n >= 10 {
      assert n / 10 < 1_000_000_000;
      DecimalDigits(n / 10, 1_000_000_000, 9);
    }
  }

  lemma {:induction false} DecimalDigits(n: nat, bound: nat, digits: nat)
    requires n < bound && digits >= 1 && bound == Pow10(digits)
    ensures |Decimal(n)| <= digits
  {
    if n >= 10 {
      DecimalDigits(n / 10, Pow10(digits - 1), digits - 1);
    }
  }

  function Pow10(k: nat): nat { if k == 0 then 1 else 10 * Pow10(k - 1) }

  /** `s.parse::<uN>()` where `max` is the largest value of the type. */
  function ParseUnsigned(s: string, max: nat): (r: Option<nat>)
    ensures r.Some? ==> r.value <= max
  {
    var digits := if s != [] && s[0] == '+' then s[1..] else s;
    if digits != [] && AllDigits(digits) && Value(digits) <= max then Some(Value(digits)) else None
  }

  lemma ParseInvertsDecimal(n: nat, max: nat)
    ensures ParseUnsigned(Decimal(n), max) == if n <= max then Some(n) else None
  {
    ValueInvertsDecimal(n);
    assert IsDigit(Decimal(n)[0]);
  }

  /** `str::split` on one character: never empty. */
  function Split(s: string, c: char): (parts: seq<string>)
    ensures parts != [] && parts[0] <= s
    ensures forall p <- parts :: c !in p
  {
    if s == [] then [[]]
    else
      var rest := Split(s[1..], c);
      if s[0] == c then [[]] + rest else [[s[0]] + rest[0]] + rest[1..]
  }

  function Join(parts: seq<string>, c: char): string {
    if parts == [] then [] else if |parts| == 1 then parts[0] else parts[0] + [c] + Join(parts[1..], c)
  }

  lemma SplitCons(first: char, rest: string, c: char)
    requires first != c
    ensures Split([first] + rest, c) == [[first] + Split(rest, c)[0]] + Split(rest, c)[1..]
  {
    assert ([first] + rest)[1..] == rest;
  }

  lemma {:induction false} SplitPlain(p: string, rest: string, c: char)
    requires c !in p
    ensures Split(p + rest, c) == [p + Split(rest, c)[0]] + Split(rest, c)[1..]
  {
    hide Split;
    var parts := Split(rest, c);
    if p == [] {
      assert p + rest == rest && p + parts[0] == parts[0];
    } else {
      assert p + rest == [p[0]] + (p[1..] + rest);
      SplitPlain(p[1..], rest, c);
      SplitCons(p[0], p[1..] + rest, c);
      assert [p[0]] + (p[1..] + parts[0]) == p + parts[0];
    }
  }

  lemma {:induction false} SplitInvertsJoin(parts: seq<string>, c: char)
    requires parts != [] && forall p <- parts :: c !in p
    ensures Split(Join(parts, c), c) == parts
  {
    if |parts| == 1 {
      assert parts[0] + [] == parts[0];
      SplitPlain(parts[0], [], c);
    } else {
      var rest := Join(parts[1..], c);
      SplitInvertsJoin(parts[1..], c);
      assert parts[0] + [c] + rest == parts[0] + ([c] + rest);
      assert ([c] + rest)[1..] == rest;
      SplitPlain(parts[0], [c] + rest, c);
      assert parts[0] + [] == parts[0];
    }
  }
}
