/** Index ranges: exactly which of them survive printing and parsing (lib/src/types/numeric_range.rs). */
module NumericRanges {
  import opened Prelude
  import opened Text

  datatype NumericRange =
    | NoRange
    | Index(index: u32)
    | Range(min: u32, max: u32)
    | MultipleRanges(ranges: seq<NumericRange>)

  const MAX_INDICES: nat := 10
  const MAX_U32: nat := 0xFFFF_FFFF

  // ---------------------------------------------------------------- printing

  /** `as_string` */
  function Print(r: NumericRange): string {
    match r
    case NoRange => []
    case Index(i) => Decimal(i)
    case Range(min, max) => Decimal(min) + ":" + Decimal(max)
    case MultipleRanges(ranges) => Join(PrintAll(ranges), ',')
  }

  function PrintAll(ranges: seq<NumericRange>): (parts: seq<string>)
    ensures |parts| == |ranges|
    ensures forall i :: 0 <= i < |ranges| ==> parts[i] == Print(ranges[i])
  {
    if ranges == [] then [] else [Print(ranges[0])] + PrintAll(ranges[1..])
  }

  // ---------------------------------------------------------------- parsing

  /** One to ten digits. */
  predicate Digits(s: string) { 1 <= |s| <= 10 && AllDigits(s) }

  /** `parse_range`: a number, or two numbers in increasing order; a range is read as 64 bits and cut to 32. */
  function ParseRange(s: string): Option<NumericRange> {
    var parts := Split(s, ':');
    if |parts| == 1 && Digits(parts[0]) then
      if Value(parts[0]) <= MAX_U32 then Some(Index(Value(parts[0]))) else None
    else if |parts| == 2 && Digits(parts[0]) && Digits(parts[1]) then
      var min, max := Value(parts[0]), Value(parts[1]);
      if min >= max || max > MAX_U32 then None else Some(Range(min, max))
    else None
  }

  function ParseAll(parts: seq<string>): (r: Option<seq<NumericRange>>)
    ensures r.Some? ==> |r.value| == |parts|
    ensures r.Some? ==> forall i :: 0 <= i < |parts| ==> ParseRange(parts[i]) == Some(r.value[i])
    ensures r.None? ==> exists i :: 0 <= i < |parts| && ParseRange(parts[i]) == None
  {
    if parts == [] then Some([])
    else
      var head, tail := ParseRange(parts[0]), ParseAll(parts[1..]);
      if head.None? || tail.None? then
        assert tail.None? ==> exists i :: 0 <= i < |parts| && ParseRange(parts[i]) == None by {
          if tail.None? {
            var i :| 0 <= i < |parts[1..]| && ParseRange(parts[1..][i]) == None;
            assert ParseRange(parts[i + 1]) == None;
          }
        }
        None
      else Some([head.value] + tail.value)
  }

  function Parse(s: string): Option<NumericRange> {
    if s == [] then Some(NoRange)
    else
      var parts := Split(s, ',');
      if |parts| == 1 then ParseRange(parts[0])
      else if |parts| <= MAX_INDICES then
        var ranges := ParseAll(parts);
        if ranges.Some? then Some(MultipleRanges(ranges.value)) else None
      else None
  }

  /** `from_str` */
  method FromStr(s: string) returns (r: Option<NumericRange>)
    ensures r == Parse(s)
  {
    if s == [] { return Some(NoRange); }
    var parts := Split(s, ',');
    if |parts| == 1 {
      r := ParseRange(parts[0]);
    } else if 2 <= |parts| <= MAX_INDICES {
      var ranges: seq<NumericRange> := [];
      for i := 0 to |parts|
        invariant |ranges| == i
        invariant forall j :: 0 <= j < i ==> ParseRange(parts[j]) == Some(ranges[j])
      {
        var range := ParseRange(parts[i]);
        if range.None? { return None; }
        ranges := ranges + [range.value];
      }
      assert ParseAll(parts).Some? && ParseAll(parts).value == ranges;
      r := Some(MultipleRanges(ranges));
    } else {
      r := None;
    }
  }

  // ---------------------------------------------------------------- round trip

  /** `is_valid` */
  predicate IsValid(r: NumericRange) {
    match r
    case NoRange => true
    case Index(_) => true
    case Range(min, max) => min < max
    case MultipleRanges(ranges) => forall e <- ranges :: !e.MultipleRanges? && IsValid(e)
  }

  /** Valid, and a list has two to ten members, none of them empty. */
  predicate Parsable(r: NumericRange) {
    && IsValid(r)
    && (r.MultipleRanges? ==> 2 <= |r.ranges| <= 10 && NoRange !in r.ranges)
  }

  lemma NoSeparator(n: nat)
    ensures ',' !in Decimal(n) && ':' !in Decimal(n)
  {
    assert !IsDigit(',') && !IsDigit(':');
  }

  lemma PrintedNumber(n: u32)
    ensures Digits(Decimal(n)) && Value(Decimal(n)) == n
  {
    DecimalLength(n);
    ValueInvertsDecimal(n);
  }

  lemma RangeRoundTrip(r: NumericRange)
    requires IsValid(r) && (r.Index? || r.Range?)
    ensures ParseRange(Print(r)) == Some(r)
    ensures ',' !in Print(r) && Print(r) != []
  {
    if r.Index? {
      NoSeparator(r.index);
      PrintedNumber(r.index);
      assert Join([Decimal(r.index)], ':') == Decimal(r.index);
      SplitInvertsJoin([Decimal(r.index)], ':');
    } else {
      NoSeparator(r.min);
      NoSeparator(r.max);
      PrintedNumber(r.min);
      PrintedNumber(r.max);
      var parts := [Decimal(r.min), Decimal(r.max)];
      assert parts[1..] == [Decimal(r.max)];
      assert Join(parts, ':') == Print(r);
      SplitInvertsJoin(parts, ':');
    }
  }

  lemma ListRoundTrip(ranges: seq<NumericRange>)
    requires Parsable(MultipleRanges(ranges))
    ensures Parse(Join(PrintAll(ranges), ',')) == Some(MultipleRanges(ranges))
  {
    hide Print, ParseRange;
    var parts := PrintAll(ranges);
    forall i | 0 <= i < |ranges|
      ensures ParseRange(parts[i]) == Some(ranges[i]) && ',' !in parts[i]
    {
      RangeRoundTrip(ranges[i]);
    }
    SplitInvertsJoin(parts, ',');
    assert Join(parts, ',') != [];
    assert ParseAll(parts).Some? && ParseAll(parts).value == ranges;
  }

  lemma ParsedRange(s: string)
    ensures var r := ParseRange(s); r.Some? ==> (r.value.Index? || r.value.Range?) && IsValid(r.value)
  {
  }

  /** Whatever parsing accepts is parsable. */
  lemma ParsedIsParsable(s: string)
    ensures Parse(s).Some? ==> Parsable(Parse(s).value)
  {
    hide ParseRange;
    var parts := Split(s, ',');
    forall i | 0 <= i < |parts|
      ensures var r := ParseRange(parts[i]); r.Some? ==> (r.value.Index? || r.value.Range?) && IsValid(r.value)
    {
      ParsedRange(parts[i]);
    }
  }

  /** Parsing gives a range back exactly when it is parsable. */
  lemma RoundTripIff(r: NumericRange)
    ensures Parse(Print(r)) == Some(r) <==> Parsable(r)
  {
    ParsedIsParsable(Print(r));
    if Parsable(r) {
      if r.MultipleRanges? {
        ListRoundTrip(r.ranges);
      } else if !r.NoRange? {
        RangeRoundTrip(r);
        var s := Print(r);
        assert Join([s], ',') == s;
        SplitInvertsJoin([s], ',');
      }
    }
  }

  /** Valid ranges that printing and parsing lose: a list of one, and a list of eleven. */
  lemma ValidIsNotEnough(i: u32)
    ensures
      var one, eleven := MultipleRanges([Index(i)]), MultipleRanges(seq(11, _ => Index(i)));
      && IsValid(one) && Parse(Print(one)) == Some(Index(i))
      && IsValid(eleven) && Parse(Print(eleven)) == None
  {
    var ranges := seq(11, _ => Index(i));
    RangeRoundTrip(Index(i));
    assert PrintAll([Index(i)]) == [Print(Index(i))];
    RoundTripIff(Index(i));
    var parts := PrintAll(ranges);
    assert forall p <- parts :: p == Print(Index(i));
    SplitInvertsJoin(parts, ',');
    assert Join(parts, ',') != [];
  }
}
