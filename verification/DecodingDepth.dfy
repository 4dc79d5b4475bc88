/** What the depth gauge limits: it counts variants held by variants and extension objects, but takes no lock for data
    values and diagnostic info (lib/src/types/{encoding,variant,data_value,diagnostic_info}.rs). */
module DecodingDepth {
  import opened Prelude
  import opened Wire
  import opened Scalars
  import opened Variants
  import opened VariantLaws
  import opened Records

  // ---------------------------------------------------------------- levels

  /** How deep the decoder goes to read the variant: calls inside calls for variants and extension objects. */
  function Levels(v: Variant): nat
    decreases v, 1
  {
    match v
    case Single(x) => ScalarDepth(x)
    case Nested(inner) => 1 + Levels(inner)
    case Data(d) => if d.value.None? then 0 else 1 + Levels(d.value.value)
    case Array(_, values, _) => ValuesLevels(values)
  }

  function ValuesLevels(values: seq<Variant>): nat
    decreases values, 0
  {
    if values == [] then 0 else Max(Levels(values[0]), ValuesLevels(values[1..]))
  }

  /** How many data values, one inside another, hold a value. */
  function DataLevels(v: Variant): nat
    decreases v, 1
  {
    match v
    case Single(_) => 0
    case Nested(inner) => DataLevels(inner)
    case Data(d) => if d.value.None? then 0 else 1 + DataLevels(d.value.value)
    case Array(_, values, _) => ValuesDataLevels(values)
  }

  function ValuesDataLevels(values: seq<Variant>): nat
    decreases values, 0
  {
    if values == [] then 0 else Max(DataLevels(values[0]), ValuesDataLevels(values[1..]))
  }

  /** The levels without a lock are those of data values. */
  lemma {:induction false} LevelsAreLocksAndData(v: Variant)
    ensures Depth(v) <= Levels(v) <= Depth(v) + DataLevels(v)
    decreases v, 1
  {
    match v
    case Single(_) =>
    case Nested(inner) => LevelsAreLocksAndData(inner);
    case Data(d) => if d.value.Some? { LevelsAreLocksAndData(d.value.value); }
    case Array(_, values, _) => ValuesLevelsAreLocksAndData(values);
  }

  lemma {:induction false} ValuesLevelsAreLocksAndData(values: seq<Variant>)
    ensures ValuesDepth(values) <= ValuesLevels(values) <= ValuesDepth(values) + ValuesDataLevels(values)
    decreases values, 0
  {
    if values != [] {
      LevelsAreLocksAndData(values[0]);
      ValuesLevelsAreLocksAndData(values[1..]);
    }
  }

  // ---------------------------------------------------------------- the deepest variants

  /** `k` data values around `m` variants around nothing. */
  function Tower(k: nat, m: nat): Variant {
    if k > 0 then Data(DataValue(Some(Tower(k - 1, m)), None, None, None, None, None))
    else if m > 0 then Nested(Tower(0, m - 1))
    else Single(Empty)
  }

  lemma {:induction false} TowerIs(k: nat, m: nat, o: Options)
    ensures
      var v := Tower(k, m);
      && !v.Array? && VariantFits(v, o) && WellTyped(v) && Rectangular(v) && NormalVariant(v, o) == v
      && Depth(v) == m && DataLevels(v) == k && Levels(v) == k + m
  {
    if k > 0 { TowerIs(k - 1, m, o); } else if m > 0 { TowerIs(0, m - 1, o); }
  }

  /** Any number of data values passes the gauge, whatever its limit. */
  lemma TowerDecodes(k: nat, m: nat, o: Options, depth: nat, rest: bytes)
    requires depth + m <= o.maxDepth
    ensures Encodable(Tower(k, m)) && DecodeVariant(EncodeVariant(Tower(k, m)) + rest, o, depth) == Got(Tower(k, m), rest)
  {
    hide EncodeVariant, DecodeVariant, VariantFits, WellTyped, Rectangular, NormalVariant, Depth, Tower;
    TowerIs(k, m, o);
    VariantRoundTrip(Tower(k, m), o, depth, rest);
  }

  /** `b` bounds how deep the decoder goes for variants with at most `k` data values one inside another. */
  ghost predicate Bounds(b: nat, k: nat, o: Options, depth: nat) {
    forall s: bytes :: DecodeVariant(s, o, depth).Got? && DataLevels(DecodeVariant(s, o, depth).value) <= k ==>
                       Levels(DecodeVariant(s, o, depth).value) <= b
  }

  /** The gauge bounds the depth of the decoder exactly up to the nesting of data values: what is left of the limit and
      one level more for each. */
  lemma DepthBoundedIff(b: nat, k: nat, o: Options, depth: nat)
    requires depth <= o.maxDepth
    ensures Bounds(b, k, o, depth) <==> o.maxDepth - depth + k <= b
  {
    var m := o.maxDepth - depth;
    hide DecodeVariant, EncodeVariant, Tower, Levels, DataLevels, Depth;
    if Bounds(b, k, o, depth) {
      TowerIs(k, m, o);
      TowerDecodes(k, m, o, depth, []);
      assert DecodeVariant(EncodeVariant(Tower(k, m)) + [], o, depth).Got?;
    }
    if m + k <= b {
      forall s: bytes | DecodeVariant(s, o, depth).Got? && DataLevels(DecodeVariant(s, o, depth).value) <= k
        ensures Levels(DecodeVariant(s, o, depth).value) <= b
      {
        DecodedVariantIsSound(s, o, depth);
        LevelsAreLocksAndData(DecodeVariant(s, o, depth).value);
      }
    }
  }

  // ---------------------------------------------------------------- diagnostic info

  function InfoLevels(v: DiagnosticInfo): nat { if v.inner.None? then 0 else 1 + InfoLevels(v.inner.value) }

  function InfoTower(n: nat): DiagnosticInfo {
    DiagnosticInfo(None, None, None, None, None, None, if n == 0 then None else Some(InfoTower(n - 1)))
  }

  lemma {:induction false} InfoTowerIs(n: nat, o: Options)
    ensures InfoLevels(InfoTower(n)) == n && DiagnosticInfoFits(InfoTower(n), o)
  {
    if n > 0 { InfoTowerIs(n - 1, o); }
  }

  /** Nothing bounds the nesting of diagnostic info. */
  lemma DiagnosticInfoIsUnbounded(n: nat, o: Options, rest: bytes)
    ensures InfoLevels(InfoTower(n)) == n
    ensures DecodeDiagnosticInfo(EncodeDiagnosticInfo(InfoTower(n)) + rest, o) == Got(InfoTower(n), rest)
  {
    hide EncodeDiagnosticInfo, DecodeDiagnosticInfo, InfoTower;
    InfoTowerIs(n, o);
    DiagnosticInfoRoundTrip(InfoTower(n), o, rest);
  }
}
