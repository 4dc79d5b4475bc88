/** Date-times as signed 100-nanosecond ticks (lib/src/types/date_time.rs; OPC UA Part 6, section 5.2.2.5). */
module DateTimes {
  import opened Prelude
  import opened Wire

  /** An instant, in nanoseconds after 1601-01-01 00:00:00. */
  datatype DateTime = DateTime(nanos: int)

  const NANOS_PER_SECOND: int := 1_000_000_000
  const NANOS_PER_TICK: int := 100
  const TICKS_PER_SECOND: int := NANOS_PER_SECOND / NANOS_PER_TICK
  const MAX_I64: int := 0x7FFF_FFFF_FFFF_FFFF

  /** Days from 1601-01-01 to the first day of 10000: 8399 years with their leap days. */
  const DAYS_TO_YEAR_10000: int := 365 * 8399 + 8399 / 4 - 8399 / 100 + 8399 / 400

  /** 9999-12-31 23:59:59 */
  const END_SECONDS: int := DAYS_TO_YEAR_10000 * 86400 - 1
  const END_TICKS: int := END_SECONDS * TICKS_PER_SECOND
  const END_TIMES: DateTime := DateTime(END_SECONDS * NANOS_PER_SECOND)

  /** `From<DateTimeUtc>`: the nanoseconds within the second are cut to whole ticks. */
  function FromChrono(nanos: int): DateTime {
    var seconds, subsecond := nanos / NANOS_PER_SECOND, nanos % NANOS_PER_SECOND;
    DateTime(seconds * NANOS_PER_SECOND + subsecond / NANOS_PER_TICK * NANOS_PER_TICK)
  }

  /** `From<i64>` */
  function FromTicks(value: i64): DateTime {
    if value == MAX_I64 then END_TIMES
    else
      var seconds := TruncDiv(value, TICKS_PER_SECOND);
      var nanos := (value - seconds * TICKS_PER_SECOND) * NANOS_PER_TICK;
      FromChrono(seconds * NANOS_PER_SECOND + nanos)
  }

  /** `duration_to_ticks` */
  function DurationToTicks(nanos: int): int {
    var seconds := TruncDiv(nanos, NANOS_PER_SECOND);
    seconds * TICKS_PER_SECOND + TruncDiv(nanos - seconds * NANOS_PER_SECOND, NANOS_PER_TICK)
  }

  function Ticks(d: DateTime): int { DurationToTicks(d.nanos) }

  /** `checked_ticks` */
  function CheckedTicks(d: DateTime): i64 {
    if Ticks(d) < 0 then 0 else if Ticks(d) > END_TICKS then MAX_I64 else Ticks(d)
  }

  function EncodeDateTime(d: DateTime): bytes { WriteI64(CheckedTicks(d)) }

  function DecodeDateTime(s: bytes, options: Options): Decoded<DateTime> {
    var (ticks, rest) :- ReadI64(s);
    Got(FromChrono(FromTicks(ticks).nanos - options.clientOffset), rest)
  }

  // ---------------------------------------------------------------- whole ticks

  function TickFloor(nanos: int): int { nanos / 100 * 100 }

  lemma FromChronoFloors(nanos: int)
    ensures FromChrono(nanos) == DateTime(TickFloor(nanos))
  {
    var seconds, subsecond := nanos / NANOS_PER_SECOND, nanos % NANOS_PER_SECOND;
    assert nanos == seconds * NANOS_PER_SECOND + subsecond;
    assert nanos / 100 == seconds * 10_000_000 + subsecond / 100;
  }

  /** The split into seconds and a remainder does not change the tick count: it truncates toward zero. */
  lemma DurationToTicksTruncates(nanos: int)
    ensures DurationToTicks(nanos) == TruncDiv(nanos, 100)
  {
    var n := if nanos >= 0 then nanos else -nanos;
    assert n / 100 == n / NANOS_PER_SECOND * 10_000_000 + (n - n / NANOS_PER_SECOND * NANOS_PER_SECOND) / 100;
  }

  lemma FromTicksIsExact(value: i64)
    requires value != MAX_I64
    ensures FromTicks(value) == DateTime(value * 100)
  {
    hide TruncDiv, FromChrono, TickFloor;
    var seconds := TruncDiv(value, TICKS_PER_SECOND);
    var nanos := seconds * NANOS_PER_SECOND + (value - seconds * TICKS_PER_SECOND) * NANOS_PER_TICK;
    Recombine(seconds, value);
    WholeTicks(value);
    FromChronoFloors(nanos);
  }

  lemma Recombine(seconds: int, ticks: int)
    ensures seconds * NANOS_PER_SECOND + (ticks - seconds * TICKS_PER_SECOND) * NANOS_PER_TICK == ticks * 100
  {
  }

  lemma WholeTicks(ticks: int)
    ensures TickFloor(ticks * 100) == ticks * 100
  {
  }

  /** Every tick count except the end marker survives conversion, negative ones included; the marker becomes the end of time. */
  lemma TicksInvertsFromTicks(value: i64)
    ensures Ticks(FromTicks(value)) == if value == MAX_I64 then END_TICKS else value
  {
    DurationToTicksTruncates(FromTicks(value).nanos);
    if value != MAX_I64 { FromTicksIsExact(value); }
  }

  function Clamp(nanos: int): int {
    if nanos < 0 then 0 else if nanos > END_TIMES.nanos then END_TIMES.nanos else nanos
  }

  /** What a date-time becomes on the way through the codec: clamped, cut to ticks, shifted by the clock offset. */
  function NormalDateTime(d: DateTime, options: Options): DateTime {
    DateTime(TickFloor(TickFloor(Clamp(d.nanos)) - options.clientOffset))
  }

  lemma EndMarker()
    ensures FromTicks(MAX_I64) == END_TIMES
    ensures END_TIMES.nanos == END_TICKS * 100 && 0 < END_TICKS < MAX_I64
  {
  }

  lemma TicksOfInstant(d: DateTime)
    ensures d.nanos < 0 ==> Ticks(d) <= 0
    ensures d.nanos >= 0 ==> Ticks(d) == d.nanos / 100
  {
    hide DurationToTicks;
    DurationToTicksTruncates(d.nanos);
  }

  /** What the encoded tick count stands for. */
  lemma EncodedInstant(d: DateTime)
    ensures FromTicks(CheckedTicks(d)) == DateTime(TickFloor(Clamp(d.nanos)))
  {
    hide FromTicks, Ticks, TickFloor;
    TicksOfInstant(d);
    EndMarker();
    WholeTicks(END_TICKS);
    if d.nanos < 0 {
      FromTicksIsExact(0);
      WholeTicks(0);
    } else if d.nanos / 100 > END_TICKS {
    } else {
      FromTicksIsExact(d.nanos / 100);
      TickFloorIs(d.nanos);
      if d.nanos > END_TIMES.nanos { assert d.nanos / 100 == END_TICKS; }
    }
  }

  lemma TickFloorIs(nanos: int)
    ensures TickFloor(nanos) == nanos / 100 * 100
  {
  }

  lemma DateTimeRoundTrip(d: DateTime, options: Options, rest: bytes)
    ensures DecodeDateTime(EncodeDateTime(d) + rest, options) == Got(NormalDateTime(d, options), rest)
    ensures |EncodeDateTime(d)| == 8
  {
    hide CheckedTicks, FromTicks, FromChrono;
    var ticks := CheckedTicks(d);
    ReadI64Written(ticks, rest);
    EncodedInstant(d);
    FromChronoFloors(FromTicks(ticks).nanos - options.clientOffset);
  }

  /** Without a clock offset a decoded date-time is stable: it decodes to itself. */
  lemma NormalDateTimeIsStable(d: DateTime, options: Options)
    requires options.clientOffset == 0
    ensures NormalDateTime(NormalDateTime(d, options), options) == NormalDateTime(d, options)
    ensures NormalDateTime(d, options) == d <==> 0 <= d.nanos <= END_TIMES.nanos && d.nanos % 100 == 0
  {
    assert TickFloor(END_TIMES.nanos) == END_TIMES.nanos;
  }

  /** Encoding keeps order. */
  lemma EncodingIsMonotone(a: DateTime, b: DateTime)
    requires a.nanos <= b.nanos
    ensures CheckedTicks(a) <= CheckedTicks(b)
  {
    DurationToTicksTruncates(a.nanos);
    DurationToTicksTruncates(b.nanos);
  }
}
