/**
 * One snapshot of aircraft states as the handlers receive it: the table that
 * the fetch step builds from the upstream `states` array, seventeen positional
 * columns per aircraft, every cell possibly missing.
 */
module Snapshot {
  import opened Wrappers

  /** A JSON scalar in a column that normally holds text (the callsign may arrive as a number). */
  datatype Value = Str(s: string) | Num(x: real) | Flag(b: bool)

  const NANOS_PER_SECOND: int := 1_000_000_000
  const INT64_MAX: int := 0x7FFF_FFFF_FFFF_FFFF

  /**
   * The largest magnitude, in whole seconds, that a pandas Timestamp can
   * hold: the nanosecond count must fit a signed 64-bit integer whose most
   * negative value is reserved for "not a time".
   */
  const MAX_SECONDS: int := INT64_MAX / NANOS_PER_SECOND

  /** A converted `time_position`: seconds since 1970-01-01T00:00:00 UTC, within pandas' range. */
  type Timestamp = t: int | -MAX_SECONDS <= t <= MAX_SECONDS

  /** A raw `time_position` cell as the upstream sends it. */
  datatype RawTime = Seconds(t: int) | NotNumeric

  /**
   * The row layout, in the upstream's positional column order. Cells that the
   * three transforms never read keep the JSON types the upstream uses.
   */
  datatype Row = Row(
    icao24: Option<string>,
    callsign: Option<Value>,
    origin_country: Option<string>,
    time_position: Option<Timestamp>,
    last_contact: Option<int>,
    longitude: Option<real>,
    latitude: Option<real>,
    baro_altitude: Option<real>,
    on_ground: Option<bool>,
    velocity: Option<real>,
    true_track: Option<real>,
    vertical_rate: Option<real>,
    sensors: Option<seq<int>>,
    geo_altitude: Option<real>,
    squawk: Option<string>,
    spi: Option<bool>,
    position_source: Option<int>)

  /**
   * What the fetch step hands to a handler: a table with the seventeen
   * columns, or, when the request or the parse failed, a frame with no
   * columns at all.
   */
  datatype Frame = NoColumns | Table(rows: seq<Row>)

  /** A handler's failure: indexing a column the frame does not have raises KeyError. */
  datatype Error = MissingColumns(columns: seq<string>)

  /**
   * The conversion of a raw `time_position` with errors coerced: a missing
   * cell, a non-numeric one or one outside the Timestamp range becomes missing.
   */
  function ToTimestamp(raw: Option<RawTime>): (ts: Option<Timestamp>)
    ensures ts.Some? <==> raw.Some? && raw.value.Seconds? && -MAX_SECONDS <= raw.value.t <= MAX_SECONDS
    ensures ts.Some? ==> ts.value == raw.value.t
  {
    match raw
    case Some(Seconds(t)) => if -MAX_SECONDS <= t <= MAX_SECONDS then Some(t) else None
    case _ => None
  }

  const SECONDS_PER_HOUR: int := 3600
  const HOURS_PER_DAY: int := 24
  const SECONDS_PER_DAY: int := SECONDS_PER_HOUR * HOURS_PER_DAY

  /** The UTC hour of the day of an instant given in seconds since the epoch. */
  function HourOf(t: int): (h: nat)
    ensures h < HOURS_PER_DAY
  {
    (t / SECONDS_PER_HOUR) % HOURS_PER_DAY
  }

  /**
   * The hour is the one whose hour-long slot of the instant's UTC day holds
   * it, the day starting at a multiple of 86400 seconds at or before the
   * instant (so instants before 1970 fall in the hour before them, not after).
   */
  lemma HourSlot(t: int)
    ensures var day := t / SECONDS_PER_DAY;
      day * SECONDS_PER_DAY + HourOf(t) * SECONDS_PER_HOUR <= t < day * SECONDS_PER_DAY + (HourOf(t) + 1) * SECONDS_PER_HOUR
  {
    var q, r := t / SECONDS_PER_HOUR, t % SECONDS_PER_HOUR;
    var a, h := q / HOURS_PER_DAY, q % HOURS_PER_DAY;
    assert t == 86400 * a + 3600 * h + r;
    assert 0 <= 3600 * h + r < 86400;
    assert t / SECONDS_PER_DAY == a;
  }
}
