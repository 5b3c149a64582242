/**
 * The hourly-demand view: how many aircraft reported a position in each UTC
 * hour of the day, all 24 hours listed, unless no aircraft reported one at all.
 */
module Demand {
  import opened Wrappers
  import opened Snapshot
  import Series

  /** One record of the view. */
  datatype HourCount = HourCount(hour: nat, count: nat)

  const DEMAND_COLUMNS: seq<string> := ["time_position"]

  /** The derived `hour` cell of a row: the UTC hour of its time_position, missing when that is. */
  function HourOfRow(r: Row): Option<nat> {
    match r.time_position
    case Some(t) => Some(HourOf(t))
    case None => None
  }

  /** The `hour` column after the rows without a time_position are dropped. */
  function Hours(rows: seq<Row>): (hours: seq<nat>)
    ensures forall h :: h in hours ==> h < HOURS_PER_DAY
  {
    var hours := Series.Collect<Row, nat>(rows, HourOfRow);
    Series.CollectAt<Row, nat>(rows, HourOfRow);
    assert forall k :: 0 <= k < |hours| ==> hours[k] < HOURS_PER_DAY;
    hours
  }

  /** `value_counts` reindexed over the hours 0 to 23 with missing hours filled by zero. */
  function Histogram(hours: seq<nat>): (out: seq<HourCount>)
    ensures |out| == HOURS_PER_DAY
  {
    seq(HOURS_PER_DAY, h requires 0 <= h < HOURS_PER_DAY => HourCount(h, multiset(hours)[h]))
  }

  /** The handler: drop rows without a time, return nothing if none is left, else the 24-hour histogram. */
  function HighDemand(frame: Frame): (r: Result<seq<HourCount>, Error>)
    ensures r.Failure? <==> frame.NoColumns?
    ensures r.Failure? ==> r.error == MissingColumns(DEMAND_COLUMNS)
  {
    match frame
    case NoColumns => Failure(MissingColumns(DEMAND_COLUMNS))
    case Table(rows) =>
      var hours := Hours(rows);
      if hours == [] then Success([]) else Success(Histogram(hours))
  }

  /** The sum of the counts of a list of records. */
  function Total(s: seq<HourCount>): nat {
    if s == [] then 0 else s[0].count + Total(s[1..])
  }

  /** How many rows carry a time_position. */
  ghost function Stamped(rows: seq<Row>): nat {
    |set i | 0 <= i < |rows| && rows[i].time_position.Some?|
  }

  /** How many rows carry a time_position whose UTC hour is `h`. */
  ghost function InHour(rows: seq<Row>, h: nat): nat {
    |set i | 0 <= i < |rows| && rows[i].time_position.Some? && HourOf(rows[i].time_position.value) == h|
  }

  lemma HoursCount(rows: seq<Row>)
    ensures |Hours(rows)| == Stamped(rows)
  {
    Series.CollectCount<Row, nat>(rows, HourOfRow);
    assert Series.Defined<Row, nat>(rows, HourOfRow) == set i | 0 <= i < |rows| && rows[i].time_position.Some?;
  }

  /** Raising one count by one raises the total by one. */
  lemma {:induction false} TotalBump(s: seq<HourCount>, t: seq<HourCount>, k: int)
    requires |s| == |t|
    requires forall j :: 0 <= j < |s| ==> t[j].count == s[j].count + if j == k then 1 else 0
    ensures Total(t) == Total(s) + if 0 <= k < |s| then 1 else 0
  {
    if s != [] {
      TotalBump(s[1..], t[1..], k - 1);
    }
  }

  lemma {:induction false} TotalZero(s: seq<HourCount>)
    requires forall j :: 0 <= j < |s| ==> s[j].count == 0
    ensures Total(s) == 0
  {
    if s != [] {
      TotalZero(s[1..]);
    }
  }

  /** The histogram of a list of hours accounts for each of them exactly once. */
  lemma {:induction false} HistogramTotal(hours: seq<nat>)
    requires forall h :: h in hours ==> h < HOURS_PER_DAY
    ensures Total(Histogram(hours)) == |hours|
  {
    if hours == [] {
      TotalZero(Histogram(hours));
    } else {
      var n := |hours| - 1;
      var front := hours[..n];
      assert hours == front + [hours[n]];
      assert multiset(hours) == multiset(front) + multiset{hours[n]};
      assert forall h :: h in front ==> h in hours;
      HistogramTotal(front);
      var before, after := Histogram(front), Histogram(hours);
      assert forall j :: 0 <= j < |before| ==>
        after[j].count == before[j].count + if j == hours[n] then 1 else 0;
      TotalBump(before, after, hours[n]);
      assert hours[n] in hours;
    }
  }

  /** The view is empty exactly when no row carries a time_position. */
  lemma HighDemandEmpty(rows: seq<Row>)
    ensures HighDemand(Table(rows)) == Success([]) <==>
      forall i :: 0 <= i < |rows| ==> rows[i].time_position.None?
  {
    HoursCount(rows);
    if exists i :: 0 <= i < |rows| && rows[i].time_position.Some? {
      var i :| 0 <= i < |rows| && rows[i].time_position.Some?;
      var stamped := set i | 0 <= i < |rows| && rows[i].time_position.Some?;
      assert stamped == (stamped - {i}) + {i};
      assert |Hours(rows)| > 0;
    } else {
      assert (set i | 0 <= i < |rows| && rows[i].time_position.Some?) == {};
    }
  }

  /**
   * Otherwise the view lists the hours 0 to 23 in order, each with the number
   * of rows whose time_position falls in that UTC hour.
   */
  lemma HighDemandHours(rows: seq<Row>)
    requires exists i :: 0 <= i < |rows| && rows[i].time_position.Some?
    ensures var out := HighDemand(Table(rows)).value;
      |out| == HOURS_PER_DAY &&
      forall h :: 0 <= h < HOURS_PER_DAY ==> out[h].hour == h && out[h].count == InHour(rows, h)
  {
    HighDemandEmpty(rows);
    forall h | 0 <= h < HOURS_PER_DAY
      ensures multiset(Hours(rows))[h] == InHour(rows, h)
    {
      Series.CollectOccurrences<Row, nat>(rows, HourOfRow, h);
      assert Series.Yielding<Row, nat>(rows, HourOfRow, h)
        == set i | 0 <= i < |rows| && rows[i].time_position.Some? && HourOf(rows[i].time_position.value) == h;
    }
  }

  /** The counts of a non-empty view add up to the number of rows that carry a time_position. */
  lemma HighDemandTotal(rows: seq<Row>)
    requires exists i :: 0 <= i < |rows| && rows[i].time_position.Some?
    ensures Total(HighDemand(Table(rows)).value) == Stamped(rows)
  {
    HighDemandEmpty(rows);
    HoursCount(rows);
    HistogramTotal(Hours(rows));
  }

  /** 1700000000 seconds is 22:13:20 UTC, so a single such report fills hour 22 alone. */
  lemma HighDemandExample()
    ensures var row := Row(Some("abc123"), None, Some("United States"), Some(1700000000), None,
        None, None, None, None, None, None, None, None, None, None, None, None);
      var out := HighDemand(Table([row])).value;
      |out| == 24 && out[22] == HourCount(22, 1) && out[21] == HourCount(21, 0)
  {
    var row := Row(Some("abc123"), None, Some("United States"), Some(1700000000), None,
        None, None, None, None, None, None, None, None, None, None, None, None);
    assert HourOf(1700000000) == 22;
    assert [row][..0] == [];
    assert Hours([row]) == [22];
  }
}
