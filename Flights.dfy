/**
 * The positioned-flights view: the callsign, origin country, latitude,
 * longitude and velocity of every aircraft for which all five are known, in
 * the order of the snapshot.
 */
module Flights {
  import opened Wrappers
  import opened Snapshot
  import Series

  /** One record of the view: the five selected columns, all present. */
  datatype Position = Position(
    callsign: Value,
    origin_country: string,
    latitude: real,
    longitude: real,
    velocity: real)

  /** A row of the five selected columns, before missing cells are dropped. */
  datatype Selected = Selected(
    callsign: Option<Value>,
    origin_country: Option<string>,
    latitude: Option<real>,
    longitude: Option<real>,
    velocity: Option<real>)

  const POSITION_COLUMNS: seq<string> := ["callsign", "origin_country", "latitude", "longitude", "velocity"]

  function Select(r: Row): Selected {
    Selected(r.callsign, r.origin_country, r.latitude, r.longitude, r.velocity)
  }

  /** The five selected columns of every row, row for row. */
  function SelectColumns(rows: seq<Row>): (cols: seq<Selected>)
    ensures |cols| == |rows|
  {
    seq(|rows|, i requires 0 <= i < |rows| => Select(rows[i]))
  }

  predicate Complete(c: Selected) {
    c.callsign.Some? && c.origin_country.Some? && c.latitude.Some? && c.longitude.Some? && c.velocity.Some?
  }

  /** A snapshot row that has all five columns of the view. */
  predicate Positioned(r: Row) {
    Complete(Select(r))
  }

  /** The row-wise test of `dropna`: a complete row is kept as it is, any other is dropped. */
  function KeepComplete(c: Selected): Option<Selected> {
    if Complete(c) then Some(c) else None
  }

  /** `dropna` over the selected columns. */
  function DropMissing(cols: seq<Selected>): (kept: seq<Selected>)
    ensures |kept| <= |cols|
    ensures forall c :: c in kept ==> Complete(c)
  {
    var kept := Series.Collect(cols, KeepComplete);
    Series.CollectAt(cols, KeepComplete);
    assert forall k :: 0 <= k < |kept| ==> Complete(kept[k]);
    kept
  }

  function ToRecord(c: Selected): Position
    requires Complete(c)
  {
    Position(c.callsign.value, c.origin_country.value, c.latitude.value, c.longitude.value, c.velocity.value)
  }

  /** `to_dict(orient='records')`: one record per complete row, in order. */
  function Records(cols: seq<Selected>): (out: seq<Position>)
    requires forall c :: c in cols ==> Complete(c)
    ensures |out| == |cols|
  {
    seq(|cols|, i requires 0 <= i < |cols| => ToRecord(cols[i]))
  }

  /** The handler: select the five columns, drop incomplete rows, emit records. */
  function Flights(frame: Frame): (r: Result<seq<Position>, Error>)
    ensures r.Failure? <==> frame.NoColumns?
    ensures r.Failure? ==> r.error == MissingColumns(POSITION_COLUMNS)
    ensures r.Success? ==> |r.value| <= |frame.rows|
  {
    match frame
    case NoColumns => Failure(MissingColumns(POSITION_COLUMNS))
    case Table(rows) => Success(Records(DropMissing(SelectColumns(rows))))
  }

  /** A positioned row projected onto the five columns of the view. */
  function Project(r: Row): Position
    requires Positioned(r)
  {
    ToRecord(Select(r))
  }

  /** The positions, in ascending order, of exactly the positioned rows. */
  ghost function PositionedRows(rows: seq<Row>): (idx: seq<nat>)
    ensures forall k :: 0 <= k < |idx| ==> idx[k] < |rows| && Positioned(rows[idx[k]])
    ensures forall k, l :: 0 <= k < l < |idx| ==> idx[k] < idx[l]
    ensures forall i :: 0 <= i < |rows| && Positioned(rows[i]) ==> i in idx
  {
    var cols := SelectColumns(rows);
    Series.KeptExactly(cols, KeepComplete);
    assert forall i :: 0 <= i < |rows| ==> cols[i] == Select(rows[i]);
    Series.Kept(cols, KeepComplete)
  }

  /**
   * The view lists the positioned rows, and only them, in snapshot order,
   * each projected onto the five columns.
   */
  lemma FlightsArePositionedRows(rows: seq<Row>)
    ensures Flights(Table(rows)).Success?
    ensures var out, idx := Flights(Table(rows)).value, PositionedRows(rows);
      |out| == |idx| && forall k :: 0 <= k < |idx| ==> out[k] == Project(rows[idx[k]])
  {
    Series.CollectAt(SelectColumns(rows), KeepComplete);
  }

  /** The view has one record per positioned row. */
  lemma FlightsCount(rows: seq<Row>)
    ensures |Flights(Table(rows)).value| == |set i | 0 <= i < |rows| && Positioned(rows[i])|
  {
    var cols := SelectColumns(rows);
    Series.CollectCount(cols, KeepComplete);
    assert forall i :: 0 <= i < |rows| ==> cols[i] == Select(rows[i]);
    assert Series.Defined(cols, KeepComplete) == set i | 0 <= i < |rows| && Positioned(rows[i]);
  }

  /** The view of two snapshots laid end to end is the two views laid end to end. */
  lemma FlightsAppend(a: seq<Row>, b: seq<Row>)
    ensures Flights(Table(a + b)).value == Flights(Table(a)).value + Flights(Table(b)).value
  {
    assert SelectColumns(a + b) == SelectColumns(a) + SelectColumns(b);
    Series.CollectAppend(SelectColumns(a), SelectColumns(b), KeepComplete);
  }

  /** Dropping missing cells from rows that have none left changes nothing. */
  lemma DropMissingIdempotent(cols: seq<Selected>)
    ensures DropMissing(DropMissing(cols)) == DropMissing(cols)
  {
    Series.CollectIdempotent(cols, KeepComplete);
  }

  /** A complete aircraft state is listed with its callsign untrimmed. */
  lemma FlightsExample()
    ensures var row := Row(
      Some("abc123"), Some(Str("UAL123  ")), Some("United States"), Some(1700000000), Some(1700000000),
      Some(-122.1), Some(37.5), Some(1000.0), Some(false), Some(250.5), Some(90.0), Some(0.0),
      None, Some(1000.0), Some("1200"), Some(false), Some(0));
      Flights(Table([row])) == Success([Position(Str("UAL123  "), "United States", 37.5, -122.1, 250.5)])
  {
    var row := Row(
      Some("abc123"), Some(Str("UAL123  ")), Some("United States"), Some(1700000000), Some(1700000000),
      Some(-122.1), Some(37.5), Some(1000.0), Some(false), Some(250.5), Some(90.0), Some(0.0),
      None, Some(1000.0), Some("1200"), Some(false), Some(0));
    var cols := SelectColumns([row]);
    assert cols == [Select(row)];
    assert cols[..0] == [];
    assert Series.Collect(cols, KeepComplete) == [Select(row)];
    assert DropMissing(cols) == [Select(row)];
    assert Records([Select(row)]) == [ToRecord(Select(row))];
  }
}
