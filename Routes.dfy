/**
 * The popular-routes view: a route label built from each aircraft's origin
 * country and the first three characters of its callsign, and the ten most
 * frequent labels with their counts, most frequent first.
 */
module Routes {
  import opened Wrappers
  import opened Snapshot
  import Series

  /** One record of the view. */
  datatype RouteCount = RouteCount(route: string, count: nat)

  const ROUTE_COLUMNS: seq<string> := ["callsign", "origin_country"]
  const ARROW: string := " ➝ "
  /** What a callsign that cannot be sliced as text contributes to its label. */
  const UNKNOWN: string := "UNK"
  const PREFIX_LENGTH: nat := 3
  /** How many labels the view keeps. */
  const TOP: nat := 10

  function Min(a: int, b: int): int {
    if a <= b then a else b
  }

  /**
   * The callsign part of a label: the text sliced to its first three
   * characters, or UNKNOWN when the callsign is not text.
   */
  function Prefix(callsign: Value): (p: string)
    ensures callsign.Str? ==> p <= callsign.s && |p| == Min(PREFIX_LENGTH, |callsign.s|)
    ensures !callsign.Str? ==> p == UNKNOWN
  {
    match callsign
    case Str(s) => s[..Min(PREFIX_LENGTH, |s|)]
    case _ => UNKNOWN
  }

  /**
   * The label a row contributes: none when its callsign or origin country is
   * missing, otherwise the country, the arrow and the callsign prefix.
   */
  function RouteOf(r: Row): Option<string> {
    if r.callsign.Some? && r.origin_country.Some? then
      Some(r.origin_country.value + ARROW + Prefix(r.callsign.value))
    else
      None
  }

  /** The `route` column after the rows missing a callsign or a country are dropped. */
  function Labels(rows: seq<Row>): seq<string> {
    Series.Collect(rows, RouteOf)
  }

  /** How many rows of the snapshot contribute the label `route`. */
  ghost function Frequency(rows: seq<Row>, route: string): nat {
    |set i | 0 <= i < |rows| && RouteOf(rows[i]) == Some(route)|
  }

  /** The distinct labels the snapshot contributes. */
  ghost function RoutesSeen(rows: seq<Row>): set<string> {
    set i | 0 <= i < |rows| && RouteOf(rows[i]).Some? :: RouteOf(rows[i]).value
  }

  /** The distinct values of `s`, each once, in order of first occurrence. */
  function Uniques(s: seq<string>): seq<string> {
    if s == [] then []
    else
      var n := |s| - 1;
      var u := Uniques(s[..n]);
      if s[n] in u then u else u + [s[n]]
  }

  /** `Uniques` lists every value of `s` exactly once and nothing else. */
  lemma {:induction false} UniquesExactly(s: seq<string>)
    ensures Series.NoDuplicates(Uniques(s))
    ensures forall x :: x in Uniques(s) <==> x in s
  {
    if s != [] {
      var n := |s| - 1;
      UniquesExactly(s[..n]);
      assert s == s[..n] + [s[n]];
    }
  }

  /** No route is listed twice. */
  predicate DistinctRoutes(s: seq<RouteCount>) {
    forall i, j :: 0 <= i < j < |s| ==> s[i].route != s[j].route
  }

  /** Counts never increase along the list. */
  predicate ByCountDescending(s: seq<RouteCount>) {
    forall i, j :: 0 <= i < j < |s| ==> s[i].count >= s[j].count
  }

  /** `value_counts` before sorting: each distinct label with its number of occurrences. */
  function Tally(labels: seq<string>): seq<RouteCount> {
    var u := Uniques(labels);
    seq(|u|, i requires 0 <= i < |u| => RouteCount(u[i], multiset(labels)[u[i]]))
  }

  /**
   * The tally has one entry per distinct label, each route once, each count
   * the number of times its route occurs among the labels.
   */
  lemma TallyExactly(labels: seq<string>)
    ensures DistinctRoutes(Tally(labels))
    ensures forall e :: e in Tally(labels) ==> e.route in labels && e.count == multiset(labels)[e.route]
    ensures forall l :: l in labels ==> exists e :: e in Tally(labels) && e.route == l
    ensures |Tally(labels)| == |set l | l in labels|
  {
    var u, t := Uniques(labels), Tally(labels);
    UniquesExactly(labels);
    Series.DistinctValues(u);
    assert (set l | l in u) == (set l | l in labels);
    forall l | l in labels
      ensures exists e :: e in t && e.route == l
    {
      var i :| 0 <= i < |u| && u[i] == l;
      assert t[i] in t;
    }
  }

  /** Places `x` in a list sorted by descending count, ahead of the entries it ties with. */
  function Insert(x: RouteCount, s: seq<RouteCount>): (r: seq<RouteCount>)
    ensures |r| == |s| + 1
  {
    if s == [] || x.count >= s[0].count then [x] + s else [s[0]] + Insert(x, s[1..])
  }

  /** Sorts by descending count: the ordering `value_counts` applies to its tally. */
  function Rank(s: seq<RouteCount>): (r: seq<RouteCount>)
    ensures |r| == |s|
  {
    if s == [] then [] else Insert(s[0], Rank(s[1..]))
  }

  /** Inserting adds exactly the inserted entry. */
  lemma {:induction false} InsertPermutes(x: RouteCount, s: seq<RouteCount>)
    ensures multiset(Insert(x, s)) == multiset(s) + multiset{x}
  {
    if s != [] && x.count < s[0].count {
      InsertPermutes(x, s[1..]);
      assert s == [s[0]] + s[1..];
    }
  }

  /** Ranking is a permutation. */
  lemma {:induction false} RankPermutes(s: seq<RouteCount>)
    ensures multiset(Rank(s)) == multiset(s)
  {
    if s != [] {
      RankPermutes(s[1..]);
      InsertPermutes(s[0], Rank(s[1..]));
      assert s == [s[0]] + s[1..];
    }
  }

  /** Inserting into a sorted list keeps it sorted. */
  lemma {:induction false} InsertSorted(x: RouteCount, s: seq<RouteCount>)
    requires ByCountDescending(s)
    ensures ByCountDescending(Insert(x, s))
  {
    if s != [] && x.count >= s[0].count {
      assert Insert(x, s) == [x] + s;
    } else if s != [] {
      var rest := Insert(x, s[1..]);
      InsertSorted(x, s[1..]);
      InsertMembers(x, s[1..]);
      forall e | e in rest
        ensures e.count <= s[0].count
      {
        if e != x {
          var k :| 0 <= k < |s[1..]| && s[1..][k] == e;
          assert s[k + 1] == e;
        }
      }
      assert Insert(x, s) == [s[0]] + rest;
    }
  }

  /** Ranking sorts by descending count. */
  lemma {:induction false} RankSorted(s: seq<RouteCount>)
    ensures ByCountDescending(Rank(s))
  {
    if s != [] {
      RankSorted(s[1..]);
      InsertSorted(s[0], Rank(s[1..]));
    }
  }

  /** Every entry of `Insert(x, s)` is `x` or an entry of `s`. */
  lemma InsertMembers(x: RouteCount, s: seq<RouteCount>)
    ensures forall e :: e in Insert(x, s) ==> e in s || e == x
  {
    InsertPermutes(x, s);
    forall e | e in Insert(x, s)
      ensures e in s || e == x
    {
      assert e in multiset(Insert(x, s));
    }
  }

  lemma {:induction false} InsertDistinct(x: RouteCount, s: seq<RouteCount>)
    requires DistinctRoutes(s)
    requires forall e :: e in s ==> e.route != x.route
    ensures DistinctRoutes(Insert(x, s))
  {
    if s != [] && x.count < s[0].count {
      InsertDistinct(x, s[1..]);
      var rest := Insert(x, s[1..]);
      InsertMembers(x, s[1..]);
      assert forall e :: e in s[1..] ==> e.route != s[0].route;
      assert Insert(x, s) == [s[0]] + rest;
    }
  }

  lemma {:induction false} RankDistinct(s: seq<RouteCount>)
    requires DistinctRoutes(s)
    ensures DistinctRoutes(Rank(s))
  {
    if s != [] {
      RankDistinct(s[1..]);
      RankPermutes(s[1..]);
      forall e | e in Rank(s[1..])
        ensures e.route != s[0].route
      {
        assert e in multiset(Rank(s[1..]));
      }
      InsertDistinct(s[0], Rank(s[1..]));
    }
  }

  /** The handler: drop incomplete rows, label them, count the labels and keep the ten largest counts. */
  function PopularRoutes(frame: Frame): (r: Result<seq<RouteCount>, Error>)
    ensures r.Failure? <==> frame.NoColumns?
    ensures r.Failure? ==> r.error == MissingColumns(ROUTE_COLUMNS)
  {
    match frame
    case NoColumns => Failure(MissingColumns(ROUTE_COLUMNS))
    case Table(rows) =>
      var ranked := Rank(Tally(Labels(rows)));
      Success(ranked[..Min(TOP, |ranked|)])
  }

  /** A label occurs in the `route` column once per row that contributes it. */
  lemma FrequencyIsMultiplicity(rows: seq<Row>, route: string)
    ensures multiset(Labels(rows))[route] == Frequency(rows, route)
  {
    Series.CollectOccurrences(rows, RouteOf, route);
    assert Series.Yielding(rows, RouteOf, route) == set i | 0 <= i < |rows| && RouteOf(rows[i]) == Some(route);
  }

  /** The labels of the `route` column are exactly the labels the rows contribute. */
  lemma LabelsAreRoutesSeen(rows: seq<Row>)
    ensures (set l | l in Labels(rows)) == RoutesSeen(rows)
  {
    var labels, idx := Labels(rows), Series.Kept(rows, RouteOf);
    Series.CollectAt(rows, RouteOf);
    Series.KeptExactly(rows, RouteOf);
    forall l | l in labels
      ensures l in RoutesSeen(rows)
    {
      var k :| 0 <= k < |labels| && labels[k] == l;
      assert RouteOf(rows[idx[k]]) == Some(l);
    }
    forall l | l in RoutesSeen(rows)
      ensures l in labels
    {
      var i :| 0 <= i < |rows| && RouteOf(rows[i]).Some? && RouteOf(rows[i]).value == l;
      var k :| 0 <= k < |idx| && idx[k] == i;
      assert labels[k] == l;
    }
  }

  /** The view lists at most ten routes, each once, with counts never increasing. */
  lemma PopularRoutesRanked(rows: seq<Row>)
    ensures PopularRoutes(Table(rows)).Success?
    ensures var out := PopularRoutes(Table(rows)).value;
      |out| <= TOP && DistinctRoutes(out) && ByCountDescending(out)
  {
    var tally := Tally(Labels(rows));
    TallyExactly(Labels(rows));
    RankDistinct(tally);
    RankSorted(tally);
  }

  /** `head(10)` keeps ten entries, or every route when fewer than ten are seen. */
  lemma PopularRoutesLength(rows: seq<Row>)
    ensures |PopularRoutes(Table(rows)).value| == Min(TOP, |RoutesSeen(rows)|)
  {
    TallyExactly(Labels(rows));
    LabelsAreRoutesSeen(rows);
  }

  /** Every entry listed from a ranking comes from the tally that was ranked. */
  lemma ListedFromTally(tally: seq<RouteCount>, m: nat)
    requires m <= |tally|
    ensures forall e :: e in Rank(tally)[..m] ==> e in tally
  {
    var ranked := Rank(tally);
    RankPermutes(tally);
    forall e | e in ranked[..m]
      ensures e in tally
    {
      var k :| 0 <= k < m && ranked[..m][k] == e;
      assert e in multiset(ranked);
    }
  }

  /** Each listed count is the number of rows contributing that route, so at least one. */
  lemma PopularRoutesCounts(rows: seq<Row>)
    ensures forall e :: e in PopularRoutes(Table(rows)).value ==>
      e.count == Frequency(rows, e.route) && e.count >= 1
  {
    var labels := Labels(rows);
    var tally := Tally(labels);
    var m := Min(TOP, |Rank(tally)|);
    var out := Rank(tally)[..m];
    assert PopularRoutes(Table(rows)).value == out;
    ListedFromTally(tally, m);
    TallyExactly(labels);
    forall e | e in out
      ensures e.count == Frequency(rows, e.route) && e.count >= 1
    {
      FrequencyIsMultiplicity(rows, e.route);
    }
  }

  /** In a list sorted by descending count, an entry missing from a prefix counts no more than any entry of it. */
  lemma PrefixDominates(ranked: seq<RouteCount>, m: nat, x: RouteCount)
    requires ByCountDescending(ranked) && m <= |ranked| && x in ranked
    requires forall e :: e in ranked[..m] ==> e.route != x.route
    ensures forall e :: e in ranked[..m] ==> x.count <= e.count
  {
    var k :| 0 <= k < |ranked| && ranked[k] == x;
    assert k >= m;
    forall e | e in ranked[..m]
      ensures x.count <= e.count
    {
      var j :| 0 <= j < m && ranked[..m][j] == e;
    }
  }

  /** No route left out of the view is more frequent than any route in it. */
  lemma PopularRoutesAreMostFrequent(rows: seq<Row>, route: string)
    requires forall e :: e in PopularRoutes(Table(rows)).value ==> e.route != route
    ensures forall e :: e in PopularRoutes(Table(rows)).value ==> Frequency(rows, route) <= e.count
  {
    var labels := Labels(rows);
    var tally := Tally(labels);
    var ranked := Rank(tally);
    TallyExactly(labels);
    FrequencyIsMultiplicity(rows, route);
    if route in labels {
      var x :| x in tally && x.route == route;
      RankPermutes(tally);
      assert x in multiset(ranked);
      RankSorted(tally);
      PrefixDominates(ranked, Min(TOP, |ranked|), x);
    }
  }

  /** When the rows contribute at most ten distinct routes, the view lists every one of them. */
  lemma PopularRoutesComplete(rows: seq<Row>)
    requires |RoutesSeen(rows)| <= TOP
    ensures forall i :: 0 <= i < |rows| && RouteOf(rows[i]).Some? ==>
      exists e :: e in PopularRoutes(Table(rows)).value && e.route == RouteOf(rows[i]).value
  {
    var labels := Labels(rows);
    var tally := Tally(labels);
    var ranked := Rank(tally);
    TallyExactly(labels);
    LabelsAreRoutesSeen(rows);
    RankPermutes(tally);
    assert PopularRoutes(Table(rows)).value == ranked;
    forall i | 0 <= i < |rows| && RouteOf(rows[i]).Some?
      ensures exists e :: e in ranked && e.route == RouteOf(rows[i]).value
    {
      var l := RouteOf(rows[i]).value;
      assert l in RoutesSeen(rows);
      var e :| e in tally && e.route == l;
      assert e in multiset(ranked);
    }
  }

  /** A route column holding one label twice ranks as a single entry of count two. */
  lemma RankTwice(route: string)
    ensures Rank(Tally([route, route])) == [RouteCount(route, 2)]
  {
    assert [route, route][..1] == [route];
    assert [route][..0] == [];
    assert Uniques([route]) == [route];
    assert Uniques([route, route]) == [route];
    assert multiset([route, route])[route] == 2;
    assert Tally([route, route]) == [RouteCount(route, 2)];
  }

  /** Two rows contributing the same route fill the route column with that label twice. */
  lemma LabelsTwice(a: Row, b: Row, route: string)
    requires RouteOf(a) == Some(route) && RouteOf(b) == Some(route)
    ensures Labels([a, b]) == [route, route]
  {
    assert [a, b][..1] == [a];
    assert [a][..0] == [];
    assert Series.Collect([a], RouteOf) == [route];
  }

  /** Two rows contributing the same route make a single entry of count two. */
  lemma SameRouteTwice(a: Row, b: Row, route: string)
    requires RouteOf(a) == Some(route) && RouteOf(b) == Some(route)
    ensures PopularRoutes(Table([a, b])) == Success([RouteCount(route, 2)])
  {
    LabelsTwice(a, b, route);
    RankTwice(route);
  }

  /** Two aircraft from one country whose callsigns share their first three characters make one route of count two. */
  lemma PopularRoutesExample()
    ensures var a := Row(Some("a1"), Some(Str("UAL123  ")), Some("United States"), None, None,
        None, None, None, None, None, None, None, None, None, None, None, None);
      var b := a.(icao24 := Some("b2"), callsign := Some(Str("UAL9")));
      PopularRoutes(Table([a, b])) == Success([RouteCount("United States ➝ UAL", 2)])
  {
    var a := Row(Some("a1"), Some(Str("UAL123  ")), Some("United States"), None, None,
        None, None, None, None, None, None, None, None, None, None, None, None);
    var b := a.(icao24 := Some("b2"), callsign := Some(Str("UAL9")));
    var route := "United States ➝ UAL";
    assert "UAL123  "[..3] == "UAL" && "UAL9"[..3] == "UAL";
    assert "United States" + ARROW + "UAL" == route;
    SameRouteTwice(a, b, route);
  }
}
