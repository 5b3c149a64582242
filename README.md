# Airline demand dashboard: snapshot transforms in Dafny

The backend of the airline demand dashboard fetches one snapshot of aircraft
states from the OpenSky `states/all` endpoint and reshapes it into small JSON
lists for the frontend. This project models three of the four transforms
in `backend/app.py` that read the snapshot, and proves what each one promises
(`speed_distribution` is left out, see "## Left out"):

- **positioned flights** (`/api/flights`): every aircraft whose callsign,
  origin country, latitude, longitude and velocity are all known, projected
  onto those five fields, in snapshot order;
- **popular routes** (`/api/popular-routes`): a route label made from the
  origin country, an arrow and the first three characters of the callsign
  (`"UNK"` when the callsign is not text). The view lists the ten most
  frequent labels with their counts, most frequent first;
- **hourly demand** (`/api/high-demand-times`): for each UTC hour 0..23, how
  many aircraft have a position timestamp in that hour. The view is empty when
  no aircraft has a timestamp.

A snapshot is a `Frame`. It is either a `Table` of `Row`s with the upstream's
seventeen positional columns, each cell an `Option`, or `NoColumns`: the
empty frame the fetch step returns when the request or the parse fails. Each
handler is a function from `Frame` to `Result`. The failure is the KeyError
that indexing a missing column raises.

Files (one module each):

- `Wrappers.dfy`: `Option` and `Result`.
- `Series.dfy`: the column operations the transforms share. `Collect` drops
  missing cells and maps the rest (`dropna` plus a derived column). `Kept` lists
  the positions of the rows that survive. The lemmas relate the two, count
  what survives and show that collecting keeps order and is idempotent.
- `Snapshot.dfy`: the row layout, the frame, the coercion of `time_position`
  to a timestamp and the UTC hour of a timestamp.
- `Flights.dfy`, `Routes.dfy`, `Demand.dfy`: one transform each.

Two behaviours of the code shape the model:

- A failed fetch yields a frame with no columns, and all three transforms then
  index a missing column and raise KeyError (backend/app.py lines 37, 44 and
  65). The model returns `Failure(MissingColumns(...))` for `NoColumns`.
- `value_counts` promises no order among equal counts. The model ranks with a
  stable insertion sort over labels in first-occurrence order, but no contract
  states a tie order.

## Model

| member | source | states |
|---|---|---|
| `Snapshot.ToTimestamp` | backend/app.py:27 | a raw `time_position` becomes a timestamp exactly when it is a number of seconds within pandas' Timestamp range, and keeps its value; a missing, non-numeric or out-of-range value becomes missing |
| `Snapshot.HourOf` | backend/app.py:68 | the derived hour always lies in 0..23 |
| `Snapshot.HourSlot` | backend/app.py:68 | the hour is the one-hour slot of the instant's UTC day (days start at multiples of 86400 s at or before the instant) that holds the instant, with floor semantics also before 1970 |
| `Series.Collect` | backend/app.py:37 | dropping missing cells never yields more values than rows |
| `Series.KeptExactly` | backend/app.py:37 | the kept positions are ascending, in range, and are exactly the rows whose cell is present |
| `Series.CollectAt` | backend/app.py:37 | the k-th surviving value is the one derived from the row at the k-th kept position |
| `Series.CollectAppend` | backend/app.py:37 | dropping missing cells commutes with concatenating snapshots, so the relative order of rows is kept |
| `Series.CollectIdempotent` | backend/app.py:37 | dropping missing cells a second time removes nothing |
| `Series.CollectCount` | backend/app.py:65 | the number of surviving values is the number of rows whose cell is present |
| `Series.CollectOccurrences` | backend/app.py:46 | a value occurs among the survivors once per row that yields it |
| `Series.DistinctValues` | backend/app.py:46 | a list without duplicates has as many distinct values as entries |
| `Flights.SelectColumns` | backend/app.py:37 | the `df[[...]]` projection keeps one selected row per snapshot row; `FlightsArePositionedRows` states the contents |
| `Flights.DropMissing` | backend/app.py:37 | `dropna` keeps at most as many rows, and only complete ones |
| `Flights.Records` | backend/app.py:37 | `to_dict(orient='records')` emits one record per complete row; `FlightsArePositionedRows` states the contents |
| `Flights.Flights` | backend/app.py:35-38 | the handler fails with a KeyError on the five columns exactly when the frame has no columns; otherwise it lists at most one record per row |
| `Flights.PositionedRows` | backend/app.py:37 | the ascending positions of exactly those rows that have all five fields |
| `Flights.FlightsArePositionedRows` | backend/app.py:37 | the view lists the positioned rows and no others, in snapshot order, each projected onto callsign, origin_country, latitude, longitude and velocity |
| `Flights.FlightsCount` | backend/app.py:37 | the view has exactly one record per positioned row |
| `Flights.FlightsAppend` | backend/app.py:37 | the view of two snapshots laid end to end is the two views laid end to end |
| `Flights.DropMissingIdempotent` | backend/app.py:37 | filtering already filtered rows changes nothing |
| `Flights.FlightsExample` | backend/app.py:37 | one complete aircraft state is listed with its callsign untrimmed and its latitude and longitude in the view's field order |
| `Routes.Prefix` | backend/app.py:45 | a text callsign contributes its prefix of length min(3, length); any other callsign contributes "UNK" |
| `Routes.RouteOf` | backend/app.py:44-45 | no contract of its own: its definition is the label rule (present callsign and country give country, arrow and prefix), and `Prefix`, `Frequency`, `RoutesSeen` and the lemmas below carry its properties |
| `Routes.Labels` | backend/app.py:44-45 | no contract of its own: the route column after `dropna`; `LabelsAreRoutesSeen` and `FrequencyIsMultiplicity` state what it holds |
| `Routes.UniquesExactly` | backend/app.py:46 | the distinct labels, each once, and no other value |
| `Routes.Tally` | backend/app.py:46 | no contract of its own: the counting half of `value_counts`; `TallyExactly` states its contents |
| `Routes.TallyExactly` | backend/app.py:46 | one entry per distinct label, with routes pairwise distinct, each count the label's number of occurrences, and as many entries as distinct labels |
| `Routes.Insert` | backend/app.py:46 | one insertion step of the descending sort grows the list by one; `InsertPermutes`, `InsertSorted`, `InsertMembers` and `InsertDistinct` state the rest |
| `Routes.Rank` | backend/app.py:46 | the descending sort of `value_counts` keeps the number of entries; `RankPermutes`, `RankSorted` and `RankDistinct` state the rest |
| `Routes.InsertPermutes` | backend/app.py:46 | inserting adds exactly the inserted entry and loses none |
| `Routes.RankPermutes` | backend/app.py:46 | ranking is a permutation of the tally |
| `Routes.InsertSorted` | backend/app.py:46 | inserting into a list sorted by descending count keeps it sorted |
| `Routes.RankSorted` | backend/app.py:46 | the ranking is sorted by descending count |
| `Routes.InsertMembers` | backend/app.py:46 | insertion introduces no entry other than the inserted one |
| `Routes.InsertDistinct` | backend/app.py:46 | inserting an entry with a new route keeps routes distinct |
| `Routes.RankDistinct` | backend/app.py:46 | ranking a tally with distinct routes keeps them distinct |
| `Routes.PopularRoutes` | backend/app.py:42-48 | the handler fails with a KeyError on callsign and origin_country exactly when the frame has no columns |
| `Routes.FrequencyIsMultiplicity` | backend/app.py:44-46 | the number of times a label occurs in the route column is the number of rows contributing it |
| `Routes.LabelsAreRoutesSeen` | backend/app.py:44-45 | the route column holds exactly the labels the rows contribute |
| `Routes.PopularRoutesRanked` | backend/app.py:46-47 | the view has at most ten entries (exactly how many is `PopularRoutesLength`), no route twice, and counts that never increase along the list |
| `Routes.PopularRoutesLength` | backend/app.py:46-47 | `head(10)` keeps exactly min(10, number of distinct routes seen) entries |
| `Routes.ListedFromTally` | backend/app.py:46 | every listed entry comes from the tally |
| `Routes.PopularRoutesCounts` | backend/app.py:46 | each listed count equals the number of rows contributing that route, and is at least 1 |
| `Routes.PrefixDominates` | backend/app.py:46 | in a list sorted by descending count, an entry missing from a prefix counts no more than any entry of the prefix |
| `Routes.PopularRoutesAreMostFrequent` | backend/app.py:46 | no route left out of the view is more frequent than any route in it |
| `Routes.PopularRoutesComplete` | backend/app.py:46 | when the rows contribute at most ten distinct routes, every one of them is listed |
| `Routes.LabelsTwice` | backend/app.py:44-45 | two rows contributing the same route fill the route column with that label twice |
| `Routes.RankTwice` | backend/app.py:46 | a label occurring twice is tallied and ranked as one entry of count two |
| `Routes.SameRouteTwice` | backend/app.py:46-47 | two rows with the same route make a single entry of count two |
| `Routes.PopularRoutesExample` | backend/app.py:44-48 | callsigns "UAL123  " and "UAL9" from the United States give the entry ("United States ➝ UAL", 2) |
| `Demand.HourOfRow` | backend/app.py:68 | no contract of its own: a row with a timestamp yields `HourOf` of it, a row without one yields nothing; `Hours`, `HoursCount` and `HighDemandHours` carry its properties |
| `Demand.Hours` | backend/app.py:65-68 | every hour of the hour column lies in 0..23 |
| `Demand.Histogram` | backend/app.py:69 | the reindexed counts always have 24 entries |
| `Demand.HighDemand` | backend/app.py:63-71 | the handler fails with a KeyError on time_position exactly when the frame has no columns |
| `Demand.HoursCount` | backend/app.py:65 | the hour column has one entry per row with a timestamp |
| `Demand.TotalBump` | backend/app.py:69 | raising one count by one raises the total by one |
| `Demand.TotalZero` | backend/app.py:69 | counts that are all zero total zero |
| `Demand.HistogramTotal` | backend/app.py:69 | the 24-hour histogram of a list of hours accounts for each hour exactly once |
| `Demand.HighDemandEmpty` | backend/app.py:65-67 | the view is empty exactly when no row has a timestamp |
| `Demand.HighDemandHours` | backend/app.py:68-70 | when some row has a timestamp, the view has 24 entries for hours 0..23 in ascending order, each counting the rows whose timestamp falls in that UTC hour, zero-count hours included |
| `Demand.HighDemandTotal` | backend/app.py:69-70 | when some row has a timestamp, the counts add up to the number of rows with a timestamp |
| `Demand.HighDemandExample` | backend/app.py:68-70 | a single report at 1700000000 s (22:13:20 UTC) gives 24 entries with hour 22 counting one and hour 21 counting zero |

## Left out

- `get_flight_data` (backend/app.py:14-31). The HTTP request, the JSON parse and the construction of the table (lines 16-27) form the fetch step. The model takes its outcome as an abstract `Frame`. The only part it keeps is the `time_position` coercion at line 27 (`Snapshot.ToTimestamp`).
- `speed_distribution` (backend/app.py:51-59). It bins velocities with `pd.cut(bins=10)`, whose edges and labels are floating-point values and formatted strings.
- `price_trends` (backend/app.py:74-79). Its prices are random floats rounded to two decimals. Apart from its fixed list of ten route names it has nothing to state.
- The Flask application, `jsonify`, the CORS setup and the server start (backend/app.py:1-11, 82-86). These are framework wiring.
- Cell values are modelled abstractly: numbers as `real`, and NaN folded into a missing cell. The callsign is text, a number or a boolean. JSON lists or objects in a cell are not modelled.
- `Routes.RouteOf`: the origin country is text whenever it is present, as in OpenSky's schema. A non-text country would make the string concatenation raise, and the model does not capture that.
- `Routes.PopularRoutes`: pandas' string accessor raises when it is used on a callsign column with no text at all (every remaining callsign a number, or every one a boolean). The model instead labels such callsigns "UNK", as it does for mixed columns.
- `Snapshot.ToTimestamp`: fractional seconds and numeric strings are not modelled. The raw value is an integer or not numeric. The Timestamp bound is stated in whole seconds.
- `Routes.PopularRoutes`: the order among equally frequent routes is not stated, because `value_counts` does not promise one.
