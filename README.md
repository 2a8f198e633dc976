# opentransit-metrics core, in Dafny

This project models the in-memory logic of the opentransit-metrics analysis
scripts and proves properties of it. It has five parts:

- **Eclipses and nadirs** (`eclipses.dfy`, module `Eclipses`). For one stop,
  each vehicle position becomes a (TIME, VID, DIST) sample. Samples 750 m or
  farther from the stop are dropped. Each vehicle's remaining samples are
  sorted by time and cut into *eclipses* wherever two consecutive samples are
  more than 30 minutes apart. An eclipse yields one *nadir*: the (VID, TIME)
  of its first sample of minimum distance.
- **The `BusData` store** (`busdata.dfy`, module `BusStore`). This is a nested
  table route → stop → record, each record holding a list of eclipse entries.
  `append` merges another table into the store in place: it extends the
  eclipse lists of (route, stop) pairs present on both sides and inserts
  missing routes and stops.
- **Offline table builders** (`data_cleaning.dfy`, module `DataCleaning`).
  - The stop table takes each stop's direction and its ordinal from the
    route metadata, and drops stops that have no direction.
  - The vehicle table flattens every route state's vehicles into rows tagged
    with the state's `vtime`.
- **Wait times and headways** (`wait_times.dfy`, module `WaitTimes`).
  - The right-biased search turns passenger instants into waits for the next
    bus.
  - The snapshot loop builds the arrival times and the headway list, and
    then accumulates the sum, the count and the sum of squares.
- **Trip-file parsing** (`trip_parsing.dfy`, module `TripParsing`). Each line
  holds a key tuple and a JSON list of stops. Parsing works in these steps:
  1. The key text is sliced out and split into four key fields.
  2. Each stop is overlaid with those key fields to make one row.
  3. The numeric columns are reduced to their decimal digits.

Two supporting modules complete the project:

- `dicts.dfy` (module `Dicts`) models Python's insertion-ordered
  dictionaries. A dictionary is a key order plus a map. The module provides
  assignment, the `for k, v in e.items()` merge loop, `{**d, **e}` and
  `dict(pairs)`.
- `common.dfy` (module `Common`) holds `Option`, `Distinct`, `Flatten`
  and `Reverse`.

Everything is modelled on exact values:

- Eclipse times are integers (milliseconds); distances and coordinates are `real`.
- In the wait-time script, snapshot times are integers (milliseconds);
  arrival times, headways and waits are `real` minutes, divided by 60000
  exactly. Headings are `real`.
- Trip-file fields, times, headings and coordinates included, are text;
  the cleanup keeps their digit strings.
- Strings are `seq<char>`.

The geodesic distance, the random draws and the JSON decoder are parameters
of the operations that use them.

## Model

| member | source | states |
|---|---|---|
| Dicts.Put | mykelu/busdata.py:56-58 | `d[k] = v`: the map gains or overrides `k`; an existing key keeps its position and a new key goes last. |
| Dicts.Merge | mykelu/busdata.py:48-58 | The merge loop: every key of either side is present. A key of the other side holds the combined value where the old value is live, and the other side's value otherwise. Keys of only the old side are untouched. Old keys keep their order and new keys follow in the other side's order. |
| Dicts.MergePrefixAt | mykelu/busdata.py:48-58 | After `n` rounds of the merge loop, the keys seen so far hold their merged value, computed against the original table, and all other old keys are untouched. |
| Dicts.MergePrefixKeys | mykelu/busdata.py:48-58 | After `n` rounds, the key order is the old order followed by the new keys seen so far. |
| Dicts.Update | mykelu/parse_trip_json.py:24 | `{**d, **e}`: the map is `d` overridden by `e`, and the keys are those of `d` followed by the new keys of `e`. |
| Dicts.FromPairsSpec | mykelu/parse_trip_json.py:19 | A dict comprehension over pairs: for a key, the value is that of the last pair carrying it. |
| Dicts.FromPairsDomain | mykelu/parse_trip_json.py:19 | The comprehension has a key exactly when some pair carries it. |
| Dicts.FromDistinctPairs | mykelu/parse_trip_json.py:19 | With distinct keys, the comprehension keeps every pair, in order. |
| Dicts.FromPairs | mykelu/parse_trip_json.py:19 | `dict(pairs)` or a comprehension over pairs, also used for each decoded stop object. `FromPairsSpec`, `FromPairsDomain` and `FromDistinctPairs` state its keys, values and order. |
| Dicts.Empty | mykelu/busdata.py:36 | `{}`: a well-formed dictionary with no keys. |
| DataCleaning.NormalizeStopsAppend | mykelu/data_cleaning.py:43-48 | The stops of the route elements are concatenated in order. |
| DataCleaning.NormalizeStops | mykelu/data_cleaning.py:43-48 | `json_normalize(data, record_path=['stops'])`. `NormalizeStopsAppend` states that route elements are concatenated in order. |
| DataCleaning.DirectionIdsDomain | mykelu/data_cleaning.py:51-53 | A stop has a DID exactly when some direction lists it. |
| DataCleaning.DirectionIdsLastWins | mykelu/data_cleaning.py:51-53 | A stop's DID is the id of the last direction, in metadata order, that lists it. |
| DataCleaning.DirectionIds | mykelu/data_cleaning.py:51-53 | The stop-to-direction comprehension. `DirectionIdsDomain` and `DirectionIdsLastWins` state which stops it holds and which direction each gets. |
| DataCleaning.OrdinalsDomain | mykelu/data_cleaning.py:59-61 | A stop has an ordinal exactly when the metadata stop list holds its id. |
| DataCleaning.OrdinalsLastWins | mykelu/data_cleaning.py:59-61 | A stop's ordinal is the index of the last occurrence of its id in the metadata stop list. |
| DataCleaning.Ordinals | mykelu/data_cleaning.py:59-61 | The stop-to-ordinal comprehension over `enumerate`. `OrdinalsDomain` and `OrdinalsLastWins` state which stops it holds and which index each gets. |
| DataCleaning.AnnotateStops | mykelu/data_cleaning.py:51-61 | Each row comes from an input stop that has a direction. Every stop with a direction yields its row, with ORD missing when the stop has no ordinal. There are never more rows than stops. |
| DataCleaning.AnnotateStopsAppend | mykelu/data_cleaning.py:56 | Dropping the stops without a direction keeps the remaining stops in input order. |
| DataCleaning.ProduceStopsDf | mykelu/data_cleaning.py:42-63 | `produce_stops_df`: every row's DID is the direction map's entry for its stop, and ORD is present exactly when the ordinal map has the stop, holding that ordinal. Every stop with a direction appears. |
| DataCleaning.StatesRowsCount | mykelu/data_cleaning.py:67-69 | The rows of a route's states number its vehicle entries. |
| DataCleaning.StatesRowsOrigin | mykelu/data_cleaning.py:67-69 | Every row of a route's states is one of its vehicles, tagged with the `vtime` of the state that lists it. |
| DataCleaning.StateRows | mykelu/data_cleaning.py:67-69 | The rows of one route state. `StatesRowsCount` and `StatesRowsOrigin` state their number and origin. |
| DataCleaning.StatesRows | mykelu/data_cleaning.py:67-69 | The rows of a route's states. `StatesRowsCount`, `StatesRowsOrigin` and `StatesRowsAppend` state their number, origin and order. |
| DataCleaning.StatesRowsAppend | mykelu/data_cleaning.py:67-69 | Route states are flattened in order. |
| DataCleaning.ProduceBusesDf | mykelu/data_cleaning.py:66-75 | `produce_buses_df`. `ProduceBusesDfCount`, `ProduceBusesDfAppend` and `ProduceBusesDfOrigin` state its row count, its order and where each row comes from. |
| DataCleaning.ProduceBusesDfCount | mykelu/data_cleaning.py:66-75 | `produce_buses_df` yields one row per vehicle entry across all routes and route states. |
| DataCleaning.ProduceBusesDfAppend | mykelu/data_cleaning.py:66-75 | Routes are flattened in order. |
| DataCleaning.ProduceBusesDfOrigin | mykelu/data_cleaning.py:66-75 | Every row is a vehicle of some route state, carrying that state's `vtime` as TIME. |
| Eclipses.Measure | mykelu/eclipses.py:107-113 | The (TIME, VID, DIST) frame, with DIST given by the distance parameter for each position. `FindEclipses` states what is built from it. |
| Eclipses.Nearby | mykelu/eclipses.py:116 | The 750 m filter. `NearbyKeeps` and `NearbyAppend` state what it keeps and in what order. |
| Eclipses.NearbyKeeps | mykelu/eclipses.py:116 | The 750 m filter keeps every sample strictly closer than 750 m, as often as it occurs, and nothing else. |
| Eclipses.NearbyAppend | mykelu/eclipses.py:116 | The filter keeps the order of the samples it keeps. |
| Eclipses.OfVehicle | mykelu/eclipses.py:97 | `eclipses[eclipses['VID'] == bus_id]` keeps exactly the samples of that vehicle, with their multiplicity. |
| Eclipses.UniqueVids | mykelu/eclipses.py:95 | `unique()` lists every vehicle id of the samples exactly once. |
| Eclipses.UniqueVidsFirstAppearance | mykelu/eclipses.py:95 | Vehicle ids are listed in order of first appearance: before any sample of a later-listed vehicle there is a sample of every earlier-listed one. |
| Eclipses.InsertByTime | mykelu/eclipses.py:97 | Inserting a sample into a time-sorted sequence keeps it sorted and adds exactly that sample. |
| Eclipses.SortByTime | mykelu/eclipses.py:97 | `sort_values('TIME')` yields a time-sorted permutation of the vehicle's samples. |
| Eclipses.SplitAtGaps | mykelu/eclipses.py:99-104 | The groups are non-empty and concatenate back to the input. |
| Eclipses.SplitAtGapsIsGapSplit | mykelu/eclipses.py:100-104 | Inside a group no sample is more than 1,800,000 ms after its predecessor (a gap of exactly the threshold stays in the group). Each group starts more than the threshold after the previous group ends. |
| Eclipses.GapSplitUnique | mykelu/eclipses.py:100-104 | Any cut of a sequence into non-empty runs exactly at its gaps is the one that `groupby` on the running gap count produces. |
| Eclipses.VehicleEclipses | mykelu/eclipses.py:97-104 | One vehicle's groups: its samples sorted by time and cut at the gaps. `EclipsesOfVehicle` and `GapSplitUnique` state what they are. |
| Eclipses.GroupsFor | mykelu/eclipses.py:95-104 | The groups of a list of vehicles, vehicle after vehicle. `SplitEclipses` is proved to compute it over the `unique()` ids. |
| Eclipses.EclipsesOf | mykelu/eclipses.py:94-105 | What `split_eclipses` returns. `EclipsesPreserveSamples`, `EclipsesAreEclipses`, `EclipsesOfVehicle` and `EclipsesFollowFirstAppearance` state its properties. |
| Eclipses.EclipsesPreserveSamples | mykelu/eclipses.py:94-105 | No sample is lost or duplicated by `split_eclipses`. |
| Eclipses.EclipsesAreEclipses | mykelu/eclipses.py:95-104 | Every eclipse holds samples of one vehicle only, in time order, with no gap above the threshold, all drawn from the input. |
| Eclipses.EclipsesOfVehicle | mykelu/eclipses.py:97-104 | A vehicle's eclipses, in emitted order, are the gap split of its samples sorted by time. They concatenate to exactly those samples, and consecutive eclipses are separated by more than the threshold. |
| Eclipses.EclipsesFollowFirstAppearance | mykelu/eclipses.py:95-104 | When a later eclipse belongs to a different vehicle, the earlier eclipse's vehicle appeared first in the input. |
| Eclipses.SplitEclipses | mykelu/eclipses.py:90-105 | `split_eclipses`: the loop over vehicle ids returns the concatenated, per-vehicle gap splits. The lemmas above state what these are. |
| Eclipses.FindEclipses | mykelu/eclipses.py:86-120 | `find_eclipses`: every eclipse is a one-vehicle, time-ordered run with no gap above the threshold, and all its samples are closer than 750 m. |
| Eclipses.ArgMin | mykelu/eclipses.py:129 | `argmin()` is the first index of the minimum distance. |
| Eclipses.FirstMinOfReversed | mykelu/eclipses.py:133-134 | Read back to front, the first minimum is the last minimum of the original order. |
| Eclipses.ReversedArgMinIsLastMin | mykelu/eclipses.py:133-134 | The argmin of the reversed eclipse picks the last sample of minimum distance. |
| Eclipses.CalcNadir | mykelu/eclipses.py:128-140 | `calc_nadir` returns the first sample of minimum distance in every branch, so its TIME and VID are the forward argmin's. |
| Eclipses.CalcNadirAverages | mykelu/eclipses.py:137-140 | When the first and last minima fall at different times, the returned distance is the mean of the two minimum values. |
| Eclipses.NadirOf | mykelu/eclipses.py:144 | The (VID, TIME) of `calc_nadir`'s row. `CalcNadir` and `FindNadirs` state that it is the first sample of minimum distance. |
| Eclipses.FindNadirs | mykelu/eclipses.py:142-146 | `find_nadirs`: one (VID, TIME) row per eclipse, in eclipse order, taken from the eclipse's first sample of minimum distance. |
| BusStore.ExtendStop | mykelu/busdata.py:54 | `stop['eclipses'].extend(...)`. `AppendExtendsSharedStop` states that only the eclipse list changes, by concatenation. |
| BusStore.RouteIsTruthy | mykelu/busdata.py:50 | `if route:`. An empty route is falsy, and `AppendInsertsOrKeepsRoutes` states that it is replaced like a missing one. |
| BusStore.MergeStops | mykelu/busdata.py:51-56 | The inner loop of `append` on one route. `AppendInsertsOrKeepsStops` and `AppendExtendsSharedStop` state its result. |
| BusStore.MergeTables | mykelu/busdata.py:48-58 | What `append` makes of the table. The `AppendX` lemmas and `BusData.Append` state its result. |
| BusStore.AppendExtendsSharedStop | mykelu/busdata.py:51-54 | For a (route, stop) pair on both sides, the eclipses become the old list followed by the other's list. Direction, order, lat and lon keep their old values. |
| BusStore.AppendInsertsOrKeepsStops | mykelu/busdata.py:51-56 | In a present, non-empty route, the stop set is the union of both sides. A missing stop is inserted as the other side has it. A stop not mentioned by the other side is unchanged. Old stops keep their order and new ones follow. |
| BusStore.AppendInsertsOrKeepsRoutes | mykelu/busdata.py:48-58 | The route set is the union of both sides. A route that is missing or empty is replaced by the other side's route. A route not mentioned by the other side is unchanged. |
| BusStore.AppendRouteOrder | mykelu/busdata.py:38-58 | After `append`, `routes()` lists the old routes in their order, then the new route ids in the other side's order. |
| BusStore.AppendNothing | mykelu/busdata.py:48 | `append({})` changes nothing. |
| BusStore.AppendIntoEmpty | mykelu/busdata.py:63-65 | Appending into an empty store yields exactly the other table: what `read_file` relies on. |
| BusStore.BusData.constructor | mykelu/busdata.py:36 | `BusData()` holds an empty table. |
| BusStore.BusData.Routes | mykelu/busdata.py:38-40 | `routes()` lists each route id once, exactly the ids present. |
| BusStore.BusData.Stops | mykelu/busdata.py:42-44 | `stops(route_id)` lists each stop id of the route once. An absent route has no stops. |
| BusStore.BusData.Append | mykelu/busdata.py:46-58 | The nested loops leave the table equal to the merge of the old table with the other. The `AppendX` lemmas state what that merge is. |
| BusStore.FreshStoreIsEmpty | mykelu/busdata.py:36-44 | A fresh store lists no routes, and no stops for any route. |
| WaitTimes.MaxOf | eddy/2018_11_9_ttc_25b_1600_1700_nov_8_wait_time_analysis.py:25 | `arrival_times.max()` is an element not exceeded by any arrival. |
| WaitTimes.SearchRight | eddy/2018_11_9_ttc_25b_1600_1700_nov_8_wait_time_analysis.py:28 | `searchsorted(side='right')` on sorted arrivals: every arrival before the index is at or below the instant, and every arrival from it on is strictly above. |
| WaitTimes.SearchRightPastMax | eddy/2018_11_9_ttc_25b_1600_1700_nov_8_wait_time_analysis.py:28-30 | The search runs off the end exactly for an instant at or after the latest arrival. |
| WaitTimes.PassengerTime | eddy/2018_11_9_ttc_25b_1600_1700_nov_8_wait_time_analysis.py:25 | `arrival_times.max() * rand.rand(n)` with the draws as input. `SimulateWaitTimes` and `SimulateWaitTimesDefined` state the waits computed from it. |
| WaitTimes.SimulateWaitTimes | eddy/2018_11_9_ttc_25b_1600_1700_nov_8_wait_time_analysis.py:19-30 | It fails exactly on no arrivals or on some passenger at or after the last arrival. Otherwise it gives one wait per passenger. Each wait is strictly positive and reaches an arrival time: the first one strictly after the passenger. |
| WaitTimes.SimulateWaitTimesDefined | eddy/2018_11_9_ttc_25b_1600_1700_nov_8_wait_time_analysis.py:25-30 | With a positive latest arrival and draws in [0, 1), every passenger finds a bus, and every wait is strictly positive. |
| WaitTimes.Arrivals | eddy/2018_11_9_ttc_25b_1600_1700_nov_8_wait_time_analysis.py:47-53 | The `arrival_times` the loop builds. `HeadwayLoop` and `CountArrivals` state that it is what the loop computes, and `HeadwaysCount` relates its length to the headways. |
| WaitTimes.Headways | eddy/2018_11_9_ttc_25b_1600_1700_nov_8_wait_time_analysis.py:55-61 | The `difference` entries the loop appends. `HeadwayLoop` states that it is what the loop computes, and `HeadwaysTelescope` gives its sum. |
| WaitTimes.PrevAfter | eddy/2018_11_9_ttc_25b_1600_1700_nov_8_wait_time_analysis.py:52-61 | The final `prev`: the last qualifying snapshot time. `HeadwaysTelescope` and `DifferenceSum` use it as the end of the telescoping sum. |
| WaitTimes.HeadwaysCount | eddy/2018_11_9_ttc_25b_1600_1700_nov_8_wait_time_analysis.py:47-61 | The loop appends one headway entry per arrival time. |
| WaitTimes.HeadwaysTelescope | eddy/2018_11_9_ttc_25b_1600_1700_nov_8_wait_time_analysis.py:55-61 | The headways add up to the last qualifying snapshot time minus the starting `prev`, in minutes. |
| WaitTimes.Qualifying | eddy/2018_11_9_ttc_25b_1600_1700_nov_8_wait_time_analysis.py:48-51 | The number of vehicles with `heading > 300`. `CountArrivals` states that the vehicle loop's counter computes it. |
| WaitTimes.CountArrivals | eddy/2018_11_9_ttc_25b_1600_1700_nov_8_wait_time_analysis.py:48-53 | The vehicle loop counts vehicles with heading above 300, appends the snapshot time once for each, and sets `current` to that time when there is one. |
| WaitTimes.AppendHeadways | eddy/2018_11_9_ttc_25b_1600_1700_nov_8_wait_time_analysis.py:55-61 | The `range(times)` loop appends `current - prev` and then `times - 1` zeros, and sets `prev` to `current`. It does nothing when `times` is 0. |
| WaitTimes.HeadwayLoop | eddy/2018_11_9_ttc_25b_1600_1700_nov_8_wait_time_analysis.py:43-61 | The snapshot loop from index 1 builds the arrival times and the headway list after the initial 0. As a result, the headway list has one more entry than the arrivals. |
| WaitTimes.Stats | eddy/2018_11_9_ttc_25b_1600_1700_nov_8_wait_time_analysis.py:62-71 | The accumulator loops: `sum` is the sum of the headways, `count` their number, and `sum_squares` the sum of their squares. |
| WaitTimes.DifferenceSum | eddy/2018_11_9_ttc_25b_1600_1700_nov_8_wait_time_analysis.py:43-67 | The summed `difference` equals the last qualifying snapshot time minus the hard-coded first `prev`, in minutes. |
| TripParsing.Find | mykelu/parse_trip_json.py:17 | `str.find`: -1 exactly when there is no occurrence, otherwise the lowest index of one. |
| TripParsing.ReplaceQuotes | mykelu/parse_trip_json.py:18 | `replace("'", '"')` keeps the length and leaves no single quote in the text; `ReplaceQuotesCount` states that each single quote becomes a double quote. |
| TripParsing.ReplaceQuotesSlice | mykelu/parse_trip_json.py:18-20 | Rewriting the quotes of a slice gives the same slice of the rewritten line, so the key and payload texts are slices of the line with its quotes rewritten. |
| TripParsing.ReplaceQuotesWithoutQuotes | mykelu/parse_trip_json.py:18 | Text that holds no single quote is left unchanged. |
| TripParsing.ReplaceQuotesCount | mykelu/parse_trip_json.py:18 | Every single quote becomes a double quote: the result's double quotes are the text's double and single quotes, and every other character occurs as often as before. With `ReplaceQuotesSlice` this fixes the rewritten key and payload texts. |
| TripParsing.SplitOn | mykelu/parse_trip_json.py:18 | `split(", ")` yields one piece exactly when the separator does not occur, and otherwise the first piece ends at the separator's first occurrence. The pieces joined with the separator give the text back, and no piece contains the separator. |
| TripParsing.PySlice | mykelu/parse_trip_json.py:18-20 | Python slicing. `KeyText` and `PayloadText` state its result for each position of the separator. |
| TripParsing.KeyText | mykelu/parse_trip_json.py:17-18 | The key text is `line[2:i]` for `"):"` first at `i >= 2`. With no separator, the end index -1 drops the last character, and a line shorter than 3 gives nothing. A separator before index 2 gives nothing. Quotes are rewritten in every case. |
| TripParsing.PayloadText | mykelu/parse_trip_json.py:17-20 | The payload is `line[i+3 : len-2]` with quotes rewritten, and nothing when that range is empty. With no separator, the start index is 2, and a line shorter than 4 gives nothing. |
| TripParsing.KeyDict | mykelu/parse_trip_json.py:13-19 | The key values are assigned positionally to `vehicle_id, route, pattern, start_time`, truncated to the shorter of the two. |
| TripParsing.LineKeys | mykelu/parse_trip_json.py:17-19 | The key fields of a line. `KeyText`, `SplitOn` and `KeyDict` state how they are obtained. |
| TripParsing.Overlay | mykelu/parse_trip_json.py:24 | `{**stop, **key_dict}`. `OverlayFields` states its fields, values and order. |
| TripParsing.OverlayFields | mykelu/parse_trip_json.py:24 | The row has the fields of both, and a key field wins on a name clash. The stop's own fields keep its values and order, and absent key fields follow. |
| TripParsing.LineRows | mykelu/parse_trip_json.py:17-24 | The rows of one line. `LineRowsSpec` states what they are. |
| TripParsing.LineRowsSpec | mykelu/parse_trip_json.py:17-24 | A line fails exactly when its stop list does not decode. Otherwise it yields one row per decoded stop, in order. Each row's fields are the stop's fields overridden and extended by the line's key fields. The stop's own fields come first, in their order, followed by the key fields the stop lacks. |
| TripParsing.JoinParts | mykelu/parse_trip_json.py:15-24 | Accumulating the line results, stopping at the first failure. `JoinPartsFailure` and `JoinPartsFlatten` state when it fails and what it yields. |
| TripParsing.JoinPartsFailure | mykelu/parse_trip_json.py:15-24 | Joining line results fails exactly when some line fails. |
| TripParsing.JoinPartsFlatten | mykelu/parse_trip_json.py:15-24 | When no line fails, the join is the lines' results concatenated in order. |
| TripParsing.JoinPartsValid | mykelu/parse_trip_json.py:15-24 | Joining well-formed rows gives well-formed rows. |
| TripParsing.TripRows | mykelu/parse_trip_json.py:15-24 | All rows of the file. It holds well-formed rows. `TripRowsFailure`, `TripRowsAreLineRows` and `CollectRows` state what they are. |
| TripParsing.TripRowsFailure | mykelu/parse_trip_json.py:15-24 | Parsing the file fails exactly when some line's stop list does not decode. |
| TripParsing.TripRowsAreLineRows | mykelu/parse_trip_json.py:15-26 | Otherwise the rows are the lines' rows concatenated in file order, one per stop. |
| TripParsing.AppendStops | mykelu/parse_trip_json.py:23-24 | The stop loop keeps the earlier rows and appends one overlaid row per stop, in order. |
| TripParsing.CollectRows | mykelu/parse_trip_json.py:15-24 | The loop over lines computes exactly the file's rows, and stops on the first line whose stop list fails to decode. |
| TripParsing.Digits | mykelu/parse_trip_json.py:30 | `re.sub(r'\D', '', x)` leaves only digits and never lengthens the text. |
| TripParsing.DigitsCount | mykelu/parse_trip_json.py:30 | Every digit of the text is kept as often as it occurs, and every other character is removed. With `DigitsAppend` this fixes the result: the digits of the text in their original order. |
| TripParsing.DigitsAppend | mykelu/parse_trip_json.py:30 | The cleanup keeps the digits in their original order: it works piecewise over concatenation. |
| TripParsing.DigitsKeepsDigitStrings | mykelu/parse_trip_json.py:30 | A string is left unchanged exactly when it holds only digits. |
| TripParsing.DigitsIdempotent | mykelu/parse_trip_json.py:30 | Cleaning twice is cleaning once. |
| TripParsing.CleanRow | mykelu/parse_trip_json.py:29-30 | Cleaning columns of a row keeps its fields and their order. |
| TripParsing.CleanRowFields | mykelu/parse_trip_json.py:29-30 | Each cleaned column holds the digits of its old text, and every other field is unchanged. |
| TripParsing.CleanColumn | mykelu/parse_trip_json.py:30 | One column pass keeps the number of rows and each row's fields. |
| TripParsing.CleanAll | mykelu/parse_trip_json.py:29-30 | The digit cleanup of the table. `CleanAllSpec` states when it succeeds and what each field becomes. |
| TripParsing.CleanAllSpec | mykelu/parse_trip_json.py:26-30 | The cleanup succeeds exactly on a non-empty table whose rows all have the three numeric columns. Each row then keeps its field order, the three columns hold their digits, and every other field is as it was. |
| TripParsing.CleanRoundsAll | mykelu/parse_trip_json.py:29-30 | The three rounds of the column loop, in closed form, are the whole cleanup. |
| TripParsing.CleanColumns | mykelu/parse_trip_json.py:29-30 | The column loop computes the cleanup, failing on an empty table or a missing column. |
| TripParsing.LoadTripsDf | mykelu/parse_trip_json.py:5-30 | `load_trips_df` on the file's lines fails when a line fails to decode. Otherwise it is the cleanup of the parsed rows. |

## Left out

- `query_graphql`, `produce_stops`, `produce_buses`, and `mykelu/get_stops.py`
  and `mykelu/query.py` entirely: these are HTTP requests and orchestration.
  The offline builders of `mykelu/data_cleaning.py` are modelled instead.
- The geodesic distance of `find_eclipses` is a function parameter. The cast
  of TIME to `int64` is the identity because times are integers.
- `np.random.RandomState` is not modelled: the draws are an input sequence.
  The model does not require them to lie in [0, 1); `SimulateWaitTimesDefined`
  assumes it.
- The float statistics and prints of the wait-time script (lines 73-82) and
  its print-only loop (lines 32-40) are left out. `datetime` formatting is
  left out too.
- Floating point in general: distances, eclipse coordinates, divisions by
  60000 and the averaging in `calc_nadir` are exact `real` arithmetic. Under exact
  arithmetic the averaging branch returns the minimum distance itself, because
  both minima are equal. Float rounding of that mean is not modelled.
- File and JSON I/O are left out:
  - `BusData.read_file` and `write_file` are not modelled; their reliance on
    `append` into an empty store is `AppendIntoEmpty`.
  - The trip file is given as its sequence of lines.
  - `json.loads` is a decoder parameter that returns each stop's members as
    text.
- JSON value types: stop fields are text. A non-text value reaching `re.sub`
  would raise an error; that case is not modelled.
- `re.sub(r'\D', '', x)` is modelled on ASCII digits only; Unicode decimal
  digits are not recognised.
- TripParsing.LoadTripsDf: the numeric conversions of lines 30-36 of
  `mykelu/parse_trip_json.py` are not modelled. Their effects are:
  - `pd.to_numeric` on line 30 turns the digit strings into numbers, which
    drops leading zeros; the model keeps the digit strings;
  - the `category` conversion of `pattern` and `route` (lines 32-33);
  - the downcasts of line 36. These also raise a KeyError when no stop
    carries `heading`, `lat` or `lon`, and a ValueError when one of those
    fields (or an emptied numeric column) holds text that is not a number.
    On such input `LoadTripsDf` yields the cleaned rows, where the code
    raises.
- `pd.DataFrame(ret)` is modelled as the list of row dictionaries. Column
  alignment with missing values is not modelled; a row lacking a numeric
  column makes the cleanup fail.
- Eclipses.SplitEclipses: the inner `for _, group in bus.groupby(...)` append
  loop is one concatenation of the vehicle's groups.
- Eclipses.SortByTime: pandas leaves the order of equal times unspecified. The
  model sorts stably, and the split lemmas hold for any time-sorted input
  (`GapSplitUnique`).
- Eclipses.FindNadirs requires non-empty eclipses, as `argmin` raises on an
  empty frame. `split_eclipses` never produces an empty one.
- `BusData.append` aliasing: inserted routes and stops are shared with the
  caller's table in Python. The model uses value semantics.
- BusStore.StopIsTruthy: a stop record is always a non-empty dictionary, so it
  is always truthy. An empty route, by contrast, is falsy and is replaced.
- WaitTimes.SearchRight requires sorted arrivals, as `np.searchsorted` does.
  With `side='right'` the next bus is the first arrival strictly after the
  passenger: a passenger arriving together with a bus waits for the next one.
- WaitTimes.SimulateWaitTimes: the error of an index past the end, and the
  error of `max()` on no arrivals, are both `None`.
