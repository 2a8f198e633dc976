/** The offline table builders of mykelu/data_cleaning.py: the stop table
    (stop, position, direction, ordinal along the route) built from a
    fetched route list and the route's metadata, and the vehicle-position
    table flattened from the route states. */
module DataCleaning {
  import opened Common

  type StopId = string
  type DirectionId = string
  type VehicleId = string

  /** The shape of one element of the fetched `routes` list. */
  datatype RawStop = RawStop(sid: StopId, lat: real, lon: real)
  datatype RawVehicle = RawVehicle(vid: VehicleId, lat: real, lon: real, did: DirectionId)
  datatype RouteState = RouteState(vtime: int, vehicles: seq<RawVehicle>)
  datatype RouteData = RouteData(stops: seq<RawStop>, routeStates: seq<RouteState>)

  /** The route metadata: directions with their stop lists, and the route's stop list. */
  datatype Direction = Direction(id: DirectionId, stops: seq<StopId>)
  datatype StopMeta = StopMeta(id: StopId)
  datatype RouteMeta = RouteMeta(directions: seq<Direction>, stops: seq<StopMeta>)

  /** A row of the stop table; `ord` is None where pandas leaves NaN. */
  datatype StopRow = StopRow(sid: StopId, lat: real, lon: real, did: DirectionId, ord: Option<nat>)

  /** A row of the vehicle-position table. */
  datatype BusRow = BusRow(time: int, vid: VehicleId, lat: real, lon: real, did: DirectionId)

  // ---------------------------------------------------------------- stops

  /** `json_normalize(data, record_path=['stops'])`: the stops of every route, in order. */
  function NormalizeStops(data: seq<RouteData>): seq<RawStop> {
    if data == [] then [] else data[0].stops + NormalizeStops(data[1..])
  }

  lemma {:induction false} NormalizeStopsAppend(a: seq<RouteData>, b: seq<RouteData>)
    ensures NormalizeStops(a + b) == NormalizeStops(a) + NormalizeStops(b)
  {
    if a == [] {
      assert a + b == b;
    } else {
      assert (a + b)[0] == a[0] && (a + b)[1..] == a[1..] + b;
      NormalizeStopsAppend(a[1..], b);
    }
  }

  /** `{stop: direction['id'] for direction in directions for stop in direction['stops']}`:
      a later direction overrides an earlier one for the same stop. */
  function DirectionIds(dirs: seq<Direction>): map<StopId, DirectionId> {
    if dirs == [] then map[]
    else
      var d := dirs[|dirs| - 1];
      DirectionIds(dirs[..|dirs| - 1]) + map s | s in d.stops :: d.id
  }

  /** A stop has a direction exactly when some direction lists it. */
  lemma {:induction false} DirectionIdsDomain(dirs: seq<Direction>, sid: StopId)
    ensures sid in DirectionIds(dirs) <==> exists i :: 0 <= i < |dirs| && sid in dirs[i].stops
  {
    if dirs != [] {
      var init := dirs[..|dirs| - 1];
      DirectionIdsDomain(init, sid);
      if exists i :: 0 <= i < |dirs| && sid in dirs[i].stops {
        var i :| 0 <= i < |dirs| && sid in dirs[i].stops;
        if i < |dirs| - 1 { assert sid in init[i].stops; }
      }
    }
  }

  /** The direction of a stop is the last direction, in metadata order, that lists it. */
  lemma {:induction false} DirectionIdsLastWins(dirs: seq<Direction>, i: nat, sid: StopId)
    requires i < |dirs| && sid in dirs[i].stops
    requires forall j :: i < j < |dirs| ==> sid !in dirs[j].stops
    ensures sid in DirectionIds(dirs) && DirectionIds(dirs)[sid] == dirs[i].id
  {
    if i < |dirs| - 1 {
      DirectionIdsLastWins(dirs[..|dirs| - 1], i, sid);
    }
  }

  /** `{stop_meta['id']: ordinal for ordinal, stop_meta in enumerate(stops)}`. */
  function Ordinals(metas: seq<StopMeta>): map<StopId, nat> {
    if metas == [] then map[]
    else Ordinals(metas[..|metas| - 1])[metas[|metas| - 1].id := |metas| - 1]
  }

  /** A stop has an ordinal exactly when the metadata stop list holds it. */
  lemma {:induction false} OrdinalsDomain(metas: seq<StopMeta>, sid: StopId)
    ensures sid in Ordinals(metas) <==> exists j :: 0 <= j < |metas| && metas[j].id == sid
  {
    if metas != [] {
      var init := metas[..|metas| - 1];
      OrdinalsDomain(init, sid);
      if exists j :: 0 <= j < |metas| && metas[j].id == sid {
        var j :| 0 <= j < |metas| && metas[j].id == sid;
        if j < |metas| - 1 { assert init[j].id == sid; }
      }
    }
  }

  /** The ordinal of a stop is the index of its last occurrence in the metadata stop list. */
  lemma {:induction false} OrdinalsLastWins(metas: seq<StopMeta>, j: nat)
    requires j < |metas|
    requires forall k :: j < k < |metas| ==> metas[k].id != metas[j].id
    ensures metas[j].id in Ordinals(metas) && Ordinals(metas)[metas[j].id] == j
  {
    if j < |metas| - 1 {
      OrdinalsLastWins(metas[..|metas| - 1], j);
    }
  }

  /** The row a stop with a direction becomes. */
  function RowOf(s: RawStop, dids: map<StopId, DirectionId>, ords: map<StopId, nat>): StopRow
    requires s.sid in dids
  {
    StopRow(s.sid, s.lat, s.lon, dids[s.sid], if s.sid in ords then Some(ords[s.sid]) else None)
  }

  /** The DID mapping, `dropna(subset=['DID'])` and the ORD mapping, stop by stop. */
  function AnnotateStops(stops: seq<RawStop>, dids: map<StopId, DirectionId>, ords: map<StopId, nat>)
    : (rows: seq<StopRow>)
    ensures |rows| <= |stops|
    ensures forall r :: r in rows ==> exists s :: s in stops && s.sid in dids && r == RowOf(s, dids, ords)
    ensures forall s :: s in stops && s.sid in dids ==> RowOf(s, dids, ords) in rows
  {
    if stops == [] then []
    else
      (if stops[0].sid in dids then [RowOf(stops[0], dids, ords)] else [])
      + AnnotateStops(stops[1..], dids, ords)
  }

  /** Dropping stops keeps the order of the remaining ones. */
  lemma {:induction false} AnnotateStopsAppend(a: seq<RawStop>, b: seq<RawStop>,
                                               dids: map<StopId, DirectionId>, ords: map<StopId, nat>)
    ensures AnnotateStops(a + b, dids, ords) == AnnotateStops(a, dids, ords) + AnnotateStops(b, dids, ords)
  {
    if a == [] {
      assert a + b == b;
    } else {
      assert (a + b)[0] == a[0] && (a + b)[1..] == a[1..] + b;
      AnnotateStopsAppend(a[1..], b, dids, ords);
    }
  }

  /** `produce_stops_df(data, route_meta)` */
  function ProduceStopsDf(data: seq<RouteData>, meta: RouteMeta): (rows: seq<StopRow>)
    ensures |rows| <= |NormalizeStops(data)|
    ensures forall r :: r in rows ==>
      && r.sid in DirectionIds(meta.directions)
      && r.did == DirectionIds(meta.directions)[r.sid]
      && (r.ord.Some? <==> r.sid in Ordinals(meta.stops))
      && (r.ord.Some? ==> r.ord.value == Ordinals(meta.stops)[r.sid])
    ensures forall s :: s in NormalizeStops(data) && s.sid in DirectionIds(meta.directions) ==>
      RowOf(s, DirectionIds(meta.directions), Ordinals(meta.stops)) in rows
  {
    AnnotateStops(NormalizeStops(data), DirectionIds(meta.directions), Ordinals(meta.stops))
  }

  // ---------------------------------------------------------------- buses

  /** The row of one vehicle listed in a route state with the given `vtime`. */
  function VehicleRow(vtime: int, v: RawVehicle): BusRow {
    BusRow(vtime, v.vid, v.lat, v.lon, v.did)
  }

  /** The rows of one route state: one per vehicle, all tagged with the state's `vtime`. */
  function StateRows(s: RouteState): seq<BusRow> {
    seq(|s.vehicles|, k requires 0 <= k < |s.vehicles| => VehicleRow(s.vtime, s.vehicles[k]))
  }

  function StatesRows(states: seq<RouteState>): seq<BusRow> {
    if states == [] then [] else StateRows(states[0]) + StatesRows(states[1..])
  }

  function VehicleCount(states: seq<RouteState>): nat {
    if states == [] then 0 else |states[0].vehicles| + VehicleCount(states[1..])
  }

  function RoutesVehicleCount(data: seq<RouteData>): nat {
    if data == [] then 0 else VehicleCount(data[0].routeStates) + RoutesVehicleCount(data[1..])
  }

  lemma {:induction false} StatesRowsCount(states: seq<RouteState>)
    ensures |StatesRows(states)| == VehicleCount(states)
  {
    if states != [] {
      StatesRowsCount(states[1..]);
    }
  }

  /** Every row of a route is one of its vehicles tagged with the `vtime` of the state that lists it. */
  lemma {:induction false} StatesRowsOrigin(states: seq<RouteState>, r: BusRow)
    requires r in StatesRows(states)
    ensures exists s, v :: s in states && v in s.vehicles && r == VehicleRow(s.vtime, v)
  {
    if r in StateRows(states[0]) {
      var k :| 0 <= k < |states[0].vehicles| && StateRows(states[0])[k] == r;
      assert states[0] in states && states[0].vehicles[k] in states[0].vehicles;
    } else {
      StatesRowsOrigin(states[1..], r);
      var s, v :| s in states[1..] && v in s.vehicles && r == VehicleRow(s.vtime, v);
      assert s in states;
    }
  }

  /** `produce_buses_df(data)`: `json_normalize(data, record_path=['routeStates', 'vehicles'],
      meta=[['routeStates', 'vtime']])`, renamed and reindexed. */
  function ProduceBusesDf(data: seq<RouteData>): seq<BusRow> {
    if data == [] then [] else StatesRows(data[0].routeStates) + ProduceBusesDf(data[1..])
  }

  /** One row per vehicle entry across all routes and route states. */
  lemma {:induction false} ProduceBusesDfCount(data: seq<RouteData>)
    ensures |ProduceBusesDf(data)| == RoutesVehicleCount(data)
  {
    if data != [] {
      StatesRowsCount(data[0].routeStates);
      ProduceBusesDfCount(data[1..]);
    }
  }

  /** Routes are flattened in order. */
  lemma {:induction false} ProduceBusesDfAppend(a: seq<RouteData>, b: seq<RouteData>)
    ensures ProduceBusesDf(a + b) == ProduceBusesDf(a) + ProduceBusesDf(b)
  {
    if a == [] {
      assert a + b == b;
    } else {
      assert (a + b)[0] == a[0] && (a + b)[1..] == a[1..] + b;
      ProduceBusesDfAppend(a[1..], b);
    }
  }

  /** Route states are flattened in order. */
  lemma {:induction false} StatesRowsAppend(a: seq<RouteState>, b: seq<RouteState>)
    ensures StatesRows(a + b) == StatesRows(a) + StatesRows(b)
  {
    if a == [] {
      assert a + b == b;
    } else {
      assert (a + b)[0] == a[0] && (a + b)[1..] == a[1..] + b;
      StatesRowsAppend(a[1..], b);
    }
  }

  /** Every row is a vehicle of some route state, tagged with that state's `vtime` as TIME. */
  lemma {:induction false} ProduceBusesDfOrigin(data: seq<RouteData>, r: BusRow)
    requires r in ProduceBusesDf(data)
    ensures exists d, s, v :: d in data && s in d.routeStates && v in s.vehicles && r == VehicleRow(s.vtime, v)
  {
    if r in StatesRows(data[0].routeStates) {
      StatesRowsOrigin(data[0].routeStates, r);
      var s, v :| s in data[0].routeStates && v in s.vehicles && r == VehicleRow(s.vtime, v);
      assert data[0] in data;
    } else {
      ProduceBusesDfOrigin(data[1..], r);
      var d, s, v :| d in data[1..] && s in d.routeStates && v in s.vehicles && r == VehicleRow(s.vtime, v);
      assert d in data;
    }
  }
}
