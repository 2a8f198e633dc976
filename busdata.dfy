/** The nested store of mykelu/busdata.py: route id -> stop id -> stop record,
    each record carrying the list of eclipses (bus id, timestamp) seen at
    that stop.  `append` merges another such table into the store in place. */
module BusStore {
  import opened Common
  import opened Dicts

  /** `{bus_id: int, timestamp: int}` */
  datatype EclipseEntry = EclipseEntry(busId: int, timestamp: int)

  /** `{direction_id, order, lat, lon, eclipses}` */
  datatype StopEntry = StopEntry(directionId: string, order: int, lat: real, lon: real,
                                 eclipses: seq<EclipseEntry>)

  /** The stops of one route; its key order is the order of `stops()`. */
  type RouteTable = d: Dict<StopEntry> | Valid(d) witness Dict([], map[])

  /** The whole store; its key order is the order of `routes()`. */
  type Table = Dict<RouteTable>

  /** `stop['eclipses'].extend(other_stop['eclipses'])`: only the eclipse list
      of the stop already present changes. */
  function ExtendStop(stop: StopEntry, other: StopEntry): StopEntry {
    stop.(eclipses := stop.eclipses + other.eclipses)
  }

  /** `if stop:` A stop record is a non-empty dictionary, so every present stop
      is extended. */
  predicate StopIsTruthy(stop: StopEntry) {
    true
  }

  /** `if route:` An empty route dictionary is replaced like a missing one. */
  predicate RouteIsTruthy(route: RouteTable) {
    route.keys != []
  }

  /** The inner loop of `append`: `other`'s stops merged into `route`. */
  function MergeStops(route: RouteTable, other: RouteTable): RouteTable {
    Merge(route, other, StopIsTruthy, ExtendStop)
  }

  /** What `append(other)` makes of the table `t`. */
  function MergeTables(t: Table, other: Table): Table
    requires Valid(t) && Valid(other)
  {
    Merge(t, other, RouteIsTruthy, MergeStops)
  }

  // ------------------------------------------------------------ properties

  /** A (route, stop) pair present on both sides keeps its direction, order
      and position, and its eclipses become the old list followed by the
      other's list. */
  lemma AppendExtendsSharedStop(t: Table, other: Table, rid: Key, sid: Key)
    requires Valid(t) && Valid(other)
    requires rid in t.items && rid in other.items
    requires sid in t.items[rid].items && sid in other.items[rid].items
    ensures rid in MergeTables(t, other).items && sid in MergeTables(t, other).items[rid].items
    ensures var old_ := t.items[rid].items[sid];
      var new_ := MergeTables(t, other).items[rid].items[sid];
      && new_.eclipses == old_.eclipses + other.items[rid].items[sid].eclipses
      && new_.directionId == old_.directionId && new_.order == old_.order
      && new_.lat == old_.lat && new_.lon == old_.lon
  {
    assert t.items[rid].keys != [] by {
      assert sid in t.items[rid].keys;
    }
  }

  /** A stop that a present, non-empty route lacks is inserted as the other
      side has it; a stop the other side does not mention is untouched. */
  lemma AppendInsertsOrKeepsStops(t: Table, other: Table, rid: Key, sid: Key)
    requires Valid(t) && Valid(other)
    requires rid in t.items && RouteIsTruthy(t.items[rid]) && rid in other.items
    ensures rid in MergeTables(t, other).items
    ensures var r := MergeTables(t, other).items[rid];
      && (sid in r.items <==> sid in t.items[rid].items || sid in other.items[rid].items)
      && (sid !in t.items[rid].items && sid in other.items[rid].items ==>
            r.items[sid] == other.items[rid].items[sid])
      && (sid in t.items[rid].items && sid !in other.items[rid].items ==>
            r.items[sid] == t.items[rid].items[sid])
      && r.keys == t.items[rid].keys + Missing(other.items[rid].keys, t.items[rid].items.Keys)
  {
  }

  /** A route that is missing, or present but empty, is replaced by the other
      side's route unchanged; a route the other side does not mention is
      untouched. */
  lemma AppendInsertsOrKeepsRoutes(t: Table, other: Table, rid: Key)
    requires Valid(t) && Valid(other)
    ensures rid in MergeTables(t, other).items <==> rid in t.items || rid in other.items
    ensures rid in other.items && !(rid in t.items && RouteIsTruthy(t.items[rid])) ==>
      MergeTables(t, other).items[rid] == other.items[rid]
    ensures rid in t.items && rid !in other.items ==>
      MergeTables(t, other).items[rid] == t.items[rid]
  {
  }

  /** `routes()` after `append` lists the old routes first, in their order,
      then the new route ids in the order `other` has them; the route set is
      the union of both. */
  lemma AppendRouteOrder(t: Table, other: Table)
    requires Valid(t) && Valid(other)
    ensures MergeTables(t, other).keys == t.keys + Missing(other.keys, t.items.Keys)
    ensures MergeTables(t, other).items.Keys == t.items.Keys + other.items.Keys
  {
  }

  /** `append({})` changes nothing. */
  lemma AppendNothing(t: Table)
    requires Valid(t)
    ensures MergeTables(t, Empty()) == t
  {
    var r := MergeTables(t, Empty());
    assert Missing([], t.items.Keys) == [];
    assert r.items == t.items;
  }

  /** Appending into an empty store yields exactly the other table: this is
      what `read_file` relies on. */
  lemma AppendIntoEmpty(other: Table)
    requires Valid(other)
    ensures MergeTables(Empty(), other) == other
  {
    var e: Table := Empty();
    var r := MergeTables(e, other);
    assert r.keys == other.keys by {
      assert e.items.Keys == {};
      MissingNothing(other.keys);
    }
    assert r.items == other.items by {
      forall k | k in other.items ensures r.items[k] == other.items[k] {
        assert k !in e.items;
      }
    }
  }

  // ---------------------------------------------------------------- store

  /** `BusData`: the store, with `data` updated in place by `append`. */
  class BusData {
    var data: Table

    ghost predicate Valid()
      reads this
    {
      Dicts.Valid(data)
    }

    /** `BusData()`: no routes. */
    constructor()
      ensures Valid() && data == Empty()
    {
      data := Empty();
    }

    /** `routes()`: every route id once, in insertion order. */
    function Routes(): (ids: seq<Key>)
      requires Valid()
      reads this
      ensures Distinct(ids)
      ensures forall rid :: rid in ids <==> rid in data.items
    {
      data.keys
    }

    /** `stops(route_id)`: every stop id of the route once, in insertion
        order; an absent route has no stops. */
    function Stops(routeId: Key): (ids: seq<Key>)
      requires Valid()
      reads this
      ensures routeId !in data.items ==> ids == []
      ensures Distinct(ids)
      ensures forall sid :: sid in ids <==> routeId in data.items && sid in data.items[routeId].items
    {
      if routeId in data.items then data.items[routeId].keys else []
    }

    /** `append(other_data)` */
    method Append(other: Table)
      requires Valid() && Dicts.Valid(other)
      modifies this
      ensures Valid()
      ensures data == MergeTables(old(data), other)
    {
      for n := 0 to |other.keys|
        invariant Dicts.Valid(data)
        invariant data == MergePrefix(old(data), other, n, RouteIsTruthy, MergeStops)
      {
        var routeId := other.keys[n];
        var otherRoute := other.items[routeId];
        if routeId in data.items && RouteIsTruthy(data.items[routeId]) {
          var route := data.items[routeId];
          for m := 0 to |otherRoute.keys|
            invariant Dicts.Valid(route)
            invariant route == MergePrefix(data.items[routeId], otherRoute, m, StopIsTruthy, ExtendStop)
          {
            var stopId := otherRoute.keys[m];
            var otherStop := otherRoute.items[stopId];
            if stopId in route.items && StopIsTruthy(route.items[stopId]) {
              route := Put(route, stopId, ExtendStop(route.items[stopId], otherStop));
            } else {
              route := Put(route, stopId, otherStop);
            }
          }
          assert otherRoute.keys[..|otherRoute.keys|] == otherRoute.keys;
          data := Put(data, routeId, route);
        } else {
          data := Put(data, routeId, otherRoute);
        }
      }
      assert other.keys[..|other.keys|] == other.keys;
    }
  }

  /** A fresh store lists no routes, and no stops for any route. */
  lemma FreshStoreIsEmpty(b: BusData, routeId: Key)
    requires b.Valid() && b.data == Empty()
    ensures b.Routes() == [] && b.Stops(routeId) == []
  {
  }
}
