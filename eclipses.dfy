/** Eclipse detection and nadir picking of mykelu/eclipses.py.

    For one stop, every vehicle position is turned into a (TIME, VID, DIST)
    sample, samples 750 m or farther from the stop are dropped, and each
    vehicle's remaining samples are sorted by time and cut into "eclipses"
    wherever two consecutive samples are more than 30 minutes apart.  Every
    eclipse then yields one nadir: the (VID, TIME) of its first sample of
    minimum distance. */
module Eclipses {
  import opened Common
  import DataCleaning

  type VehicleId = string

  /** Samples at this distance (metres) or farther are discarded. */
  const ProximityMeters: real := 750.0
  /** The split threshold of `split_eclipses`: 30 minutes, in milliseconds. */
  const GapThresholdMs: int := 30 * 60 * 1000
  /** A minimum below this distance (metres) is accepted as the nadir at once. */
  const NadirRadiusMeters: real := 100.0

  /** A row of the `['TIME', 'VID', 'DIST']` frame. */
  datatype Sample = Sample(time: int, vid: VehicleId, dist: real)

  /** A row of the frame `find_nadirs` returns. */
  datatype Nadir = Nadir(vid: VehicleId, time: int)

  function Last<T>(s: seq<T>): T
    requires s != []
  {
    s[|s| - 1]
  }

  // ------------------------------------------------------------ filtering

  /** The DIST column: `distance(stop[['LAT', 'LON']], bus[['LAT', 'LON']]).meters`
      for every position, `distance` standing for the geodesic library. */
  function Measure(buses: seq<DataCleaning.BusRow>, stop: DataCleaning.StopRow,
                   distance: (real, real, real, real) -> real): seq<Sample>
  {
    seq(|buses|, i requires 0 <= i < |buses| =>
      Sample(buses[i].time, buses[i].vid, distance(stop.lat, stop.lon, buses[i].lat, buses[i].lon)))
  }

  /** `eclipses[eclipses['DIST'] < 750]` */
  function Nearby(samples: seq<Sample>): seq<Sample> {
    if samples == [] then []
    else (if samples[0].dist < ProximityMeters then [samples[0]] else []) + Nearby(samples[1..])
  }

  /** The filter keeps every close sample as often as it occurs, and nothing
      else. */
  lemma {:induction false} NearbyKeeps(samples: seq<Sample>)
    ensures forall x :: multiset(Nearby(samples))[x] ==
                        if x.dist < ProximityMeters then multiset(samples)[x] else 0
  {
    if samples != [] {
      assert samples == [samples[0]] + samples[1..];
      NearbyKeeps(samples[1..]);
    }
  }

  /** Filtering keeps the order of the samples it keeps. */
  lemma {:induction false} NearbyAppend(a: seq<Sample>, b: seq<Sample>)
    ensures Nearby(a + b) == Nearby(a) + Nearby(b)
  {
    if a == [] {
      assert a + b == b;
    } else {
      var h := if a[0].dist < ProximityMeters then [a[0]] else [];
      assert (a + b)[0] == a[0] && (a + b)[1..] == a[1..] + b;
      assert Nearby(a + b) == h + Nearby(a[1..] + b);
      NearbyAppend(a[1..], b);
    }
  }

  /** `eclipses[eclipses['VID'] == bus_id]` */
  function OfVehicle(samples: seq<Sample>, v: VehicleId): (bus: seq<Sample>)
    ensures forall x :: multiset(bus)[x] == if x.vid == v then multiset(samples)[x] else 0
  {
    if samples == [] then []
    else
      assert samples == [samples[0]] + samples[1..];
      (if samples[0].vid == v then [samples[0]] else []) + OfVehicle(samples[1..], v)
  }

  /** `eclipses['VID'].unique()`: every vehicle id once, in order of first appearance. */
  function UniqueVids(samples: seq<Sample>): (vids: seq<VehicleId>)
    ensures Distinct(vids)
    ensures forall v :: v in vids <==> exists i :: 0 <= i < |samples| && samples[i].vid == v
  {
    if samples == [] then []
    else
      var init := samples[..|samples| - 1];
      var seen := UniqueVids(init);
      var v := Last(samples).vid;
      if v in seen then seen else seen + [v]
  }

  /** A vehicle listed later by `unique()` first appears after the vehicle
      listed earlier: any sample of the later one is preceded by a sample of
      the earlier one. */
  lemma {:induction false} UniqueVidsFirstAppearance(samples: seq<Sample>, p: nat, q: nat, b: nat)
    requires p < q < |UniqueVids(samples)|
    requires b < |samples| && samples[b].vid == UniqueVids(samples)[q]
    ensures exists a :: 0 <= a < b && samples[a].vid == UniqueVids(samples)[p]
  {
    var init := samples[..|samples| - 1];
    var seen := UniqueVids(init);
    var u := UniqueVids(samples);
    assert u[..|seen|] == seen;
    if q < |seen| {
      // the later vehicle was already seen before the last sample
      var b' := b;
      if b == |samples| - 1 {
        assert u[q] in seen;
        b' :| 0 <= b' < |init| && init[b'].vid == u[q];
      }
      assert init[b'].vid == seen[q];
      UniqueVidsFirstAppearance(init, p, q, b');
      var a :| 0 <= a < b' && init[a].vid == seen[p];
      assert samples[a].vid == u[p];
    } else {
      // the later vehicle is new with the last sample, the earlier one was seen before it
      assert u == seen + [Last(samples).vid] && q == |seen|;
      assert u[p] in seen;
      var a :| 0 <= a < |init| && init[a].vid == u[p];
      assert samples[a].vid == u[p];
    }
  }

  // -------------------------------------------------------------- sorting

  predicate SortedByTime(s: seq<Sample>) {
    forall i, j :: 0 <= i < j < |s| ==> s[i].time <= s[j].time
  }

  function InsertByTime(x: Sample, s: seq<Sample>): (r: seq<Sample>)
    requires SortedByTime(s)
    ensures SortedByTime(r)
    ensures multiset(r) == multiset(s) + multiset{x}
  {
    if s == [] then [x]
    else if x.time <= s[0].time then [x] + s
    else
      var rest := InsertByTime(x, s[1..]);
      forall y | y in rest ensures s[0].time <= y.time {
        assert y in multiset(rest);
      }
      PrependSorted(s[0], rest);
      assert s == [s[0]] + s[1..];
      [s[0]] + rest
  }

  lemma PrependSorted(h: Sample, s: seq<Sample>)
    requires SortedByTime(s)
    requires forall y :: y in s ==> h.time <= y.time
    ensures SortedByTime([h] + s)
  {
    forall i, j | 0 <= i < j < |[h] + s| ensures ([h] + s)[i].time <= ([h] + s)[j].time {
      if i == 0 { assert ([h] + s)[j] == s[j - 1]; }
    }
  }

  /** `sort_values('TIME')`: a time-ordered permutation.  Equal times keep
      their input order here; the split lemmas below hold for any
      time-ordered input, so they do not depend on that choice. */
  function SortByTime(s: seq<Sample>): (r: seq<Sample>)
    ensures SortedByTime(r)
    ensures multiset(r) == multiset(s)
  {
    if s == [] then []
    else
      assert s == [s[0]] + s[1..];
      InsertByTime(s[0], SortByTime(s[1..]))
  }

  // ------------------------------------------------------------ splitting

  /** `bus['TIME'] > bus['TIME'].shift() + threshold`: the sample `b` that
      follows `a` opens a new group. */
  predicate Breaks(a: Sample, b: Sample) {
    b.time > a.time + GapThresholdMs
  }

  /** `bus.groupby(group_ids)` where `group_ids` is the running count of
      breaks: the maximal runs of consecutive samples without a break. */
  function SplitAtGaps(bus: seq<Sample>): (groups: seq<seq<Sample>>)
    ensures Flatten(groups) == bus
    ensures forall i :: 0 <= i < |groups| ==> groups[i] != []
    decreases |bus|
  {
    if |bus| <= 1 then (if bus == [] then [] else [bus])
    else
      var rest := SplitAtGaps(bus[1..]);
      assert rest != [] && rest[0][0] == bus[1];
      if Breaks(bus[0], bus[1]) then [[bus[0]]] + rest
      else
        assert Flatten(rest) == rest[0] + Flatten(rest[1..]);
        [[bus[0]] + rest[0]] + rest[1..]
  }

  ghost predicate NonEmptyGroups(gs: seq<seq<Sample>>) {
    forall i :: 0 <= i < |gs| ==> gs[i] != []
  }

  /** Inside a group, no sample is more than the threshold after its predecessor. */
  ghost predicate ChainedWithin(gs: seq<seq<Sample>>) {
    forall i, k :: 0 <= i < |gs| && 0 <= k < |gs[i]| - 1 ==> !Breaks(gs[i][k], gs[i][k + 1])
  }

  /** Each group starts more than the threshold after the previous group ends. */
  ghost predicate BrokenBetween(gs: seq<seq<Sample>>)
    requires NonEmptyGroups(gs)
  {
    forall i :: 0 <= i < |gs| - 1 ==> Breaks(Last(gs[i]), gs[i + 1][0])
  }

  /** `gs` cuts `bus` into non-empty runs exactly at its gaps. */
  ghost predicate IsGapSplit(bus: seq<Sample>, gs: seq<seq<Sample>>) {
    && Flatten(gs) == bus
    && NonEmptyGroups(gs)
    && ChainedWithin(gs)
    && BrokenBetween(gs)
  }

  lemma {:induction false} SplitAtGapsIsGapSplit(bus: seq<Sample>)
    ensures IsGapSplit(bus, SplitAtGaps(bus))
    decreases |bus|
  {
    if |bus| >= 2 {
      var rest := SplitAtGaps(bus[1..]);
      SplitAtGapsIsGapSplit(bus[1..]);
      var gs := SplitAtGaps(bus);
      if Breaks(bus[0], bus[1]) {
        assert gs == [[bus[0]]] + rest;
        forall i, k | 0 <= i < |gs| && 0 <= k < |gs[i]| - 1
          ensures !Breaks(gs[i][k], gs[i][k + 1])
        {
          assert i > 0 && gs[i] == rest[i - 1];
        }
        forall i | 0 <= i < |gs| - 1 ensures Breaks(Last(gs[i]), gs[i + 1][0]) {
          if i > 0 { assert gs[i] == rest[i - 1] && gs[i + 1] == rest[i]; }
        }
      } else {
        var g0 := [bus[0]] + rest[0];
        assert gs == [g0] + rest[1..];
        forall i, k | 0 <= i < |gs| && 0 <= k < |gs[i]| - 1
          ensures !Breaks(gs[i][k], gs[i][k + 1])
        {
          if i == 0 {
            if k > 0 { assert gs[0][k] == rest[0][k - 1] && gs[0][k + 1] == rest[0][k]; }
          } else {
            assert gs[i] == rest[i];
          }
        }
        forall i | 0 <= i < |gs| - 1 ensures Breaks(Last(gs[i]), gs[i + 1][0]) {
          assert gs[i + 1] == rest[i + 1];
          if i == 0 { assert Last(gs[0]) == Last(rest[0]); } else { assert gs[i] == rest[i]; }
        }
      }
    }
  }

  /** Dropping a first group of one sample leaves a gap split of the rest. */
  lemma GapSplitDropGroup(bus: seq<Sample>, gs: seq<seq<Sample>>)
    requires IsGapSplit(bus, gs) && |gs| >= 2 && |gs[0]| == 1
    ensures |bus| >= 2 && bus[0] == gs[0][0] && Breaks(bus[0], bus[1])
    ensures IsGapSplit(bus[1..], gs[1..])
  {
    var tail := gs[1..];
    assert Flatten(gs) == gs[0] + Flatten(tail);
    assert Flatten(tail) == tail[0] + Flatten(tail[1..]);
    assert bus[1] == tail[0][0];
    forall i, k | 0 <= i < |tail| && 0 <= k < |tail[i]| - 1
      ensures !Breaks(tail[i][k], tail[i][k + 1])
    {
      assert tail[i] == gs[i + 1];
    }
    forall i | 0 <= i < |tail| - 1 ensures Breaks(Last(tail[i]), tail[i + 1][0]) {
      assert tail[i] == gs[i + 1] && tail[i + 1] == gs[i + 2];
    }
  }

  /** Dropping the first sample of a longer first group leaves a gap split of
      the rest. */
  lemma GapSplitDropSample(bus: seq<Sample>, gs: seq<seq<Sample>>)
    requires IsGapSplit(bus, gs) && gs != [] && |gs[0]| >= 2
    ensures |bus| >= 2 && bus[0] == gs[0][0] && !Breaks(bus[0], bus[1])
    ensures IsGapSplit(bus[1..], [gs[0][1..]] + gs[1..])
  {
    var g0 := gs[0][1..];
    var gs' := [g0] + gs[1..];
    assert Flatten(gs) == gs[0] + Flatten(gs[1..]);
    assert Flatten(gs') == g0 + Flatten(gs'[1..]);
    assert gs'[1..] == gs[1..];
    assert bus[1..] == Flatten(gs');
    assert !Breaks(gs[0][0], gs[0][1]);
    forall i, k | 0 <= i < |gs'| && 0 <= k < |gs'[i]| - 1
      ensures !Breaks(gs'[i][k], gs'[i][k + 1])
    {
      if i == 0 {
        assert gs'[0][k] == gs[0][k + 1] && gs'[0][k + 1] == gs[0][k + 2];
      } else {
        assert gs'[i] == gs[i];
      }
    }
    forall i | 0 <= i < |gs'| - 1 ensures Breaks(Last(gs'[i]), gs'[i + 1][0]) {
      assert gs'[i + 1] == gs[i + 1];
      if i == 0 { assert Last(gs'[0]) == Last(gs[0]); } else { assert gs'[i] == gs[i]; }
    }
  }

  /** There is only one way to cut a sequence at its gaps: `SplitAtGaps` is it. */
  lemma {:induction false} GapSplitUnique(bus: seq<Sample>, gs: seq<seq<Sample>>)
    requires IsGapSplit(bus, gs)
    ensures gs == SplitAtGaps(bus)
    decreases |bus|
  {
    if gs != [] {
      if |gs[0]| == 1 {
        if |gs| == 1 {
          assert Flatten(gs) == gs[0] + Flatten(gs[1..]);
          assert bus == gs[0];
        } else {
          GapSplitDropGroup(bus, gs);
          GapSplitUnique(bus[1..], gs[1..]);
          assert gs[0] == [bus[0]];
          assert gs == [gs[0]] + gs[1..];
        }
      } else {
        var gs' := [gs[0][1..]] + gs[1..];
        GapSplitDropSample(bus, gs);
        GapSplitUnique(bus[1..], gs');
        assert gs[0] == [bus[0]] + gs'[0];
        assert gs'[1..] == gs[1..];
        assert gs == [gs[0]] + gs[1..];
      }
    }
  }

  // ------------------------------------------------------------- eclipses

  /** One vehicle's eclipses: its samples, sorted by time, cut at the gaps. */
  function VehicleEclipses(samples: seq<Sample>, v: VehicleId): seq<seq<Sample>> {
    SplitAtGaps(SortByTime(OfVehicle(samples, v)))
  }

  /** The eclipses of the vehicles `vs`, vehicle after vehicle. */
  function GroupsFor(samples: seq<Sample>, vs: seq<VehicleId>): seq<seq<Sample>> {
    if vs == [] then []
    else GroupsFor(samples, vs[..|vs| - 1]) + VehicleEclipses(samples, Last(vs))
  }

  lemma GroupsForSnoc(samples: seq<Sample>, vs: seq<VehicleId>, v: VehicleId)
    ensures GroupsFor(samples, vs + [v]) == GroupsFor(samples, vs) + VehicleEclipses(samples, v)
  {
    assert (vs + [v])[..|vs|] == vs;
  }

  lemma GroupsForStep(samples: seq<Sample>, vs: seq<VehicleId>, n: nat)
    requires n < |vs|
    ensures GroupsFor(samples, vs[..n + 1]) == GroupsFor(samples, vs[..n]) + VehicleEclipses(samples, vs[n])
  {
    assert vs[..n + 1] == vs[..n] + [vs[n]];
    GroupsForSnoc(samples, vs[..n], vs[n]);
  }

  /** What `split_eclipses` returns for the filtered samples. */
  function EclipsesOf(samples: seq<Sample>): seq<seq<Sample>> {
    GroupsFor(samples, UniqueVids(samples))
  }

  /** One vehicle, time-ordered, and never more than the threshold between
      consecutive samples. */
  ghost predicate IsEclipse(g: seq<Sample>) {
    && g != []
    && (forall k :: 0 <= k < |g| ==> g[k].vid == g[0].vid)
    && (forall k :: 0 <= k < |g| - 1 ==> g[k].time <= g[k + 1].time <= g[k].time + GapThresholdMs)
  }

  /** A group of a gap split is a slice of the split sequence. */
  lemma GroupOfSplit(bus: seq<Sample>, gs: seq<seq<Sample>>, i: nat)
    requires IsGapSplit(bus, gs) && i < |gs|
    ensures forall x :: x in gs[i] ==> x in bus
    ensures SortedByTime(bus) ==> forall k :: 0 <= k < |gs[i]| - 1 ==> gs[i][k].time <= gs[i][k + 1].time
  {
    FlattenSlice(gs, i);
    var a := |Flatten(gs[..i])|;
    assert gs[i] == bus[a..a + |gs[i]|];
    if SortedByTime(bus) {
      forall k | 0 <= k < |gs[i]| - 1 ensures gs[i][k].time <= gs[i][k + 1].time {
        assert gs[i][k] == bus[a + k] && gs[i][k + 1] == bus[a + k + 1];
      }
    }
  }

  lemma VehicleEclipseShape(samples: seq<Sample>, v: VehicleId, i: nat)
    requires i < |VehicleEclipses(samples, v)|
    ensures var g := VehicleEclipses(samples, v)[i];
      IsEclipse(g) && g[0].vid == v && forall x :: x in g ==> x in samples
  {
    var bus := SortByTime(OfVehicle(samples, v));
    var gs := SplitAtGaps(bus);
    SplitAtGapsIsGapSplit(bus);
    GroupOfSplit(bus, gs, i);
    var g := gs[i];
    forall x: Sample | x in g ensures x.vid == v && x in samples {
      assert multiset(bus)[x] > 0;
    }
    forall k | 0 <= k < |g| ensures g[k].vid == v {
      assert g[k] in g;
    }
    forall k | 0 <= k < |g| - 1 ensures g[k + 1].time <= g[k].time + GapThresholdMs {
      assert !Breaks(gs[i][k], gs[i][k + 1]);
    }
  }

  /** Every eclipse of vehicle `u` starts with a sample of `u`. */
  lemma VehicleEclipsesHeads(samples: seq<Sample>, u: VehicleId)
    ensures forall i :: 0 <= i < |VehicleEclipses(samples, u)| ==>
      VehicleEclipses(samples, u)[i] != [] && VehicleEclipses(samples, u)[i][0].vid == u
  {
    forall i | 0 <= i < |VehicleEclipses(samples, u)|
      ensures VehicleEclipses(samples, u)[i] != [] && VehicleEclipses(samples, u)[i][0].vid == u
    {
      VehicleEclipseShape(samples, u, i);
    }
  }

  lemma {:induction false} GroupsForShape(samples: seq<Sample>, vs: seq<VehicleId>, i: nat)
    requires i < |GroupsFor(samples, vs)|
    ensures var g := GroupsFor(samples, vs)[i];
      IsEclipse(g) && g[0].vid in vs && forall x :: x in g ==> x in samples
  {
    var init := vs[..|vs| - 1];
    var head := GroupsFor(samples, init);
    if i < |head| {
      GroupsForShape(samples, init, i);
      assert GroupsFor(samples, vs)[i] == head[i];
    } else {
      VehicleEclipseShape(samples, Last(vs), i - |head|);
    }
  }

  /** Concatenating the eclipses of distinct vehicles `vs` gives back exactly
      the samples of those vehicles, each as often as it occurs. */
  lemma {:induction false} GroupsForMultiset(samples: seq<Sample>, vs: seq<VehicleId>, x: Sample)
    requires Distinct(vs)
    ensures multiset(Flatten(GroupsFor(samples, vs)))[x] == if x.vid in vs then multiset(samples)[x] else 0
  {
    if vs != [] {
      var init := vs[..|vs| - 1];
      var v := Last(vs);
      assert vs == init + [v];
      GroupsForMultiset(samples, init, x);
      FlattenAppend(GroupsFor(samples, init), VehicleEclipses(samples, v));
      assert v !in init;
    }
  }

  /** No sample is lost or duplicated by `split_eclipses`. */
  lemma EclipsesPreserveSamples(samples: seq<Sample>)
    ensures multiset(Flatten(EclipsesOf(samples))) == multiset(samples)
  {
    forall x ensures multiset(Flatten(EclipsesOf(samples)))[x] == multiset(samples)[x] {
      GroupsForMultiset(samples, UniqueVids(samples), x);
      if x in samples {
        var i :| 0 <= i < |samples| && samples[i] == x;
        assert x.vid in UniqueVids(samples);
      }
    }
  }

  /** Every eclipse holds samples of one vehicle only, in time order, with no
      gap above the threshold; every one of its samples is an input sample. */
  lemma EclipsesAreEclipses(samples: seq<Sample>, i: nat)
    requires i < |EclipsesOf(samples)|
    ensures IsEclipse(EclipsesOf(samples)[i])
    ensures forall x :: x in EclipsesOf(samples)[i] ==> x in samples
  {
    GroupsForShape(samples, UniqueVids(samples), i);
  }

  /** The eclipses of vehicle `v`, in emitted order. */
  function OfVehicleEclipses(gs: seq<seq<Sample>>, v: VehicleId): seq<seq<Sample>> {
    if gs == [] then []
    else (if gs[0] != [] && gs[0][0].vid == v then [gs[0]] else []) + OfVehicleEclipses(gs[1..], v)
  }

  lemma {:induction false} OfVehicleEclipsesAppend(a: seq<seq<Sample>>, b: seq<seq<Sample>>, v: VehicleId)
    ensures OfVehicleEclipses(a + b, v) == OfVehicleEclipses(a, v) + OfVehicleEclipses(b, v)
  {
    if a == [] {
      assert a + b == b;
    } else {
      assert (a + b)[0] == a[0] && (a + b)[1..] == a[1..] + b;
      OfVehicleEclipsesAppend(a[1..], b, v);
    }
  }

  lemma {:induction false} OfVehicleEclipsesAll(gs: seq<seq<Sample>>, u: VehicleId, v: VehicleId)
    requires forall i :: 0 <= i < |gs| ==> gs[i] != [] && gs[i][0].vid == u
    ensures OfVehicleEclipses(gs, v) == if u == v then gs else []
  {
    if gs != [] {
      OfVehicleEclipsesAll(gs[1..], u, v);
      assert gs == [gs[0]] + gs[1..];
    }
  }

  lemma {:induction false} GroupsForOfVehicle(samples: seq<Sample>, vs: seq<VehicleId>, v: VehicleId)
    requires Distinct(vs)
    ensures OfVehicleEclipses(GroupsFor(samples, vs), v) == if v in vs then VehicleEclipses(samples, v) else []
  {
    if vs != [] {
      var init := vs[..|vs| - 1];
      var u := Last(vs);
      assert vs == init + [u];
      assert Distinct(init);
      var head := GroupsFor(samples, init);
      var tail := VehicleEclipses(samples, u);
      GroupsForOfVehicle(samples, init, v);
      OfVehicleEclipsesAppend(head, tail, v);
      VehicleEclipsesHeads(samples, u);
      OfVehicleEclipsesAll(tail, u, v);
      assert u !in init;
      if v == u {
        assert OfVehicleEclipses(head, v) == [];
      }
    }
  }

  /** A vehicle's eclipses, taken in emitted order, are exactly its samples
      sorted by time and cut at every gap above the threshold: concatenated
      they give its sorted samples, and consecutive ones are more than the
      threshold apart. */
  lemma EclipsesOfVehicle(samples: seq<Sample>, v: VehicleId)
    ensures IsGapSplit(SortByTime(OfVehicle(samples, v)), OfVehicleEclipses(EclipsesOf(samples), v))
  {
    GroupsForOfVehicle(samples, UniqueVids(samples), v);
    SplitAtGapsIsGapSplit(SortByTime(OfVehicle(samples, v)));
    if v !in UniqueVids(samples) {
      forall x ensures multiset(OfVehicle(samples, v))[x] == 0 { }
      assert multiset(OfVehicle(samples, v)) == multiset{};
    }
  }

  /** Every eclipse of `GroupsFor(samples, vs)` starts with a sample of a vehicle of `vs`. */
  lemma {:induction false} GroupsForHead(samples: seq<Sample>, vs: seq<VehicleId>, i: nat) returns (p: nat)
    requires i < |GroupsFor(samples, vs)|
    ensures p < |vs|
    ensures GroupsFor(samples, vs)[i] != [] && GroupsFor(samples, vs)[i][0].vid == vs[p]
  {
    var init := vs[..|vs| - 1];
    var head := GroupsFor(samples, init);
    var tail := VehicleEclipses(samples, Last(vs));
    assert GroupsFor(samples, vs) == head + tail;
    if i < |head| {
      p := GroupsForHead(samples, init, i);
      assert vs[p] == init[p];
    } else {
      VehicleEclipsesHeads(samples, Last(vs));
      assert tail[i - |head|] != [] && tail[i - |head|][0].vid == Last(vs);
      p := |vs| - 1;
    }
  }

  lemma {:induction false} GroupsForOrder(samples: seq<Sample>, vs: seq<VehicleId>, i: nat, j: nat)
    returns (p: nat, q: nat)
    requires i < j < |GroupsFor(samples, vs)|
    requires GroupsFor(samples, vs)[i] != [] && GroupsFor(samples, vs)[j] != []
    requires GroupsFor(samples, vs)[i][0].vid != GroupsFor(samples, vs)[j][0].vid
    ensures p < q < |vs|
    ensures vs[p] == GroupsFor(samples, vs)[i][0].vid && vs[q] == GroupsFor(samples, vs)[j][0].vid
  {
    var init := vs[..|vs| - 1];
    var head := GroupsFor(samples, init);
    var tail := VehicleEclipses(samples, Last(vs));
    var gs := GroupsFor(samples, vs);
    assert gs == head + tail;
    VehicleEclipsesHeads(samples, Last(vs));
    if j < |head| {
      assert gs[i] == head[i] && gs[j] == head[j];
      p, q := GroupsForOrder(samples, init, i, j);
      assert vs[p] == init[p] && vs[q] == init[q];
    } else {
      assert gs[j] == tail[j - |head|];
      q := |vs| - 1;
      if i < |head| {
        assert gs[i] == head[i];
        p := GroupsForHead(samples, init, i);
        assert vs[p] == init[p];
      } else {
        assert false;
      }
    }
  }

  /** Vehicles are taken in order of first appearance: when a later eclipse
      belongs to another vehicle, every sample of that vehicle is preceded
      by a sample of the earlier eclipse's vehicle. */
  lemma EclipsesFollowFirstAppearance(samples: seq<Sample>, i: nat, j: nat, b: nat)
    requires i < j < |EclipsesOf(samples)|
    requires EclipsesOf(samples)[i] != [] && EclipsesOf(samples)[j] != []
    requires EclipsesOf(samples)[i][0].vid != EclipsesOf(samples)[j][0].vid
    requires b < |samples| && samples[b].vid == EclipsesOf(samples)[j][0].vid
    ensures exists a :: 0 <= a < b && samples[a].vid == EclipsesOf(samples)[i][0].vid
  {
    var p, q := GroupsForOrder(samples, UniqueVids(samples), i, j);
    UniqueVidsFirstAppearance(samples, p, q, b);
  }

  /** `split_eclipses(eclipses)`: for each vehicle in order of first appearance,
      its groups are appended to the result (the inner `append` loop over
      `groupby` is one concatenation here). */
  method SplitEclipses(eclipses: seq<Sample>) returns (disjoint: seq<seq<Sample>>)
    ensures disjoint == EclipsesOf(eclipses)
  {
    disjoint := [];
    var ids := UniqueVids(eclipses);
    for n := 0 to |ids|
      invariant disjoint == GroupsFor(eclipses, ids[..n])
    {
      GroupsForStep(eclipses, ids, n);
      disjoint := disjoint + VehicleEclipses(eclipses, ids[n]);
    }
    assert ids[..|ids|] == ids;
  }

  /** `find_eclipses(buses, stop)` */
  method FindEclipses(buses: seq<DataCleaning.BusRow>, stop: DataCleaning.StopRow,
                      distance: (real, real, real, real) -> real)
    returns (eclipses: seq<seq<Sample>>)
    ensures eclipses == EclipsesOf(Nearby(Measure(buses, stop, distance)))
    ensures forall i :: 0 <= i < |eclipses| ==>
      IsEclipse(eclipses[i]) && forall x :: x in eclipses[i] ==> x.dist < ProximityMeters
  {
    var measured := Measure(buses, stop, distance);
    var near := Nearby(measured);
    eclipses := SplitEclipses(near);
    NearbyKeeps(measured);
    forall i | 0 <= i < |eclipses|
      ensures IsEclipse(eclipses[i]) && forall x :: x in eclipses[i] ==> x.dist < ProximityMeters
    {
      EclipsesAreEclipses(near, i);
      forall x | x in eclipses[i] ensures x.dist < ProximityMeters {
        assert multiset(near)[x] > 0;
      }
    }
  }

  // --------------------------------------------------------------- nadirs

  /** `eclipse['DIST'].values.argmin()`: the first index of the minimum distance. */
  function ArgMin(e: seq<Sample>): (k: nat)
    requires e != []
    ensures k < |e|
    ensures forall j :: 0 <= j < |e| ==> e[k].dist <= e[j].dist
    ensures forall j :: 0 <= j < k ==> e[k].dist < e[j].dist
  {
    if |e| == 1 then 0
    else
      var k := ArgMin(e[..|e| - 1]);
      if Last(e).dist < e[k].dist then |e| - 1 else k
  }

  /** Read back to front, the first minimum of a sequence is its last minimum. */
  lemma FirstMinOfReversed(e: seq<Sample>, rev: seq<Sample>, r: nat)
    requires |rev| == |e| && r < |e|
    requires forall i :: 0 <= i < |e| ==> rev[i] == e[|e| - 1 - i]
    requires forall t :: 0 <= t < |rev| ==> rev[r].dist <= rev[t].dist
    requires forall t :: 0 <= t < r ==> rev[r].dist < rev[t].dist
    ensures rev[r] == e[|e| - 1 - r]
    ensures forall i :: 0 <= i < |e| ==> e[|e| - 1 - r].dist <= e[i].dist
    ensures forall i :: |e| - 1 - r < i < |e| ==> e[|e| - 1 - r].dist < e[i].dist
  {
    forall i | 0 <= i < |e| ensures e[|e| - 1 - r].dist <= e[i].dist {
      assert rev[|e| - 1 - i] == e[i];
    }
    forall i | |e| - 1 - r < i < |e| ensures e[|e| - 1 - r].dist < e[i].dist {
      assert rev[|e| - 1 - i] == e[i];
    }
  }

  /** `eclipse[::-1]['DIST'].values.argmin()` picks the LAST sample of
      minimum distance of the eclipse. */
  lemma ReversedArgMinIsLastMin(e: seq<Sample>, rev: seq<Sample>, r: nat)
    requires e != [] && rev == Reverse(e) && r == ArgMin(rev)
    ensures rev[r] == e[|e| - 1 - r]
    ensures e[|e| - 1 - r].dist == e[ArgMin(e)].dist
    ensures forall i :: |e| - 1 - r < i < |e| ==> e[|e| - 1 - r].dist < e[i].dist
  {
    FirstMinOfReversed(e, rev, r);
  }

  /** `calc_nadir(eclipse)`.  Whatever branch is taken, the result is the
      first sample of minimum distance: the averaging branch averages two
      samples that both attain the minimum, which leaves the distance unchanged. */
  function CalcNadir(e: seq<Sample>): (n: Sample)
    requires e != []
    ensures n == e[ArgMin(e)]
  {
    var nadir := e[ArgMin(e)];
    if nadir.dist < NadirRadiusMeters then nadir
    else
      var rev := Reverse(e);
      var revNadir := rev[ArgMin(rev)];
      if nadir.time == revNadir.time then nadir
      else
        ReversedArgMinIsLastMin(e, rev, ArgMin(rev));
        nadir.(dist := (nadir.dist + revNadir.dist) / 2.0)
  }

  /** When the first and the last minimum fall at different times (and the
      minimum is not below 100 m), the distance returned is the mean of the two
      minima. */
  lemma CalcNadirAverages(e: seq<Sample>)
    requires e != []
    requires e[ArgMin(e)].dist >= NadirRadiusMeters
    requires e[ArgMin(e)].time != Reverse(e)[ArgMin(Reverse(e))].time
    ensures CalcNadir(e).dist == (e[ArgMin(e)].dist + Reverse(e)[ArgMin(Reverse(e))].dist) / 2.0
  {
    ReversedArgMinIsLastMin(e, Reverse(e), ArgMin(Reverse(e)));
  }

  /** `calc_nadir(eclipse)[['VID', 'TIME']]` */
  function NadirOf(e: seq<Sample>): Nadir
    requires e != []
  {
    var n := CalcNadir(e);
    Nadir(n.vid, n.time)
  }

  /** `find_nadirs(eclipses)`: one (VID, TIME) row per eclipse, in eclipse order,
      that of the eclipse's first sample of minimum distance. */
  method FindNadirs(eclipses: seq<seq<Sample>>) returns (nadirs: seq<Nadir>)
    requires forall i :: 0 <= i < |eclipses| ==> eclipses[i] != []
    ensures |nadirs| == |eclipses|
    ensures forall i :: 0 <= i < |eclipses| ==>
      var k := ArgMin(eclipses[i]);
      nadirs[i] == Nadir(eclipses[i][k].vid, eclipses[i][k].time)
  {
    nadirs := [];
    for i := 0 to |eclipses|
      invariant |nadirs| == i
      invariant forall j :: 0 <= j < i ==> nadirs[j] == NadirOf(eclipses[j])
    {
      nadirs := nadirs + [NadirOf(eclipses[i])];
    }
  }
}
