/** The wait-time analysis script of eddy/: the right-biased search that
    turns passenger arrival instants into waits, and the loop that turns
    vehicle snapshots into arrival times and headways. */
module WaitTimes {
  import opened Common

  // ------------------------------------------------------- simulated waits

  predicate Sorted(a: seq<real>) {
    forall i, j :: 0 <= i < j < |a| ==> a[i] <= a[j]
  }

  /** `arrival_times.max()` */
  function MaxOf(a: seq<real>): (m: real)
    requires a != []
    ensures m in a
    ensures forall j :: 0 <= j < |a| ==> a[j] <= m
  {
    if |a| == 1 then a[0]
    else
      var m := MaxOf(a[..|a| - 1]);
      assert a[..|a| - 1] <= a;
      if a[|a| - 1] > m then a[|a| - 1] else m
  }

  /** `np.searchsorted(a, p, side='right')` on a sorted `a`: the number of
      entries at or below `p`, which is the index of the first entry
      strictly above `p` (or `|a|` when there is none). */
  function SearchRight(a: seq<real>, p: real): (i: nat)
    requires Sorted(a)
    ensures i <= |a|
    ensures forall j :: 0 <= j < i ==> a[j] <= p
    ensures forall j :: i <= j < |a| ==> p < a[j]
  {
    if a == [] || p < a[0] then 0
    else 1 + SearchRight(a[1..], p)
  }

  /** `arrival_times.max() * rand.rand(n)` with the draws given: the k-th instant. */
  function PassengerTime(arrivals: seq<real>, draws: seq<real>, k: nat): real
    requires arrivals != [] && k < |draws|
  {
    MaxOf(arrivals) * draws[k]
  }

  /** The search runs off the end exactly for a passenger at or after the
      latest arrival. */
  lemma SearchRightPastMax(a: seq<real>, p: real)
    requires Sorted(a) && a != []
    ensures SearchRight(a, p) == |a| <==> p >= MaxOf(a)
  {
    var m := MaxOf(a);
    var j :| 0 <= j < |a| && a[j] == m;
    assert a[j] <= a[|a| - 1];
  }

  /** `simulate_wait_times(arrival_times)`, with the generator's draws in
      [0, 1) supplied as `draws`.  Indexing `arrival_times[i]` fails when a
      passenger comes after the last arrival, and `max()` fails on no
      arrivals; both errors are `None`. */
  function SimulateWaitTimes(arrivals: seq<real>, draws: seq<real>): (waits: Option<seq<real>>)
    requires Sorted(arrivals)
    ensures waits.None? <==>
      arrivals == [] ||
      exists k :: 0 <= k < |draws| && PassengerTime(arrivals, draws, k) >= MaxOf(arrivals)
    ensures waits.Some? ==> |waits.value| == |draws|
    ensures waits.Some? ==> forall k :: 0 <= k < |draws| ==>
      var p := PassengerTime(arrivals, draws, k);
      && waits.value[k] > 0.0
      && p + waits.value[k] in arrivals
      && forall j :: 0 <= j < |arrivals| && arrivals[j] > p ==> arrivals[j] >= p + waits.value[k]
  {
    if arrivals == [] then None
    else
      var idx := seq(|draws|, k requires 0 <= k < |draws| => SearchRight(arrivals, PassengerTime(arrivals, draws, k)));
      if forall k :: 0 <= k < |draws| ==> idx[k] < |arrivals| then
        var waits := seq(|draws|, k requires 0 <= k < |draws| => arrivals[idx[k]] - PassengerTime(arrivals, draws, k));
        assert forall k :: 0 <= k < |draws| ==> PassengerTime(arrivals, draws, k) < MaxOf(arrivals) by {
          forall k | 0 <= k < |draws| ensures PassengerTime(arrivals, draws, k) < MaxOf(arrivals) {
            assert idx[k] < |arrivals|;
            SearchRightPastMax(arrivals, PassengerTime(arrivals, draws, k));
          }
        }
        Some(waits)
      else
        assert exists k :: 0 <= k < |draws| && PassengerTime(arrivals, draws, k) >= MaxOf(arrivals) by {
          var k :| 0 <= k < |draws| && idx[k] >= |arrivals|;
          SearchRightPastMax(arrivals, PassengerTime(arrivals, draws, k));
        }
        None
  }

  lemma ScaleBelow(m: real, d: real)
    requires m > 0.0 && 0.0 <= d < 1.0
    ensures m * d < m
  {
    assert m * (1.0 - d) > 0.0;
  }

  /** With a positive latest arrival and draws in [0, 1), every passenger
      finds a bus, so there is one strictly positive wait per draw. */
  lemma SimulateWaitTimesDefined(arrivals: seq<real>, draws: seq<real>)
    requires Sorted(arrivals) && arrivals != [] && MaxOf(arrivals) > 0.0
    requires forall k :: 0 <= k < |draws| ==> 0.0 <= draws[k] < 1.0
    ensures SimulateWaitTimes(arrivals, draws).Some?
    ensures |SimulateWaitTimes(arrivals, draws).value| == |draws|
    ensures forall k :: 0 <= k < |draws| ==> SimulateWaitTimes(arrivals, draws).value[k] > 0.0
  {
    forall k | 0 <= k < |draws| ensures PassengerTime(arrivals, draws, k) < MaxOf(arrivals) {
      ScaleBelow(MaxOf(arrivals), draws[k]);
      assert MaxOf(arrivals) * draws[k] < MaxOf(arrivals);
      assert PassengerTime(arrivals, draws, k) == MaxOf(arrivals) * draws[k];
    }
  }

  // ---------------------------------------------------------- headway loop

  /** A vehicle entry of a snapshot; only its heading is read. */
  datatype Vehicle = Vehicle(heading: real)

  /** An element of `ttc_list`: a snapshot time (ms) and the vehicles seen. */
  datatype Snapshot = Snapshot(vtime: int, vehicles: seq<Vehicle>)

  /** Vehicles heading above this many degrees count as arrivals. */
  const HeadingThreshold: real := 300.0

  /** The hard-coded first value of `prev` (ms). */
  const InitialPrev: int := 1541710800211

  /** `x / 60000`: milliseconds to minutes, exactly. */
  function Minutes(ms: int): real {
    ms as real / 60000.0
  }

  /** The number of vehicles with `heading > 300`. */
  function Qualifying(vs: seq<Vehicle>): nat {
    if vs == [] then 0
    else Qualifying(vs[..|vs| - 1]) + (if vs[|vs| - 1].heading > HeadingThreshold then 1 else 0)
  }

  function Repeat(x: real, k: nat): (r: seq<real>)
    ensures |r| == k && forall i :: 0 <= i < k ==> r[i] == x
  {
    seq(k, _ => x)
  }

  /** The `arrival_times` the loop appends for `snaps`: each snapshot's time,
      in minutes, once per qualifying vehicle. */
  function Arrivals(snaps: seq<Snapshot>): seq<real> {
    if snaps == [] then []
    else Repeat(Minutes(snaps[0].vtime), Qualifying(snaps[0].vehicles)) + Arrivals(snaps[1..])
  }

  /** The `difference` entries the loop appends for `snaps` starting from
      `prev`: a snapshot with k > 0 qualifying vehicles gives the headway
      `vtime - prev`, then k - 1 zeros, and becomes the new `prev`; a
      snapshot without any gives nothing. */
  function Headways(snaps: seq<Snapshot>, prev: int): seq<real> {
    if snaps == [] then []
    else
      var k := Qualifying(snaps[0].vehicles);
      if k == 0 then Headways(snaps[1..], prev)
      else [Minutes(snaps[0].vtime - prev)] + Repeat(0.0, k - 1) + Headways(snaps[1..], snaps[0].vtime)
  }

  /** The value of `prev` after the loop: the time of the last snapshot with a
      qualifying vehicle, or the initial value when there is none. */
  function PrevAfter(snaps: seq<Snapshot>, prev: int): int {
    if snaps == [] then prev
    else PrevAfter(snaps[1..], if Qualifying(snaps[0].vehicles) > 0 then snaps[0].vtime else prev)
  }

  /** `ttc_list[1:]`: the loop starts at index 1. */
  function Drop1(ttc: seq<Snapshot>): seq<Snapshot> {
    if ttc == [] then [] else ttc[1..]
  }

  /** One headway entry per arrival time. */
  lemma {:induction false} HeadwaysCount(snaps: seq<Snapshot>, prev: int)
    ensures |Headways(snaps, prev)| == |Arrivals(snaps)|
  {
    if snaps != [] {
      HeadwaysCount(snaps[1..], prev);
      HeadwaysCount(snaps[1..], snaps[0].vtime);
    }
  }

  /** Left to right sum, as the accumulator loop computes it. */
  function Sum(s: seq<real>): real {
    if s == [] then 0.0 else Sum(s[..|s| - 1]) + s[|s| - 1]
  }

  lemma {:induction false} SumAppend(a: seq<real>, b: seq<real>)
    ensures Sum(a + b) == Sum(a) + Sum(b)
  {
    if b == [] {
      assert a + b == a;
    } else {
      assert (a + b)[..|a + b| - 1] == a + b[..|b| - 1];
      SumAppend(a, b[..|b| - 1]);
    }
  }

  lemma {:induction false} SumZeros(k: nat)
    ensures Sum(Repeat(0.0, k)) == 0.0
  {
    if k > 0 {
      assert Repeat(0.0, k)[..k - 1] == Repeat(0.0, k - 1);
      SumZeros(k - 1);
    }
  }

  lemma MinutesAdd(a: int, b: int)
    ensures Minutes(a) + Minutes(b) == Minutes(a + b)
  {
  }

  /** What one snapshot with `k > 0` qualifying vehicles contributes adds up
      to its headway. */
  lemma SumHeadwayBlock(h: real, k: nat, rest: seq<real>)
    requires k > 0
    ensures Sum([h] + Repeat(0.0, k - 1) + rest) == h + Sum(rest)
  {
    SumAppend([h] + Repeat(0.0, k - 1), rest);
    SumAppend([h], Repeat(0.0, k - 1));
    SumZeros(k - 1);
    assert [h][..0] == [];
  }

  /** The headways telescope: they add up to the time of the last arrival
      snapshot minus the starting `prev`. */
  lemma {:induction false} HeadwaysTelescope(snaps: seq<Snapshot>, prev: int)
    ensures Sum(Headways(snaps, prev)) == Minutes(PrevAfter(snaps, prev) - prev)
  {
    if snaps != [] {
      var k := Qualifying(snaps[0].vehicles);
      var t := snaps[0].vtime;
      if k == 0 {
        HeadwaysTelescope(snaps[1..], prev);
      } else {
        var rest := Headways(snaps[1..], t);
        assert Headways(snaps, prev) == [Minutes(t - prev)] + Repeat(0.0, k - 1) + rest;
        assert PrevAfter(snaps, prev) == PrevAfter(snaps[1..], t);
        HeadwaysTelescope(snaps[1..], t);
        SumHeadwayBlock(Minutes(t - prev), k, rest);
        MinutesAdd(t - prev, PrevAfter(snaps[1..], t) - t);
      }
    }
  }

  lemma RepeatSnoc(x: real, k: nat)
    ensures Repeat(x, k + 1) == Repeat(x, k) + [x]
  {
  }

  /** One round of the snapshot loop: what it appends, followed by what the
      remaining rounds append, is what the remaining rounds appended before. */
  lemma LoopStep(rest: seq<Snapshot>, n: nat, prev: int, diff: seq<real>, arr: seq<real>)
    requires n < |rest|
    ensures var k := Qualifying(rest[n].vehicles);
      && (if k == 0 then diff else diff + [Minutes(rest[n].vtime - prev)] + Repeat(0.0, k - 1))
           + Headways(rest[n + 1..], if k == 0 then prev else rest[n].vtime)
         == diff + Headways(rest[n..], prev)
      && arr + Repeat(Minutes(rest[n].vtime), k) + Arrivals(rest[n + 1..]) == arr + Arrivals(rest[n..])
  {
    assert rest[n..][0] == rest[n] && rest[n..][1..] == rest[n + 1..];
  }

  /** The vehicle loop of one snapshot: every vehicle heading above the
      threshold is counted, sets `current` to the snapshot's time and appends
      that time to the arrivals. */
  method CountArrivals(snapshot: Snapshot, arrivalTimes: seq<real>, current: int)
    returns (times: nat, arrivalTimes': seq<real>, current': int)
    ensures times == Qualifying(snapshot.vehicles)
    ensures arrivalTimes' == arrivalTimes + Repeat(Minutes(snapshot.vtime), times)
    ensures current' == if times > 0 then snapshot.vtime else current
  {
    times, arrivalTimes', current' := 0, arrivalTimes, current;
    for m := 0 to |snapshot.vehicles|
      invariant times == Qualifying(snapshot.vehicles[..m])
      invariant arrivalTimes' == arrivalTimes + Repeat(Minutes(snapshot.vtime), times)
      invariant current' == if times > 0 then snapshot.vtime else current
    {
      assert snapshot.vehicles[..m + 1][..m] == snapshot.vehicles[..m];
      if snapshot.vehicles[m].heading > HeadingThreshold {
        RepeatSnoc(Minutes(snapshot.vtime), times);
        times := times + 1;
        current' := snapshot.vtime;
        arrivalTimes' := arrivalTimes' + [Minutes(current')];
      }
    }
    assert snapshot.vehicles[..|snapshot.vehicles|] == snapshot.vehicles;
  }

  /** The `for j in range(times)` loop: the first round appends the headway
      `current - prev`, the later ones append zeros, and each sets `prev` to
      `current`. */
  method AppendHeadways(difference: seq<real>, prev: int, current: int, times: nat)
    returns (difference': seq<real>, prev': int)
    ensures times == 0 ==> difference' == difference && prev' == prev
    ensures times > 0 ==>
      difference' == difference + [Minutes(current - prev)] + Repeat(0.0, times - 1) && prev' == current
  {
    difference', prev' := difference, prev;
    for j := 0 to times
      invariant j == 0 ==> difference' == difference && prev' == prev
      invariant j > 0 ==> difference' == difference + [Minutes(current - prev)] + Repeat(0.0, j - 1) && prev' == current
    {
      if j >= 1 {
        RepeatSnoc(0.0, j - 1);
        difference' := difference' + [0.0];
      } else {
        difference' := difference' + [Minutes(current - prev')];
      }
      prev' := current;
    }
  }

  /** The loop at the top level of the script (the `print` in it left out). */
  method HeadwayLoop(ttc: seq<Snapshot>) returns (difference: seq<real>, arrivalTimes: seq<real>)
    ensures difference == [0.0] + Headways(Drop1(ttc), InitialPrev)
    ensures arrivalTimes == Arrivals(Drop1(ttc))
    ensures |difference| == 1 + |arrivalTimes|
  {
    difference := [0.0];
    var prev := InitialPrev;
    var current := 0;
    arrivalTimes := [];
    var rest := Drop1(ttc);
    assert rest[0..] == rest;
    for n := 0 to |rest|
      invariant difference + Headways(rest[n..], prev) == [0.0] + Headways(rest, InitialPrev)
      invariant arrivalTimes + Arrivals(rest[n..]) == Arrivals(rest)
    {
      ghost var arrivals0, diff0, prev0 := arrivalTimes, difference, prev;
      var times;
      times, arrivalTimes, current := CountArrivals(rest[n], arrivalTimes, current);
      difference, prev := AppendHeadways(difference, prev, current, times);
      LoopStep(rest, n, prev0, diff0, arrivals0);
    }
    assert rest[|rest|..] == [];
    HeadwaysCount(rest, InitialPrev);
  }

  /** The squares of the entries, as `difference[i]**2`. */
  function Squares(s: seq<real>): seq<real> {
    seq(|s|, i requires 0 <= i < |s| => s[i] * s[i])
  }

  /** The accumulator loops after the headway loop: `sum`, `count` and
      `sum_squares` over `difference`. */
  method Stats(difference: seq<real>) returns (sum: real, count: nat, sumSquares: real)
    ensures sum == Sum(difference)
    ensures count == |difference|
    ensures sumSquares == Sum(Squares(difference))
  {
    sumSquares := 0.0;
    sum := 0.0;
    count := 0;
    var squares: seq<real> := [];
    for i := 0 to |difference|
      invariant sum == Sum(difference[..i]) && count == i
      invariant squares == Squares(difference[..i])
    {
      assert difference[..i + 1][..i] == difference[..i];
      assert Squares(difference[..i + 1]) == Squares(difference[..i]) + [difference[i] * difference[i]] by {
        var d := difference[..i + 1];
        forall t | 0 <= t < i + 1
          ensures Squares(d)[t] == (Squares(difference[..i]) + [difference[i] * difference[i]])[t]
        {
          if t < i { assert d[t] == difference[..i][t]; }
        }
      }
      sum := sum + difference[i];
      count := count + 1;
      squares := squares + [difference[i] * difference[i]];
    }
    assert difference[..|difference|] == difference;
    for i := 0 to |squares|
      invariant sumSquares == Sum(squares[..i])
    {
      assert squares[..i + 1][..i] == squares[..i];
      sumSquares := sumSquares + squares[i];
    }
    assert squares[..|squares|] == squares;
  }

  /** The `sum` the script prints: the last arrival snapshot's time minus the
      hard-coded first `prev`, in minutes. */
  lemma DifferenceSum(ttc: seq<Snapshot>)
    ensures Sum([0.0] + Headways(Drop1(ttc), InitialPrev))
      == Minutes(PrevAfter(Drop1(ttc), InitialPrev) - InitialPrev)
  {
    SumAppend([0.0], Headways(Drop1(ttc), InitialPrev));
    HeadwaysTelescope(Drop1(ttc), InitialPrev);
    assert Sum([0.0]) == 0.0 by {
      assert [0.0][..0] == [];
    }
  }
}
