/**
  Walking speed of the crossing pedestrians (`calculate_speed_of_crossing`)
  and its per-key mean (`avg_speed_of_crossing`). The horizontal distance a
  track covers is scaled from image units by its mean box height against the
  city's average body height, divided by the crossing time, and kept unless
  it exceeds the outlier bound.
 */
module Speed {
  import opened Tables
  import opened Mapping
  import opened Groups

  /** Speeds above this are dropped as outliers; exactly this value is kept. */
  const OutlierSpeed: real := 1.2

  /** Facts the speed of track `entry.0` with crossing time `entry.1` needs: rows, a positive mean height and a positive time. */
  predicate TimeReady(t: Table, entry: (int, real))
  {
    |Track(t, entry.0)| > 0 && Mean(Heights(Track(t, entry.0))) > 0.0 && entry.1 > 0.0
  }

  /** `speed_` for one id: the X-center range over the pixels-per-unit ratio, over the time, over 100. */
  function SpeedOf(t: Table, avgHeight: real, entry: (int, real)): real
    requires avgHeight > 0.0 && TimeReady(t, entry)
  {
    var g := Track(t, entry.0);
    var ppm := Mean(Heights(g)) / avgHeight;
    var distance := (MaxOf(Xs(g)) - MinOf(Xs(g))) / ppm;
    distance / entry.1 / 100.0
  }

  /** The speed formula over plain numbers: a range scaled and divided by positive amounts stays non-negative. */
  lemma ScaledRangeNonNegative(lo: real, hi: real, meanHeight: real, avgHeight: real, time: real)
    requires lo <= hi && meanHeight > 0.0 && avgHeight > 0.0 && time > 0.0
    ensures (hi - lo) / (meanHeight / avgHeight) / time / 100.0 >= 0.0
  {
    var ppm := meanHeight / avgHeight;
    DivMonotone(0.0, meanHeight, avgHeight);
    DivMonotone(0.0, hi - lo, ppm);
    DivMonotone(0.0, (hi - lo) / ppm, time);
    DivMonotone(0.0, (hi - lo) / ppm / time, 100.0);
  }

  /** A speed is never negative. */
  lemma SpeedNonNegative(t: Table, avgHeight: real, entry: (int, real))
    requires avgHeight > 0.0 && TimeReady(t, entry)
    ensures SpeedOf(t, avgHeight, entry) >= 0.0
  {
    var xs := Xs(Track(t, entry.0));
    assert MinOf(xs) <= xs[0] <= MaxOf(xs);
    ScaledRangeNonNegative(MinOf(xs), MaxOf(xs), Mean(Heights(Track(t, entry.0))), avgHeight, entry.1);
  }

  /** The speed of every id of a segment, in the order of its ids. */
  function AllSpeeds(t: Table, avgHeight: real, times: seq<(int, real)>): (r: seq<real>)
    requires avgHeight > 0.0
    requires forall i :: 0 <= i < |times| ==> TimeReady(t, times[i])
    ensures |r| == |times|
  {
    seq(|times|, i requires 0 <= i < |times| => SpeedOf(t, avgHeight, times[i]))
  }

  /** The `if speed_ > 1.2: continue` filter, in order. */
  function DropOutliers(vs: seq<real>): (r: seq<real>)
    ensures |r| <= |vs|
    ensures forall v :: v in r <==> v in vs && v <= OutlierSpeed
  {
    if |vs| == 0 then []
    else
      var rest := DropOutliers(vs[..|vs| - 1]);
      assert vs == vs[..|vs| - 1] + [vs[|vs| - 1]];
      if vs[|vs| - 1] > OutlierSpeed then rest else rest + [vs[|vs| - 1]]
  }

  /** The speeds one segment contributes, in the order of its ids, outliers dropped. */
  function SegmentSpeeds(t: Table, avgHeight: real, times: seq<(int, real)>): seq<real>
    requires avgHeight > 0.0
    requires forall i :: 0 <= i < |times| ==> TimeReady(t, times[i])
  {
    DropOutliers(AllSpeeds(t, avgHeight, times))
  }

  /** The outlier filter keeps order and repeats: filtering a concatenation filters each part. */
  lemma {:induction false} DropOutliersAppend(a: seq<real>, b: seq<real>)
    ensures DropOutliers(a + b) == DropOutliers(a) + DropOutliers(b)
    decreases |b|
  {
    if |b| > 0 {
      var b' := b[..|b| - 1];
      assert (a + b)[..|a + b| - 1] == a + b';
      DropOutliersAppend(a, b');
    } else {
      assert a + b == a;
    }
  }

  /** A single speed is kept exactly when it does not exceed the outlier bound. */
  lemma DropOutliersSingle(v: real)
    ensures DropOutliers([v]) == if v <= OutlierSpeed then [v] else []
  {
  }

  /**
    One more id of the segment appends its own speed after those of the ids
    before it, unless that speed exceeds the outlier bound.
   */
  lemma SegmentSpeedsStep(t: Table, avgHeight: real, times: seq<(int, real)>, e: (int, real))
    requires avgHeight > 0.0
    requires forall i :: 0 <= i < |times| ==> TimeReady(t, times[i])
    requires TimeReady(t, e)
    ensures forall i :: 0 <= i < |times + [e]| ==> TimeReady(t, (times + [e])[i])
    ensures SegmentSpeeds(t, avgHeight, times + [e]) ==
              SegmentSpeeds(t, avgHeight, times) +
              (if SpeedOf(t, avgHeight, e) <= OutlierSpeed then [SpeedOf(t, avgHeight, e)] else [])
  {
    var all := AllSpeeds(t, avgHeight, times + [e]);
    assert all == AllSpeeds(t, avgHeight, times) + [SpeedOf(t, avgHeight, e)];
    DropOutliersAppend(AllSpeeds(t, avgHeight, times), [SpeedOf(t, avgHeight, e)]);
    DropOutliersSingle(SpeedOf(t, avgHeight, e));
  }

  /** Every speed a segment keeps lies in [0, 1.2]. */
  lemma SegmentSpeedsWithin(t: Table, avgHeight: real, times: seq<(int, real)>)
    requires avgHeight > 0.0
    requires forall i :: 0 <= i < |times| ==> TimeReady(t, times[i])
    ensures AllWithin(SegmentSpeeds(t, avgHeight, times), 0.0, OutlierSpeed)
  {
    var all := AllSpeeds(t, avgHeight, times);
    var r := DropOutliers(all);
    forall j | 0 <= j < |r| ensures 0.0 <= r[j] <= OutlierSpeed {
      assert r[j] in all;
      var i :| 0 <= i < |all| && all[i] == r[j];
      SpeedNonNegative(t, avgHeight, times[i]);
    }
  }

  /** A segment's speeds are exactly the speeds of its ids that do not exceed the outlier bound. */
  lemma SegmentSpeedsMembers(t: Table, avgHeight: real, times: seq<(int, real)>)
    requires avgHeight > 0.0
    requires forall i :: 0 <= i < |times| ==> TimeReady(t, times[i])
    ensures forall v :: v in SegmentSpeeds(t, avgHeight, times) <==>
              (exists i :: 0 <= i < |times| && v == SpeedOf(t, avgHeight, times[i])) && v <= OutlierSpeed
  {
    var all := AllSpeeds(t, avgHeight, times);
    assert forall v :: v in all <==> exists i :: 0 <= i < |times| && v == SpeedOf(t, avgHeight, times[i]) by {
      forall v | v in all ensures exists i :: 0 <= i < |times| && v == SpeedOf(t, avgHeight, times[i]) {
        var i :| 0 <= i < |all| && all[i] == v;
      }
      forall v | exists i :: 0 <= i < |times| && v == SpeedOf(t, avgHeight, times[i]) ensures v in all {
        var i :| 0 <= i < |times| && v == SpeedOf(t, avgHeight, times[i]);
        assert all[i] == v;
      }
    }
  }

  /**
    A segment's speeds are exactly the speeds of its ids that do not exceed
    the outlier bound, and all of them lie in [0, 1.2].
   */
  lemma SegmentSpeedsSpec(t: Table, avgHeight: real, times: seq<(int, real)>)
    requires avgHeight > 0.0
    requires forall i :: 0 <= i < |times| ==> TimeReady(t, times[i])
    ensures AllWithin(SegmentSpeeds(t, avgHeight, times), 0.0, OutlierSpeed)
    ensures forall v :: v in SegmentSpeeds(t, avgHeight, times) <==>
              (exists i :: 0 <= i < |times| && v == SpeedOf(t, avgHeight, times[i])) && v <= OutlierSpeed
  {
    SegmentSpeedsWithin(t, avgHeight, times);
    SegmentSpeedsMembers(t, avgHeight, times);
  }

  /** What `calculate_speed_of_crossing` needs to get through one item of `data` without raising. */
  predicate EntryReady(lookup: SegmentLookup, dfs: seq<(string, Table)>, key: string, times: seq<(int, real)>)
  {
    || times == []
    || match lookup(key)
       case Fails(_) => false
       case NotFound => true
       case Found(m) =>
         && m.avgHeight > 0.0
         && Get(dfs, key).Some?
         && forall i :: 0 <= i < |times| ==> TimeReady(Get(dfs, key).value, times[i])
  }

  predicate SpeedReady(lookup: SegmentLookup, dfs: seq<(string, Table)>, data: seq<(string, seq<(int, real)>)>)
  {
    forall i :: 0 <= i < |data| ==> EntryReady(lookup, dfs, data[i].0, data[i].1)
  }

  /** What one item of `data` adds: nothing when it is empty or its segment is unknown, else its speeds under its key. */
  function EntrySpeeds(lookup: SegmentLookup, dfs: seq<(string, Table)>, key: string, times: seq<(int, real)>)
    : seq<(AggKey, seq<real>)>
    requires EntryReady(lookup, dfs, key, times)
  {
    if times == [] then []
    else
      match lookup(key)
      case NotFound => []
      case Found(m) => [(KeyOf(m), SegmentSpeeds(Get(dfs, key).value, m.avgHeight, times))]
  }

  /** The contributions of the items of `data`, in iteration order. */
  function SpeedContributions(lookup: SegmentLookup, dfs: seq<(string, Table)>, data: seq<(string, seq<(int, real)>)>)
    : seq<(AggKey, seq<real>)>
    requires SpeedReady(lookup, dfs, data)
  {
    if |data| == 0 then []
    else
      var init := data[..|data| - 1];
      assert forall i :: 0 <= i < |init| ==> init[i] == data[i];
      SpeedContributions(lookup, dfs, init) + EntrySpeeds(lookup, dfs, data[|data| - 1].0, data[|data| - 1].1)
  }

  /** `calculate_speed_of_crossing`: the kept speeds per (city, state, time of day), in iteration order. */
  function CalculateSpeedOfCrossing(lookup: SegmentLookup, dfs: seq<(string, Table)>, data: seq<(string, seq<(int, real)>)>)
    : map<AggKey, seq<real>>
    requires SpeedReady(lookup, dfs, data)
  {
    AppendByKey(SpeedContributions(lookup, dfs, data))
  }

  lemma {:induction false} SpeedContributionsWithin(lookup: SegmentLookup, dfs: seq<(string, Table)>, data: seq<(string, seq<(int, real)>)>)
    requires SpeedReady(lookup, dfs, data)
    ensures forall i :: 0 <= i < |SpeedContributions(lookup, dfs, data)| ==>
              AllWithin(SpeedContributions(lookup, dfs, data)[i].1, 0.0, OutlierSpeed)
  {
    if |data| > 0 {
      var init := data[..|data| - 1];
      assert forall i :: 0 <= i < |init| ==> init[i] == data[i];
      SpeedContributionsWithin(lookup, dfs, init);
      var (key, times) := data[|data| - 1];
      if times != [] && lookup(key).Found? {
        var m := lookup(key).meta;
        SegmentSpeedsSpec(Get(dfs, key).value, m.avgHeight, times);
      }
    }
  }

  predicate InSpeedRange(v: real)
  {
    0.0 <= v <= OutlierSpeed
  }

  /** Every key's list is non-empty and holds speeds in [0, 1.2]. */
  lemma SpeedOfCrossingBounds(lookup: SegmentLookup, dfs: seq<(string, Table)>, data: seq<(string, seq<(int, real)>)>)
    requires SpeedReady(lookup, dfs, data)
    ensures forall k :: k in CalculateSpeedOfCrossing(lookup, dfs, data) ==>
              |CalculateSpeedOfCrossing(lookup, dfs, data)[k]| > 0
              && AllWithin(CalculateSpeedOfCrossing(lookup, dfs, data)[k], 0.0, OutlierSpeed)
  {
    var cs := SpeedContributions(lookup, dfs, data);
    SpeedContributionsWithin(lookup, dfs, data);
    AppendByKeyAll(cs, InSpeedRange);
  }

  /** An item of `data` that is empty, or whose segment is not in the mapping, changes nothing. */
  lemma SpeedOfCrossingSkips(lookup: SegmentLookup, dfs: seq<(string, Table)>, data: seq<(string, seq<(int, real)>)>,
                             key: string, times: seq<(int, real)>)
    requires SpeedReady(lookup, dfs, data + [(key, times)])
    requires times == [] || lookup(key).NotFound?
    ensures SpeedReady(lookup, dfs, data)
    ensures CalculateSpeedOfCrossing(lookup, dfs, data + [(key, times)]) == CalculateSpeedOfCrossing(lookup, dfs, data)
  {
    var all := data + [(key, times)];
    assert all[..|all| - 1] == data;
    assert forall i :: 0 <= i < |data| ==> data[i] == all[i];
    assert SpeedContributions(lookup, dfs, all) == SpeedContributions(lookup, dfs, data);
  }

  /** `avg_speed_of_crossing`: the mean kept speed per key. */
  function AvgSpeedOfCrossing(lookup: SegmentLookup, dfs: seq<(string, Table)>, data: seq<(string, seq<(int, real)>)>)
    : map<AggKey, real>
    requires SpeedReady(lookup, dfs, data)
  {
    SpeedOfCrossingBounds(lookup, dfs, data);
    MeanByKey(CalculateSpeedOfCrossing(lookup, dfs, data))
  }

  /** Every key with kept speeds has a mean speed, and it lies in [0, 1.2]. */
  lemma AvgSpeedBounds(lookup: SegmentLookup, dfs: seq<(string, Table)>, data: seq<(string, seq<(int, real)>)>)
    requires SpeedReady(lookup, dfs, data)
    ensures AvgSpeedOfCrossing(lookup, dfs, data).Keys == CalculateSpeedOfCrossing(lookup, dfs, data).Keys
    ensures forall k :: k in AvgSpeedOfCrossing(lookup, dfs, data) ==> 0.0 <= AvgSpeedOfCrossing(lookup, dfs, data)[k] <= OutlierSpeed
  {
    SpeedOfCrossingBounds(lookup, dfs, data);
    MeanByKeyWithin(CalculateSpeedOfCrossing(lookup, dfs, data), 0.0, OutlierSpeed);
  }
}
