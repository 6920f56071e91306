/**
  Crossings per (city, state, time of day): the main loop's per-table
  crossing counts (`pedestrian_crossing_count`) summed by
  `pedestrian_cross_per_city`.
 */
module Cities {
  import opened Tables
  import opened Mapping
  import opened Groups
  import opened Crossing

  /** Road boundaries (fractions of the frame width) and the person class the main loop passes to `pedestrian_crossing`. */
  const MinX: real := 0.45
  const MaxX: real := 0.55
  const PersonClass: int := 0

  /** One value of `pedestrian_crossing_count`: `{"count": count, "ids": ids}`. */
  datatype CrossingCount = CrossingCount(count: nat, ids: seq<int>)

  /**
    `pedestrian_crossing_count` as the main loop fills it, one item per table in
    order: each item lists exactly the person tracks that cross that table's road.
   */
  function CrossingCounts(dfs: seq<(string, Table)>): (r: seq<(string, CrossingCount)>)
    ensures |r| == |dfs|
    ensures forall i :: 0 <= i < |r| ==> r[i].0 == dfs[i].0 && r[i].1.count == |r[i].1.ids| && Distinct(r[i].1.ids)
    ensures forall i, id :: 0 <= i < |r| ==> (id in r[i].1.ids <==> Crosses(dfs[i].1, PersonClass, MinX, MaxX, id))
  {
    var r := seq(|dfs|, i requires 0 <= i < |dfs| =>
      var (n, ids) := PedestrianCrossing(dfs[i].1, MinX, MaxX, PersonClass);
      (dfs[i].0, CrossingCount(n, ids)));
    assert forall i, id :: 0 <= i < |r| ==> (id in r[i].1.ids <==> Crosses(dfs[i].1, PersonClass, MinX, MaxX, id)) by {
      forall i, id | 0 <= i < |r|
        ensures id in r[i].1.ids <==> Crosses(dfs[i].1, PersonClass, MinX, MaxX, id)
      {
        PedestrianCrossingIds(dfs[i].1, MinX, MaxX, PersonClass, id);
      }
    }
    r
  }

  /** Segment `key` is in the mapping, under aggregation key `k`. */
  predicate FoundUnder(lookup: SegmentLookup, key: string, k: AggKey)
  {
    lookup(key).Found? && KeyOf(lookup(key).meta) == k
  }

  /** What `pedestrian_cross_per_city` needs to run without raising: no lookup fails. */
  predicate CitiesReady(lookup: SegmentLookup, counts: seq<(string, CrossingCount)>)
  {
    forall i :: 0 <= i < |counts| ==> !lookup(counts[i].0).Fails?
  }

  /** The count each item adds, under its segment's key; nothing for a segment not in the mapping. */
  function CityContributions(lookup: SegmentLookup, counts: seq<(string, CrossingCount)>): seq<(AggKey, int)>
    requires CitiesReady(lookup, counts)
  {
    if |counts| == 0 then []
    else
      var init := counts[..|counts| - 1];
      var (key, c) := counts[|counts| - 1];
      assert forall i :: 0 <= i < |init| ==> init[i] == counts[i];
      var rest := CityContributions(lookup, init);
      match lookup(key)
      case Found(m) => rest + [(KeyOf(m), c.count as int)]
      case NotFound => rest
  }

  /** `pedestrian_cross_per_city`: the crossing counts summed per (city, state, time of day). */
  function PedestrianCrossPerCity(counts: seq<(string, CrossingCount)>, lookup: SegmentLookup): map<AggKey, int>
    requires CitiesReady(lookup, counts)
  {
    SumByKey(CityContributions(lookup, counts))
  }

  /** Reference: the total count of the items whose segment is found under `k`. */
  function CountUnder(lookup: SegmentLookup, counts: seq<(string, CrossingCount)>, k: AggKey): nat
  {
    if |counts| == 0 then 0
    else
      CountUnder(lookup, counts[..|counts| - 1], k)
      + (if FoundUnder(lookup, counts[|counts| - 1].0, k) then counts[|counts| - 1].1.count else 0)
  }

  /** The last item adds its count under `k` exactly when its segment is found under `k`. */
  lemma CityContributionsLast(lookup: SegmentLookup, counts: seq<(string, CrossingCount)>, k: AggKey)
    requires |counts| > 0 && CitiesReady(lookup, counts)
    ensures CitiesReady(lookup, counts[..|counts| - 1])
    ensures var last := counts[|counts| - 1];
            var rest := CityContributions(lookup, counts[..|counts| - 1]);
            var cs := CityContributions(lookup, counts);
            && (HasKey(cs, k) <==> HasKey(rest, k) || FoundUnder(lookup, last.0, k))
            && SumFor(cs, k) == SumFor(rest, k) + (if FoundUnder(lookup, last.0, k) then last.1.count else 0)
  {
    var init := counts[..|counts| - 1];
    var last := counts[|counts| - 1];
    assert forall i :: 0 <= i < |init| ==> init[i] == counts[i];
    var rest := CityContributions(lookup, init);
    var cs := CityContributions(lookup, counts);
    if lookup(last.0).Found? {
      assert cs == rest + [(KeyOf(lookup(last.0).meta), last.1.count as int)];
      HasKeyInit(cs, k);
      assert cs[..|cs| - 1] == rest;
    }
  }

  lemma {:induction false} CityContributionsSpec(lookup: SegmentLookup, counts: seq<(string, CrossingCount)>, k: AggKey)
    requires CitiesReady(lookup, counts)
    ensures HasKey(CityContributions(lookup, counts), k) <==> exists i :: 0 <= i < |counts| && FoundUnder(lookup, counts[i].0, k)
    ensures SumFor(CityContributions(lookup, counts), k) == CountUnder(lookup, counts, k)
  {
    if |counts| > 0 {
      var init := counts[..|counts| - 1];
      var last := counts[|counts| - 1];
      assert (exists i :: 0 <= i < |counts| && FoundUnder(lookup, counts[i].0, k)) <==>
             (exists i :: 0 <= i < |init| && FoundUnder(lookup, init[i].0, k)) || FoundUnder(lookup, last.0, k) by {
        if exists i :: 0 <= i < |counts| && FoundUnder(lookup, counts[i].0, k) {
          var i :| 0 <= i < |counts| && FoundUnder(lookup, counts[i].0, k);
          if i < |init| {
            assert FoundUnder(lookup, init[i].0, k);
          }
        }
        if exists i :: 0 <= i < |init| && FoundUnder(lookup, init[i].0, k) {
          var i :| 0 <= i < |init| && FoundUnder(lookup, init[i].0, k);
          assert counts[i] == init[i];
        }
      }
      CityContributionsLast(lookup, counts, k);
      CityContributionsSpec(lookup, init, k);
    }
  }

  /**
    A key is present exactly when some item's segment is found under it,
    and holds the total count of those items.
   */
  lemma PedestrianCrossPerCitySpec(counts: seq<(string, CrossingCount)>, lookup: SegmentLookup, k: AggKey)
    requires CitiesReady(lookup, counts)
    ensures k in PedestrianCrossPerCity(counts, lookup) <==> exists i :: 0 <= i < |counts| && FoundUnder(lookup, counts[i].0, k)
    ensures k in PedestrianCrossPerCity(counts, lookup) ==> PedestrianCrossPerCity(counts, lookup)[k] == CountUnder(lookup, counts, k)
  {
    CityContributionsSpec(lookup, counts, k);
    SumByKeySpec(CityContributions(lookup, counts), k);
  }

  /** An item whose segment is not in the mapping changes nothing. */
  lemma PedestrianCrossPerCitySkips(counts: seq<(string, CrossingCount)>, lookup: SegmentLookup, key: string, c: CrossingCount)
    requires CitiesReady(lookup, counts + [(key, c)])
    requires lookup(key).NotFound?
    ensures CitiesReady(lookup, counts)
    ensures PedestrianCrossPerCity(counts + [(key, c)], lookup) == PedestrianCrossPerCity(counts, lookup)
  {
    var all := counts + [(key, c)];
    assert all[..|all| - 1] == counts;
    assert forall i :: 0 <= i < |counts| ==> counts[i] == all[i];
    assert CityContributions(lookup, all) == CityContributions(lookup, counts);
  }
}
