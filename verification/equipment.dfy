/**
  Crossings with and without traffic equipment
  (`crossing_event_wt_traffic_equipment`) and their rate per minute and
  inhabitant (`nomalised_crossing_wth_traffic_equipment`). A crossing counts
  as "with equipment" when a traffic light or stop sign is detected anywhere
  between the first and last row of the pedestrian's track.
 */
module Equipment {
  import opened Tables
  import opened Mapping
  import opened Groups

  /** YOLO class ids of a traffic light and a stop sign. */
  const TrafficLight: int := 9
  const StopSign: int := 11

  /** A YOLO class id is a traffic light (9) or a stop sign (11). */
  predicate IsEquipment(yolo: int)
  {
    yolo == TrafficLight || yolo == StopSign
  }

  /** Some row is a traffic light or a stop sign. */
  function AnyEquipment(s: Table): bool
  {
    |s| > 0 && (IsEquipment(s[0].yolo) || AnyEquipment(s[1..]))
  }

  lemma {:induction false} AnyEquipmentSpec(s: Table)
    ensures AnyEquipment(s) <==> exists p :: 0 <= p < |s| && IsEquipment(s[p].yolo)
  {
    if |s| > 0 {
      AnyEquipmentSpec(s[1..]);
      if exists p :: 0 <= p < |s| && IsEquipment(s[p].yolo) {
        var p :| 0 <= p < |s| && IsEquipment(s[p].yolo);
        if p > 0 { assert s[1..][p - 1] == s[p]; }
      }
    }
  }

  /** Label of the first row of track `id`. */
  function FirstRowOf(t: Table, id: int): (p: nat)
    requires HasTrack(t, id)
    ensures p < |t| && t[p].uid == id
    ensures forall j :: 0 <= j < p ==> t[j].uid != id
  {
    if t[0].uid == id then 0
    else
      assert HasTrack(t[1..], id) by {
        var i :| 0 <= i < |t| && t[i].uid == id;
        assert t[1..][i - 1] == t[i];
      }
      1 + FirstRowOf(t[1..], id)
  }

  /** Label of the last row of track `id`. */
  function LastRowOf(t: Table, id: int): (p: nat)
    requires HasTrack(t, id)
    ensures p < |t| && t[p].uid == id
    ensures forall j :: p < j < |t| ==> t[j].uid != id
  {
    if t[|t| - 1].uid == id then |t| - 1
    else
      assert HasTrack(t[..|t| - 1], id) by {
        var i :| 0 <= i < |t| && t[i].uid == id;
        assert t[..|t| - 1][i] == t[i];
      }
      LastRowOf(t[..|t| - 1], id)
  }

  /** The test for one crossing id: equipment somewhere from its first row to its last row, both included. */
  predicate CrossedWithEquipment(t: Table, id: int)
    requires HasTrack(t, id)
  {
    AnyEquipment(t[FirstRowOf(t, id)..LastRowOf(t, id) + 1])
  }

  /** Equipment in the slice `t[a..b]` is equipment at some position from `a` up to `b`. */
  lemma AnyEquipmentSlice(t: Table, a: nat, b: nat)
    requires a <= b <= |t|
    ensures AnyEquipment(t[a..b]) <==> exists p :: a <= p < b && IsEquipment(t[p].yolo)
  {
    var s := t[a..b];
    AnyEquipmentSpec(s);
    assert forall q :: 0 <= q < |s| ==> s[q] == t[a + q];
    if exists p :: a <= p < b && IsEquipment(t[p].yolo) {
      var p :| a <= p < b && IsEquipment(t[p].yolo);
      assert s[p - a] == t[p];
    }
  }

  /** Reference: some row between the track's first and last row, inclusive, is a traffic light or stop sign. */
  lemma CrossedWithEquipmentSpec(t: Table, id: int)
    requires HasTrack(t, id)
    ensures CrossedWithEquipment(t, id) <==>
              exists p :: FirstRowOf(t, id) <= p <= LastRowOf(t, id) && IsEquipment(t[p].yolo)
  {
    var a := FirstRowOf(t, id);
    var b := LastRowOf(t, id);
    AnyEquipmentSlice(t, a, b + 1);
  }

  /** How many of one segment's crossing ids crossed with equipment, and how many without. */
  function Classify(t: Table, times: seq<(int, real)>): (r: (nat, nat))
    requires forall i :: 0 <= i < |times| ==> HasTrack(t, times[i].0)
  {
    if |times| == 0 then (0, 0)
    else
      var (w, wo) := Classify(t, times[..|times| - 1]);
      if CrossedWithEquipment(t, times[|times| - 1].0) then (w + 1, wo) else (w, wo + 1)
  }

  /** Reference: the positions of the ids that crossed with equipment. */
  function WithIndices(t: Table, times: seq<(int, real)>): set<nat>
    requires forall i :: 0 <= i < |times| ==> HasTrack(t, times[i].0)
  {
    set i: nat | i < |times| && CrossedWithEquipment(t, times[i].0)
  }

  lemma WithIndicesStep(t: Table, times: seq<(int, real)>)
    requires |times| > 0
    requires forall i :: 0 <= i < |times| ==> HasTrack(t, times[i].0)
    ensures var n := |times| - 1;
            WithIndices(t, times) ==
              WithIndices(t, times[..n]) + (if CrossedWithEquipment(t, times[n].0) then {n} else {})
  {
    var n := |times| - 1;
    var init := times[..n];
    forall i: nat | i < n ensures init[i] == times[i] {
    }
  }

  /** Each id increments exactly one counter: the two add up to the number of ids. */
  lemma {:induction false} ClassifyPartition(t: Table, times: seq<(int, real)>)
    requires forall i :: 0 <= i < |times| ==> HasTrack(t, times[i].0)
    ensures Classify(t, times).0 + Classify(t, times).1 == |times|
  {
    if |times| > 0 {
      ClassifyPartition(t, times[..|times| - 1]);
    }
  }

  /** The first counter is the number of ids whose rows span a traffic light or stop sign. */
  lemma {:induction false} ClassifyCountsWith(t: Table, times: seq<(int, real)>)
    requires forall i :: 0 <= i < |times| ==> HasTrack(t, times[i].0)
    ensures Classify(t, times).0 == |WithIndices(t, times)|
  {
    if |times| > 0 {
      var n := |times| - 1;
      ClassifyCountsWith(t, times[..n]);
      WithIndicesStep(t, times);
      assert n !in WithIndices(t, times[..n]);
    }
  }

  /** What one found segment adds to the four dicts. */
  datatype Tally = Tally(key: AggKey, ids: nat, with: nat, without: nat, duration: int, population: real)

  /** What `crossing_event_wt_traffic_equipment` needs to get through one item of `data` without raising. */
  predicate EntryReady(lookup: SegmentLookup, dfs: seq<(string, Table)>, key: string, times: seq<(int, real)>)
  {
    match lookup(key)
    case Fails(_) => false
    case NotFound => true
    case Found(_) =>
      times == [] || (Get(dfs, key).Some? && forall i :: 0 <= i < |times| ==> HasTrack(Get(dfs, key).value, times[i].0))
  }

  predicate EquipmentReady(lookup: SegmentLookup, dfs: seq<(string, Table)>, data: seq<(string, seq<(int, real)>)>)
  {
    forall i :: 0 <= i < |data| ==> EntryReady(lookup, dfs, data[i].0, data[i].1)
  }

  /** One item's tally: none for a segment not in the mapping. An empty item still adds its duration and zero counts. */
  function EntryTally(lookup: SegmentLookup, dfs: seq<(string, Table)>, key: string, times: seq<(int, real)>): seq<Tally>
    requires EntryReady(lookup, dfs, key, times)
  {
    match lookup(key)
    case NotFound => []
    case Found(m) =>
      var (w, wo) := if times == [] then (0, 0) else Classify(Get(dfs, key).value, times);
      [Tally(KeyOf(m), |times|, w, wo, m.end - m.start, m.population)]
  }

  function Tallies(lookup: SegmentLookup, dfs: seq<(string, Table)>, data: seq<(string, seq<(int, real)>)>): seq<Tally>
    requires EquipmentReady(lookup, dfs, data)
  {
    if |data| == 0 then []
    else
      var init := data[..|data| - 1];
      assert forall i :: 0 <= i < |init| ==> init[i] == data[i];
      Tallies(lookup, dfs, init) + EntryTally(lookup, dfs, data[|data| - 1].0, data[|data| - 1].1)
  }

  function WithColumn(ts: seq<Tally>): (r: seq<(AggKey, int)>)
    ensures |r| == |ts|
  {
    seq(|ts|, i requires 0 <= i < |ts| => (ts[i].key, ts[i].with as int))
  }

  function WithoutColumn(ts: seq<Tally>): (r: seq<(AggKey, int)>)
    ensures |r| == |ts|
  {
    seq(|ts|, i requires 0 <= i < |ts| => (ts[i].key, ts[i].without as int))
  }

  function DurationColumn(ts: seq<Tally>): (r: seq<(AggKey, int)>)
    ensures |r| == |ts|
  {
    seq(|ts|, i requires 0 <= i < |ts| => (ts[i].key, ts[i].duration))
  }

  function PopulationColumn(ts: seq<Tally>): (r: seq<(AggKey, real)>)
    ensures |r| == |ts|
  {
    seq(|ts|, i requires 0 <= i < |ts| => (ts[i].key, ts[i].population))
  }

  function IdsColumn(ts: seq<Tally>): (r: seq<(AggKey, int)>)
    ensures |r| == |ts|
  {
    seq(|ts|, i requires 0 <= i < |ts| => (ts[i].key, ts[i].ids))
  }

  /** Every tally splits its ids between its two counters. */
  predicate Partitioned(ts: seq<Tally>)
  {
    forall i :: 0 <= i < |ts| ==> ts[i].with + ts[i].without == ts[i].ids
  }

  /** The four dicts `crossing_event_wt_traffic_equipment` returns. */
  datatype EquipmentCounts = EquipmentCounts(
    withEquipment: map<AggKey, int>,
    withoutEquipment: map<AggKey, int>,
    time: map<AggKey, int>,
    population: map<AggKey, real>)

  /** The four dicts built from the tallies in order: three running sums and a last write. */
  function Summarise(ts: seq<Tally>): EquipmentCounts
  {
    EquipmentCounts(SumByKey(WithColumn(ts)), SumByKey(WithoutColumn(ts)), SumByKey(DurationColumn(ts)), LastByKey(PopulationColumn(ts)))
  }

  function CrossingEventWithEquipment(lookup: SegmentLookup, dfs: seq<(string, Table)>, data: seq<(string, seq<(int, real)>)>)
    : EquipmentCounts
    requires EquipmentReady(lookup, dfs, data)
  {
    Summarise(Tallies(lookup, dfs, data))
  }

  /** Every tally splits the ids of its item between its two counters. */
  lemma {:induction false} TalliesPartitioned(lookup: SegmentLookup, dfs: seq<(string, Table)>, data: seq<(string, seq<(int, real)>)>)
    requires EquipmentReady(lookup, dfs, data)
    ensures Partitioned(Tallies(lookup, dfs, data))
  {
    if |data| > 0 {
      var init := data[..|data| - 1];
      assert forall i :: 0 <= i < |init| ==> init[i] == data[i];
      TalliesPartitioned(lookup, dfs, init);
      var (key, times) := data[|data| - 1];
      if lookup(key).Found? && times != [] {
        ClassifyPartition(Get(dfs, key).value, times);
      }
    }
  }

  /** The four dicts share one key set: the keys of the tallies. */
  lemma SameKeys(ts: seq<Tally>, k: AggKey)
    ensures var e := Summarise(ts);
            && (k in e.withEquipment <==> exists i :: 0 <= i < |ts| && ts[i].key == k)
            && (k in e.withEquipment <==> k in e.withoutEquipment)
            && (k in e.withEquipment <==> k in e.time)
            && (k in e.withEquipment <==> k in e.population)
  {
    var w, wo, d, p := WithColumn(ts), WithoutColumn(ts), DurationColumn(ts), PopulationColumn(ts);
    SumByKeySpec(w, k);
    SumByKeySpec(wo, k);
    SumByKeySpec(d, k);
    LastByKeySpec(p, k);
    var present := exists i :: 0 <= i < |ts| && ts[i].key == k;
    if present {
      var i :| 0 <= i < |ts| && ts[i].key == k;
      assert w[i].0 == k && wo[i].0 == k && d[i].0 == k && p[i].0 == k;
    }
    if HasKey(w, k) { var i :| 0 <= i < |w| && w[i].0 == k; assert ts[i].key == k; }
    if HasKey(wo, k) { var i :| 0 <= i < |wo| && wo[i].0 == k; assert ts[i].key == k; }
    if HasKey(d, k) { var i :| 0 <= i < |d| && d[i].0 == k; assert ts[i].key == k; }
    if HasKey(p, k) { var i :| 0 <= i < |p| && p[i].0 == k; assert ts[i].key == k; }
  }

  /**
    Under each key, the two counters add up to the crossing ids of the
    tallies with that key, and the time is the sum of their durations.
   */
  lemma CountersPartition(ts: seq<Tally>, k: AggKey)
    requires Partitioned(ts)
    requires k in Summarise(ts).withEquipment
    ensures var e := Summarise(ts);
            && k in e.withoutEquipment && k in e.time
            && e.withEquipment[k] + e.withoutEquipment[k] == SumFor(IdsColumn(ts), k)
            && e.time[k] == SumFor(DurationColumn(ts), k)
  {
    SameKeys(ts, k);
    SumByKeySpec(WithColumn(ts), k);
    SumByKeySpec(WithoutColumn(ts), k);
    SumByKeySpec(DurationColumn(ts), k);
    SumForPointwise(WithColumn(ts), WithoutColumn(ts), IdsColumn(ts), k);
  }

  /** The population stored under a key is that of the last tally under it. */
  lemma PopulationLastWrite(ts: seq<Tally>, k: AggKey)
    requires k in Summarise(ts).population
    ensures exists i :: 0 <= i < |ts| && ts[i].key == k && Summarise(ts).population[k] == ts[i].population
                        && forall j :: i < j < |ts| ==> ts[j].key != k
  {
    var col := PopulationColumn(ts);
    LastByKeySpec(col, k);
    var i :| 0 <= i < |col| && col[i].0 == k && LastByKey(col)[k] == col[i].1
             && forall j :: i < j < |col| ==> col[j].0 != k;
    assert forall j :: i < j < |ts| ==> ts[j].key == col[j].0;
    assert ts[i].key == k && ts[i].population == col[i].1;
  }

  // ----- normalisation -----

  /** Crossings per minute and inhabitant: the events scaled from per second to per minute of footage, then divided by the population. */
  function Rate(events: int, time: int, population: real): real
    requires time != 0 && population != 0.0
  {
    (events * 60) as real / time as real / population
  }

  /** Rates over the same time and population add up. */
  lemma RateSum(a: int, b: int, time: int, population: real)
    requires time != 0 && population != 0.0
    ensures Rate(a, time, population) + Rate(b, time, population) == Rate(a + b, time, population)
  {
    var t := time as real;
    assert (a * 60) as real / t + (b * 60) as real / t == ((a + b) * 60) as real / t;
  }

  /** Six events over sixty seconds in a city of a thousand: 0.006. */
  lemma RateExample()
    ensures Rate(6, 60, 1000.0) == 0.006
  {
  }

  /** What the normalisation needs: no zero time and no zero population under any key. */
  predicate NormalisationReady(e: EquipmentCounts)
  {
    forall k :: k in e.time ==>
      && k in e.withEquipment && k in e.withoutEquipment && k in e.population
      && e.time[k] != 0 && e.population[k] != 0.0
  }

  /** `nomalised_crossing_wth_traffic_equipment` on the four dicts: rates with and without equipment, per key of `time`. */
  function Normalised(e: EquipmentCounts): (r: (map<AggKey, real>, map<AggKey, real>))
    requires NormalisationReady(e)
    ensures r.0.Keys == e.time.Keys && r.1.Keys == e.time.Keys
  {
    (map k | k in e.time :: Rate(e.withEquipment[k], e.time[k], e.population[k]),
     map k | k in e.time :: Rate(e.withoutEquipment[k], e.time[k], e.population[k]))
  }

  /** The two rates of a key add up to the rate of all its crossing ids. */
  lemma NormalisedSum(ts: seq<Tally>, k: AggKey)
    requires Partitioned(ts)
    requires NormalisationReady(Summarise(ts))
    requires k in Summarise(ts).time
    ensures var e := Summarise(ts);
            Normalised(e).0[k] + Normalised(e).1[k] == Rate(SumFor(IdsColumn(ts), k), e.time[k], e.population[k])
  {
    var e := Summarise(ts);
    CountersPartition(ts, k);
    RateSum(e.withEquipment[k], e.withoutEquipment[k], e.time[k], e.population[k]);
  }

  /** `nomalised_crossing_wth_traffic_equipment`: the two rates per key, from the four dicts of the same data. */
  function NomalisedCrossing(lookup: SegmentLookup, dfs: seq<(string, Table)>, data: seq<(string, seq<(int, real)>)>)
    : (map<AggKey, real>, map<AggKey, real>)
    requires EquipmentReady(lookup, dfs, data)
    requires NormalisationReady(CrossingEventWithEquipment(lookup, dfs, data))
  {
    Normalised(CrossingEventWithEquipment(lookup, dfs, data))
  }

  /** For every key, the rates with and without equipment add up to the rate of all the key's crossing ids. */
  lemma NomalisedCrossingSum(lookup: SegmentLookup, dfs: seq<(string, Table)>, data: seq<(string, seq<(int, real)>)>, k: AggKey)
    requires EquipmentReady(lookup, dfs, data)
    requires NormalisationReady(CrossingEventWithEquipment(lookup, dfs, data))
    requires k in CrossingEventWithEquipment(lookup, dfs, data).time
    ensures var e := CrossingEventWithEquipment(lookup, dfs, data);
            var n := NomalisedCrossing(lookup, dfs, data);
            k in n.0 && k in n.1
            && n.0[k] + n.1[k] == Rate(SumFor(IdsColumn(Tallies(lookup, dfs, data)), k), e.time[k], e.population[k])
  {
    TalliesPartitioned(lookup, dfs, data);
    NormalisedSum(Tallies(lookup, dfs, data), k);
  }
}
