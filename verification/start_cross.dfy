/**
  Time pedestrians wait before starting to cross (`time_to_start_cross`) and
  its per-key mean (`avg_time_to_start_cross`). Every person track is scanned
  in strides of ten rows; a stride is "stable" when the X-center moved by at
  most a margin of a tenth of the track's mean box height. After a run of at
  least three stable strides, the first unstable stride records the run's
  length, converted to seconds at ten frames per stride.
 */
module StartCross {
  import opened Options
  import opened Tables
  import opened Mapping
  import opened Groups

  /** Rows between the two X-centers a stride compares. */
  const Stride: nat := 10

  /** Stable strides needed before an unstable one counts as the start of a crossing. */
  const RunNeeded: nat := 3

  /**
    The comparison of stride `k` (rows `10k` and `10k + 10`); false past the
    last stride the scan visits. A track starting left of the middle is
    tested for the later X lying within the margin of the earlier one; any
    other track for the reversed chain of comparisons, as written, which no
    value meets when the margin is positive.
   */
  predicate Stable(xs: seq<real>, leftToRight: bool, margin: real, k: nat)
  {
    var i := Stride * k;
    && i + Stride < |xs|
    && if leftToRight then xs[i] - margin <= xs[i + Stride] <= xs[i] + margin
       else xs[i] - margin >= xs[i + Stride] >= xs[i] + margin
  }

  /**
    The loop over every tenth row, stopping ten rows short of the end, from stride `k` on,
    with the counter `consecutive` and the flag raised when it reaches three.
    Yields the counter at the `break`, or `None` when the loop ends without one.
   */
  function Scan(xs: seq<real>, leftToRight: bool, margin: real, k: nat, consecutive: nat, flag: bool): Option<nat>
    decreases |xs| - Stride * k
  {
    if Stride * k + Stride >= |xs| then None
    else if Stable(xs, leftToRight, margin, k) then
      Scan(xs, leftToRight, margin, k + 1, consecutive + 1, flag || consecutive + 1 == RunNeeded)
    else if flag then Some(consecutive)
    else Scan(xs, leftToRight, margin, k + 1, 0, false)
  }

  /** Reference: the number of stable strides immediately before stride `m`. */
  function RunBefore(xs: seq<real>, leftToRight: bool, margin: real, m: nat): nat
  {
    if m == 0 then 0
    else if Stable(xs, leftToRight, margin, m - 1) then RunBefore(xs, leftToRight, margin, m - 1) + 1
    else 0
  }

  /** Reference: stride `m` is visited, unstable, and follows a run of at least three stable strides. */
  predicate Commits(xs: seq<real>, leftToRight: bool, margin: real, m: nat)
  {
    && Stride * m + Stride < |xs|
    && !Stable(xs, leftToRight, margin, m)
    && RunBefore(xs, leftToRight, margin, m) >= RunNeeded
  }

  /** One stride of the scan, with the counter equal to the run before it: the counter and flag it passes on. */
  lemma ScanStep(xs: seq<real>, leftToRight: bool, margin: real, k: nat)
    requires Stride * k + Stride < |xs|
    requires !Commits(xs, leftToRight, margin, k)
    ensures var run := RunBefore(xs, leftToRight, margin, k);
            var next := RunBefore(xs, leftToRight, margin, k + 1);
            Scan(xs, leftToRight, margin, k, run, run >= RunNeeded)
              == Scan(xs, leftToRight, margin, k + 1, next, next >= RunNeeded)
  {
  }

  /** From stride `k` on, with no commit before it, the scan finds nothing exactly when no later stride commits. */
  lemma {:induction false} ScanFromNone(xs: seq<real>, leftToRight: bool, margin: real, k: nat)
    ensures var run := RunBefore(xs, leftToRight, margin, k);
            Scan(xs, leftToRight, margin, k, run, run >= RunNeeded).None? <==>
              forall m :: k <= m ==> !Commits(xs, leftToRight, margin, m)
    decreases |xs| - Stride * k
  {
    if Stride * k + Stride >= |xs| {
      assert forall m :: k <= m ==> !(Stride * m + Stride < |xs|);
    } else if !Commits(xs, leftToRight, margin, k) {
      ScanStep(xs, leftToRight, margin, k);
      ScanFromNone(xs, leftToRight, margin, k + 1);
    }
  }

  /** From stride `k` on, the scan yields the run before the first stride that commits. */
  lemma {:induction false} ScanFromFirst(xs: seq<real>, leftToRight: bool, margin: real, k: nat, m: nat)
    requires k <= m && Commits(xs, leftToRight, margin, m)
    requires forall j :: k <= j < m ==> !Commits(xs, leftToRight, margin, j)
    ensures var run := RunBefore(xs, leftToRight, margin, k);
            Scan(xs, leftToRight, margin, k, run, run >= RunNeeded) == Some(RunBefore(xs, leftToRight, margin, m))
    decreases m - k
  {
    if k < m {
      ScanStep(xs, leftToRight, margin, k);
      ScanFromFirst(xs, leftToRight, margin, k + 1, m);
    }
  }

  /**
    The scan of a whole track records a count exactly when some stride
    commits, and then records the run length before the first such stride.
   */
  lemma ScanSpec(xs: seq<real>, leftToRight: bool, margin: real)
    ensures Scan(xs, leftToRight, margin, 0, 0, false).None? <==> forall m: nat :: !Commits(xs, leftToRight, margin, m)
    ensures forall m: nat :: Commits(xs, leftToRight, margin, m) && (forall j: nat :: j < m ==> !Commits(xs, leftToRight, margin, j))
              ==> Scan(xs, leftToRight, margin, 0, 0, false) == Some(RunBefore(xs, leftToRight, margin, m))
  {
    ScanFromNone(xs, leftToRight, margin, 0);
    forall m: nat | Commits(xs, leftToRight, margin, m) && (forall j: nat :: j < m ==> !Commits(xs, leftToRight, margin, j))
      ensures Scan(xs, leftToRight, margin, 0, 0, false) == Some(RunBefore(xs, leftToRight, margin, m))
    {
      ScanFromFirst(xs, leftToRight, margin, 0, m);
    }
  }

  /** A recorded count is always at least three. */
  lemma {:induction false} ScanAtLeastRun(xs: seq<real>, leftToRight: bool, margin: real, k: nat, consecutive: nat, flag: bool)
    requires flag <==> consecutive >= RunNeeded
    ensures Scan(xs, leftToRight, margin, k, consecutive, flag).Some? ==>
              Scan(xs, leftToRight, margin, k, consecutive, flag).value >= RunNeeded
    decreases |xs| - Stride * k
  {
    if Stride * k + Stride < |xs| {
      if Stable(xs, leftToRight, margin, k) {
        ScanAtLeastRun(xs, leftToRight, margin, k + 1, consecutive + 1, flag || consecutive + 1 == RunNeeded);
      } else if !flag {
        ScanAtLeastRun(xs, leftToRight, margin, k + 1, 0, false);
      }
    }
  }

  /** A track of at most ten rows gives the loop nothing to visit. */
  lemma ShortTrackNoEntry(xs: seq<real>, leftToRight: bool, margin: real)
    requires |xs| <= Stride
    ensures Scan(xs, leftToRight, margin, 0, 0, false) == None
  {
  }

  lemma {:induction false} NoStableNoRun(xs: seq<real>, leftToRight: bool, margin: real, m: nat)
    requires forall k :: !Stable(xs, leftToRight, margin, k)
    ensures RunBefore(xs, leftToRight, margin, m) == 0
  {
  }

  /**
    A right-to-left test with a positive margin can never hold
    (`x - m >= y >= x + m` needs `m <= 0`), so such a track records nothing.
   */
  lemma RightToLeftNoEntry(xs: seq<real>, margin: real)
    requires margin > 0.0
    ensures Scan(xs, false, margin, 0, 0, false) == None
  {
    forall k: nat ensures !Stable(xs, false, margin, k) {
    }
    forall m: nat ensures !Commits(xs, false, margin, m) {
      NoStableNoRun(xs, false, margin, m);
    }
    ScanSpec(xs, false, margin);
  }

  // ----- one table -----

  /** One person track's scan: direction from its first X-center, margin a tenth of its mean height. */
  function TrackStart(g: Table): Option<nat>
    requires |g| > 0
  {
    var xs := Xs(g);
    Scan(xs, xs[0] < 0.5, 0.1 * Mean(Heights(g)), 0, 0, false)
  }

  /** `data_cross` for the given person tracks, in the order of `ids`. */
  function CountsFor(people: Table, ids: seq<int>): seq<(int, nat)>
    requires forall i :: 0 <= i < |ids| ==> HasTrack(people, ids[i])
  {
    if |ids| == 0 then []
    else
      var id := ids[|ids| - 1];
      HasTrackNonEmpty(people, id);
      var rest := CountsFor(people, ids[..|ids| - 1]);
      match TrackStart(Track(people, id))
      case Some(c) => rest + [(id, c)]
      case None => rest
  }

  lemma HasTrackOfUids(people: Table, ids: seq<int>)
    requires forall x :: x in ids <==> x in Uids(people)
    ensures forall i :: 0 <= i < |ids| ==> HasTrack(people, ids[i])
  {
    forall i | 0 <= i < |ids| ensures HasTrack(people, ids[i]) {
      assert ids[i] in ids;
      var row := FromUids(people, ids[i]);
      var j :| 0 <= j < |people| && people[j] == row;
    }
  }

  /** `data_cross` of one table: the recorded count of every person track, by ascending track id. */
  function StartCounts(t: Table, pid: int): seq<(int, nat)>
  {
    var people := OfClass(t, pid);
    var ids := GroupKeys(Uids(people));
    HasTrackOfUids(people, ids);
    CountsFor(people, ids)
  }

  /** A track recording a count is listed with it, and nothing else is listed. */
  lemma {:induction false} CountsForSpec(people: Table, ids: seq<int>, id: int, c: nat)
    requires forall i :: 0 <= i < |ids| ==> HasTrack(people, ids[i])
    requires Increasing(ids)
    ensures (id, c) in CountsFor(people, ids) <==>
              id in ids && |Track(people, id)| > 0 && TrackStart(Track(people, id)) == Some(c)
  {
    if |ids| > 0 {
      var init := ids[..|ids| - 1];
      var last := ids[|ids| - 1];
      assert ids == init + [last];
      assert id in ids <==> id in init || id == last;
      assert Increasing(init);
      if id == last {
        assert id !in init by {
          forall k | 0 <= k < |init| ensures init[k] != id {
            assert ids[k] < ids[|ids| - 1];
          }
        }
      }
      var rest := CountsFor(people, init);
      HasTrackNonEmpty(people, last);
      CountsForSpec(people, init, id, c);
      match TrackStart(Track(people, last)) {
        case Some(n) =>
          assert CountsFor(people, ids) == rest + [(last, n)];
          assert (id, c) in CountsFor(people, ids) <==> (id, c) in rest || (id == last && c == n);
        case None =>
          assert CountsFor(people, ids) == rest;
      }
    }
  }

  /** Every listed count is at least three. */
  lemma {:induction false} CountsForAtLeastRun(people: Table, ids: seq<int>)
    requires forall i :: 0 <= i < |ids| ==> HasTrack(people, ids[i])
    ensures forall i :: 0 <= i < |CountsFor(people, ids)| ==> CountsFor(people, ids)[i].1 >= RunNeeded
  {
    if |ids| > 0 {
      var init := ids[..|ids| - 1];
      var last := ids[|ids| - 1];
      CountsForAtLeastRun(people, init);
      HasTrackNonEmpty(people, last);
      var g := Track(people, last);
      var xs := Xs(g);
      ScanAtLeastRun(xs, xs[0] < 0.5, 0.1 * Mean(Heights(g)), 0, 0, false);
    }
  }

  /** The ids of `CountsFor` are a subsequence of `ids`, so ascending when `ids` is. */
  lemma {:induction false} CountsForIncreasing(people: Table, ids: seq<int>)
    requires forall i :: 0 <= i < |ids| ==> HasTrack(people, ids[i])
    requires Increasing(ids)
    ensures forall i, j :: 0 <= i < j < |CountsFor(people, ids)| ==> CountsFor(people, ids)[i].0 < CountsFor(people, ids)[j].0
    ensures forall i :: 0 <= i < |CountsFor(people, ids)| ==> CountsFor(people, ids)[i].0 in ids
  {
    if |ids| > 0 {
      var init := ids[..|ids| - 1];
      CountsForIncreasing(people, init);
      var rest := CountsFor(people, init);
      forall i | 0 <= i < |rest| ensures rest[i].0 < ids[|ids| - 1] {
        var k :| 0 <= k < |init| && init[k] == rest[i].0;
        assert ids[k] == init[k];
      }
    }
  }

  /**
    One table's counts: a person track is listed (once, in ascending id
    order) exactly when its scan records a count, and with that count.
   */
  lemma StartCountsSpec(t: Table, pid: int, id: int, c: nat)
    ensures (id, c) in StartCounts(t, pid) <==>
              HasTrack(OfClass(t, pid), id) && TrackStart(Track(OfClass(t, pid), id)) == Some(c)
    ensures forall i, j :: 0 <= i < j < |StartCounts(t, pid)| ==> StartCounts(t, pid)[i].0 < StartCounts(t, pid)[j].0
  {
    var people := OfClass(t, pid);
    var ids := GroupKeys(Uids(people));
    HasTrackOfUids(people, ids);
    CountsForSpec(people, ids, id, c);
    CountsForIncreasing(people, ids);
    if HasTrack(people, id) {
      var i :| 0 <= i < |people| && people[i].uid == id;
      InUids(people, people[i]);
    }
    if id in ids {
      assert id in Uids(people);
      var row := FromUids(people, id);
      var j :| 0 <= j < |people| && people[j] == row;
    }
  }

  /** Every recorded count divided by a tenth of the frame rate, in order. */
  function StartTimes(counts: seq<(int, nat)>, fps: real): (r: seq<real>)
    requires fps != 0.0
    ensures |r| == |counts|
  {
    seq(|counts|, i requires 0 <= i < |counts| => counts[i].1 as real / (fps / 10.0))
  }

  // ----- all tables -----

  /** What `time_to_start_cross` needs to get through one table without raising. */
  predicate TableReady(lookup: SegmentLookup, key: string, t: Table, pid: int)
  {
    match lookup(key)
    case Fails(_) => false
    case NotFound => true
    case Found(m) => StartCounts(t, pid) != [] ==> m.fps != 0.0
  }

  predicate StartReady(lookup: SegmentLookup, dfs: seq<(string, Table)>, pid: int)
  {
    forall i :: 0 <= i < |dfs| ==> TableReady(lookup, dfs[i].0, dfs[i].1, pid)
  }

  /** What one table adds: nothing for an unknown segment or one without counts, else its times under its key. */
  function TableTimes(lookup: SegmentLookup, key: string, t: Table, pid: int): seq<(AggKey, seq<real>)>
    requires TableReady(lookup, key, t, pid)
  {
    match lookup(key)
    case NotFound => []
    case Found(m) => if StartCounts(t, pid) == [] then [] else [(KeyOf(m), StartTimes(StartCounts(t, pid), m.fps))]
  }

  function StartContributions(lookup: SegmentLookup, dfs: seq<(string, Table)>, pid: int): seq<(AggKey, seq<real>)>
    requires StartReady(lookup, dfs, pid)
  {
    if |dfs| == 0 then []
    else
      var init := dfs[..|dfs| - 1];
      assert forall i :: 0 <= i < |init| ==> init[i] == dfs[i];
      StartContributions(lookup, init, pid) + TableTimes(lookup, dfs[|dfs| - 1].0, dfs[|dfs| - 1].1, pid)
  }

  /** `time_to_start_cross`: the start times per (city, state, time of day), over every table. */
  function TimeToStartCross(lookup: SegmentLookup, dfs: seq<(string, Table)>, pid: int): map<AggKey, seq<real>>
    requires StartReady(lookup, dfs, pid)
  {
    AppendByKey(StartContributions(lookup, dfs, pid))
  }

  /** Every segment found in the mapping has a positive frame rate. */
  predicate PositiveFps(lookup: SegmentLookup, dfs: seq<(string, Table)>)
  {
    forall i :: 0 <= i < |dfs| && lookup(dfs[i].0).Found? ==> lookup(dfs[i].0).meta.fps > 0.0
  }

  predicate IsPositive(v: real)
  {
    v > 0.0
  }

  /** Every stored start time is positive when the frame rate is. */
  lemma StartTimesPositive(t: Table, pid: int, fps: real)
    requires fps > 0.0
    ensures forall j :: 0 <= j < |StartTimes(StartCounts(t, pid), fps)| ==> StartTimes(StartCounts(t, pid), fps)[j] > 0.0
  {
    var people := OfClass(t, pid);
    var ids := GroupKeys(Uids(people));
    HasTrackOfUids(people, ids);
    CountsForAtLeastRun(people, ids);
  }

  lemma {:induction false} StartContributionsPositive(lookup: SegmentLookup, dfs: seq<(string, Table)>, pid: int)
    requires StartReady(lookup, dfs, pid) && PositiveFps(lookup, dfs)
    ensures forall i, j :: 0 <= i < |StartContributions(lookup, dfs, pid)| && 0 <= j < |StartContributions(lookup, dfs, pid)[i].1|
              ==> IsPositive(StartContributions(lookup, dfs, pid)[i].1[j])
  {
    if |dfs| > 0 {
      var init := dfs[..|dfs| - 1];
      assert forall i :: 0 <= i < |init| ==> init[i] == dfs[i];
      StartContributionsPositive(lookup, init, pid);
      var (key, t) := dfs[|dfs| - 1];
      if lookup(key).Found? {
        StartTimesPositive(t, pid, lookup(key).meta.fps);
      }
    }
  }

  /** Every key's list is non-empty and holds positive times when frame rates are positive. */
  lemma TimeToStartCrossPositive(lookup: SegmentLookup, dfs: seq<(string, Table)>, pid: int)
    requires StartReady(lookup, dfs, pid) && PositiveFps(lookup, dfs)
    ensures forall k :: k in TimeToStartCross(lookup, dfs, pid) ==>
              |TimeToStartCross(lookup, dfs, pid)[k]| > 0
              && forall j :: 0 <= j < |TimeToStartCross(lookup, dfs, pid)[k]| ==> TimeToStartCross(lookup, dfs, pid)[k][j] > 0.0
  {
    StartContributionsPositive(lookup, dfs, pid);
    AppendByKeyAll(StartContributions(lookup, dfs, pid), IsPositive);
  }

  /** A table whose segment is unknown, or with no recorded count, changes nothing. */
  lemma TimeToStartCrossSkips(lookup: SegmentLookup, dfs: seq<(string, Table)>, pid: int, key: string, t: Table)
    requires StartReady(lookup, dfs + [(key, t)], pid)
    requires lookup(key).NotFound? || StartCounts(t, pid) == []
    ensures StartReady(lookup, dfs, pid)
    ensures TimeToStartCross(lookup, dfs + [(key, t)], pid) == TimeToStartCross(lookup, dfs, pid)
  {
    var all := dfs + [(key, t)];
    assert all[..|all| - 1] == dfs;
    assert forall i :: 0 <= i < |dfs| ==> dfs[i] == all[i];
    assert StartContributions(lookup, all, pid) == StartContributions(lookup, dfs, pid);
  }

  /** `avg_time_to_start_cross`: the mean start time per key. */
  function AvgTimeToStartCross(lookup: SegmentLookup, dfs: seq<(string, Table)>, pid: int): map<AggKey, real>
    requires StartReady(lookup, dfs, pid)
  {
    AppendByKeyAll(StartContributions(lookup, dfs, pid), v => true);
    MeanByKey(TimeToStartCross(lookup, dfs, pid))
  }

  /** Every key with start times has a positive mean. */
  lemma AvgTimeToStartCrossPositive(lookup: SegmentLookup, dfs: seq<(string, Table)>, pid: int)
    requires StartReady(lookup, dfs, pid) && PositiveFps(lookup, dfs)
    ensures AvgTimeToStartCross(lookup, dfs, pid).Keys == TimeToStartCross(lookup, dfs, pid).Keys
    ensures forall k :: k in AvgTimeToStartCross(lookup, dfs, pid) ==> AvgTimeToStartCross(lookup, dfs, pid)[k] > 0.0
  {
    TimeToStartCrossPositive(lookup, dfs, pid);
    var d := TimeToStartCross(lookup, dfs, pid);
    forall k | k in d ensures Mean(d[k]) > 0.0 {
      MeanPositive(d[k]);
    }
  }
}
