/**
  Crossing detection on one segment's detection table: counting the tracks of
  a class, finding the person tracks that reach both road boundaries, and
  the number of frames each of them takes to cross.
 */
module Crossing {
  import opened Options
  import opened Tables
  import opened Mapping

  // ----- count_object -----

  /** Number of distinct track ids among the rows of class `cls`: the number of groups when those rows are grouped by id. */
  function CountObject(t: Table, cls: int): (n: nat)
    ensures n == |set row | row in t && row.yolo == cls :: row.uid|
  {
    var rows := OfClass(t, cls);
    var ids := Unique(Uids(rows));
    DistinctCard(ids);
    assert (set v | v in ids) == set row | row in t && row.yolo == cls :: row.uid by {
      forall v | v in ids ensures exists row :: row in t && row.yolo == cls && row.uid == v {
        var i :| 0 <= i < |rows| && Uids(rows)[i] == v;
        assert rows[i] in rows;
      }
      forall row | row in t && row.yolo == cls ensures row.uid in ids {
        var i :| 0 <= i < |rows| && rows[i] == row;
        assert Uids(rows)[i] == row.uid;
      }
    }
    |ids|
  }

  // ----- pedestrian_crossing -----

  /** Some X-center is at or left of `v`. */
  function AnyAtMost(xs: seq<real>, v: real): bool
  {
    |xs| > 0 && (xs[0] <= v || AnyAtMost(xs[1..], v))
  }

  /** Some X-center is at or right of `v`. */
  function AnyAtLeast(xs: seq<real>, v: real): bool
  {
    |xs| > 0 && (xs[0] >= v || AnyAtLeast(xs[1..], v))
  }

  lemma {:induction false} AnyAtMostSpec(xs: seq<real>, v: real)
    ensures AnyAtMost(xs, v) <==> exists i :: 0 <= i < |xs| && xs[i] <= v
  {
    if |xs| > 0 {
      AnyAtMostSpec(xs[1..], v);
      if exists i :: 0 <= i < |xs| && xs[i] <= v {
        var i :| 0 <= i < |xs| && xs[i] <= v;
        if i > 0 { assert xs[1..][i - 1] == xs[i]; }
      }
    }
  }

  lemma {:induction false} AnyAtLeastSpec(xs: seq<real>, v: real)
    ensures AnyAtLeast(xs, v) <==> exists i :: 0 <= i < |xs| && xs[i] >= v
  {
    if |xs| > 0 {
      AnyAtLeastSpec(xs[1..], v);
      if exists i :: 0 <= i < |xs| && xs[i] >= v {
        var i :| 0 <= i < |xs| && xs[i] >= v;
        if i > 0 { assert xs[1..][i - 1] == xs[i]; }
      }
    }
  }

  /** The group filter's test on one track's rows: some X-center at or left of `minX` and some at or right of `maxX`. */
  predicate GroupPasses(g: Table, minX: real, maxX: real)
  {
    AnyAtMost(Xs(g), minX) && AnyAtLeast(Xs(g), maxX)
  }

  /** The group filter: the rows of `rows` whose whole track in `people` passes, in table order. */
  function KeepPassing(people: Table, rows: Table, minX: real, maxX: real): (r: Table)
    ensures forall row :: row in r <==> row in rows && GroupPasses(Track(people, row.uid), minX, maxX)
  {
    if |rows| == 0 then []
    else
      var rest := KeepPassing(people, rows[..|rows| - 1], minX, maxX);
      var last := rows[|rows| - 1];
      assert rows == rows[..|rows| - 1] + [last];
      if GroupPasses(Track(people, last.uid), minX, maxX) then rest + [last] else rest
  }

  /** Reference: track `id` has a row of class `pid` at or left of `minX` and one at or right of `maxX`. */
  predicate Crosses(t: Table, pid: int, minX: real, maxX: real, id: int)
  {
    && (exists i :: 0 <= i < |t| && t[i].yolo == pid && t[i].uid == id && t[i].x <= minX)
    && (exists j :: 0 <= j < |t| && t[j].yolo == pid && t[j].uid == id && t[j].x >= maxX)
  }

  /** `pedestrian_crossing`: the number of crossing person tracks and their ids, in order of first appearance. */
  function PedestrianCrossing(t: Table, minX: real, maxX: real, pid: int): (res: (nat, seq<int>))
    ensures res.0 == |res.1|
    ensures Distinct(res.1)
  {
    var people := OfClass(t, pid);
    var ids := Unique(Uids(KeepPassing(people, people, minX, maxX)));
    (|ids|, ids)
  }

  /** A row of class `pid` of track `id` is a row of that track among the class rows, and back. */
  lemma InClassTrack(t: Table, pid: int, id: int, row: Row)
    ensures row in Track(OfClass(t, pid), id) <==> row in t && row.yolo == pid && row.uid == id
  {
  }

  lemma GroupPassesSound(t: Table, pid: int, minX: real, maxX: real, id: int)
    requires GroupPasses(Track(OfClass(t, pid), id), minX, maxX)
    ensures Crosses(t, pid, minX, maxX, id)
  {
    var g := Track(OfClass(t, pid), id);
    AnyAtMostSpec(Xs(g), minX);
    AnyAtLeastSpec(Xs(g), maxX);
    var a :| 0 <= a < |g| && Xs(g)[a] <= minX;
    var b :| 0 <= b < |g| && Xs(g)[b] >= maxX;
    InClassTrack(t, pid, id, g[a]);
    InClassTrack(t, pid, id, g[b]);
    var i :| 0 <= i < |t| && t[i] == g[a];
    var j :| 0 <= j < |t| && t[j] == g[b];
  }

  /** A row of `g` at or left of `v` makes `AnyAtMost` hold on the X-centers of `g`. */
  lemma AnyAtMostOfRow(g: Table, row: Row, v: real)
    requires row in g && row.x <= v
    ensures AnyAtMost(Xs(g), v)
  {
    var a :| 0 <= a < |g| && g[a] == row;
    assert Xs(g)[a] <= v;
    AnyAtMostSpec(Xs(g), v);
  }

  /** A row of `g` at or right of `v` makes `AnyAtLeast` hold on the X-centers of `g`. */
  lemma AnyAtLeastOfRow(g: Table, row: Row, v: real)
    requires row in g && row.x >= v
    ensures AnyAtLeast(Xs(g), v)
  {
    var a :| 0 <= a < |g| && g[a] == row;
    assert Xs(g)[a] >= v;
    AnyAtLeastSpec(Xs(g), v);
  }

  lemma GroupPassesComplete(t: Table, pid: int, minX: real, maxX: real, id: int)
    requires Crosses(t, pid, minX, maxX, id)
    ensures GroupPasses(Track(OfClass(t, pid), id), minX, maxX)
  {
    var g := Track(OfClass(t, pid), id);
    var i :| 0 <= i < |t| && t[i].yolo == pid && t[i].uid == id && t[i].x <= minX;
    var j :| 0 <= j < |t| && t[j].yolo == pid && t[j].uid == id && t[j].x >= maxX;
    InClassTrack(t, pid, id, t[i]);
    InClassTrack(t, pid, id, t[j]);
    AnyAtMostOfRow(g, t[i], minX);
    AnyAtLeastOfRow(g, t[j], maxX);
  }

  /** The track-level test on the class rows agrees with the row-level reference. */
  lemma GroupPassesSpec(t: Table, pid: int, minX: real, maxX: real, id: int)
    ensures GroupPasses(Track(OfClass(t, pid), id), minX, maxX) <==> Crosses(t, pid, minX, maxX, id)
  {
    if GroupPasses(Track(OfClass(t, pid), id), minX, maxX) {
      GroupPassesSound(t, pid, minX, maxX, id);
    }
    if Crosses(t, pid, minX, maxX, id) {
      GroupPassesComplete(t, pid, minX, maxX, id);
    }
  }

  /** An id is returned exactly when its rows of class `pid` reach both boundaries. */
  lemma PedestrianCrossingIds(t: Table, minX: real, maxX: real, pid: int, id: int)
    ensures id in PedestrianCrossing(t, minX, maxX, pid).1 <==> Crosses(t, pid, minX, maxX, id)
  {
    var people := OfClass(t, pid);
    var kept := KeepPassing(people, people, minX, maxX);
    var ids := Unique(Uids(kept));
    assert PedestrianCrossing(t, minX, maxX, pid).1 == ids;
    GroupPassesSpec(t, pid, minX, maxX, id);
    if id in ids {
      var row := FromUids(kept, id);
      assert GroupPasses(Track(people, id), minX, maxX);
    }
    if Crosses(t, pid, minX, maxX, id) {
      var i :| 0 <= i < |t| && t[i].yolo == pid && t[i].uid == id && t[i].x <= minX;
      assert t[i] in people;
      assert t[i] in kept;
      InUids(kept, t[i]);
    }
  }

  /** With `minX < maxX`, a crossing track has two distinct rows of class `pid`. */
  lemma CrossesNeedsTwoRows(t: Table, minX: real, maxX: real, pid: int, id: int)
    requires minX < maxX
    requires Crosses(t, pid, minX, maxX, id)
    ensures exists i, j :: 0 <= i < j < |t| && t[i].yolo == pid && t[i].uid == id
                                          && t[j].yolo == pid && t[j].uid == id
  {
    var i :| 0 <= i < |t| && t[i].yolo == pid && t[i].uid == id && t[i].x <= minX;
    var j :| 0 <= j < |t| && t[j].yolo == pid && t[j].uid == id && t[j].x >= maxX;
    if i < j {
    } else {
      assert j < i;
    }
  }

  /** With `minX < maxX`, a returned track has at least two distinct rows of class `pid`; a one-row track never crosses. */
  lemma CrossingNeedsTwoRows(t: Table, minX: real, maxX: real, pid: int, id: int)
    requires minX < maxX
    requires id in PedestrianCrossing(t, minX, maxX, pid).1
    ensures exists i, j :: 0 <= i < j < |t| && t[i].yolo == pid && t[i].uid == id
                                          && t[j].yolo == pid && t[j].uid == id
  {
    PedestrianCrossingIds(t, minX, maxX, pid, id);
    CrossesNeedsTwoRows(t, minX, maxX, pid, id);
  }

  // ----- time_to_cross -----

  /**
    The loop over the track's X-centers, from position `i` on: the
    flag is raised at a value equal to `from`; once raised, every row is
    counted and the loop breaks at a value equal to `to`, yielding the count.
    `None` when the loop runs out without breaking (no entry is stored).
   */
  function Walk(xs: seq<real>, from: real, to: real, i: nat, count: nat, flag: bool): Option<nat>
    requires i <= |xs|
    decreases |xs| - i
  {
    if i == |xs| then None
    else
      var raised := flag || xs[i] == from;
      if raised && xs[i] == to then Some(count + 1)
      else if raised then Walk(xs, from, to, i + 1, count + 1, true)
      else Walk(xs, from, to, i + 1, count, false)
  }

  /**
    Walking from the first `from` (at `p`) to the first `to` (at `q`, not
    before `p`) counts the rows `p..q` inclusive.
   */
  lemma {:induction false} WalkCount(xs: seq<real>, from: real, to: real, p: nat, q: nat, i: nat)
    requires p <= q < |xs| && xs[p] == from && xs[q] == to
    requires forall j :: 0 <= j < p ==> xs[j] != from
    requires forall j :: 0 <= j < q ==> xs[j] != to
    requires i <= q
    ensures Walk(xs, from, to, i, if i <= p then 0 else i - p, i > p) == Some(q - p + 1)
    decreases q - i
  {
    if i < q {
      WalkCount(xs, from, to, p, q, i + 1);
    }
  }

  /** The extremes of a track's X-centers and the positions of their first occurrences. */
  datatype Extremes = Extremes(lo: real, hi: real, pLo: nat, pHi: nat)

  function ExtremesOf(xs: seq<real>): (e: Extremes)
    requires |xs| > 0
    ensures e.pLo < |xs| && e.pHi < |xs| && xs[e.pLo] == e.lo && xs[e.pHi] == e.hi
    ensures forall j :: 0 <= j < |xs| ==> e.lo <= xs[j] <= e.hi
    ensures forall j :: 0 <= j < e.pLo ==> xs[j] != e.lo
    ensures forall j :: 0 <= j < e.pHi ==> xs[j] != e.hi
  {
    var lo := MinOf(xs);
    var hi := MaxOf(xs);
    Extremes(lo, hi, FirstIndexOf(xs, lo), FirstIndexOf(xs, hi))
  }

  /**
    One id's entry: walk from the extreme whose first occurrence comes first
    (the maximum when they share a position) to the other one, and divide the
    rows counted by `fps`.
   */
  function TrackCrossTime(g: Table, fps: real): Option<real>
    requires |g| > 0 && fps > 0.0
  {
    var xs := Xs(g);
    var e := ExtremesOf(xs);
    var w := if e.pLo < e.pHi then Walk(xs, e.lo, e.hi, 0, 0, false) else Walk(xs, e.hi, e.lo, 0, 0, false);
    match w
    case Some(c) => Some(c as real / fps)
    case None => None
  }

  /** Reference: the rows from the first occurrence of one extreme to the first of the other, inclusive. */
  function CrossSpan(g: Table): (n: nat)
    ensures |g| > 0 ==> 1 <= n <= |g|
  {
    if |g| == 0 then 0
    else
      var e := ExtremesOf(Xs(g));
      if e.pLo <= e.pHi then e.pHi - e.pLo + 1 else e.pLo - e.pHi + 1
  }

  /** Every non-empty track gets an entry: the span of rows between its extremes over `fps`. */
  lemma TrackCrossTimeSpan(g: Table, fps: real)
    requires |g| > 0 && fps > 0.0
    ensures TrackCrossTime(g, fps) == Some(CrossSpan(g) as real / fps)
  {
    var xs := Xs(g);
    var e := ExtremesOf(xs);
    if e.pLo < e.pHi {
      WalkCount(xs, e.lo, e.hi, e.pLo, e.pHi, 0);
    } else {
      WalkCount(xs, e.hi, e.lo, e.pHi, e.pLo, 0);
    }
  }

  /**
    `time_to_cross` with the segment's frame rate passed in: the dict from
    each id to its crossing time, filled in the order of `ids`. Every id
    must have rows (the source raises IndexError on one that has none).
   */
  function TimeToCross(t: Table, ids: seq<int>, fps: real): map<int, real>
    requires fps > 0.0
    requires forall i :: 0 <= i < |ids| ==> HasTrack(t, ids[i])
  {
    if |ids| == 0 then map[]
    else
      var m := TimeToCross(t, ids[..|ids| - 1], fps);
      var id := ids[|ids| - 1];
      HasTrackNonEmpty(t, id);
      match TrackCrossTime(Track(t, id), fps)
      case Some(v) => m[id := v]
      case None => m
  }

  /**
    What `time_to_cross` ends with: the dict, the lookup's own exception
    propagated, or UnboundLocalError when the segment has no mapping row and
    some id reaches the division by the never-assigned frame rate.
   */
  datatype CrossTimes = Times(m: map<int, real>) | LookupRaised(error: LookupError) | FpsUnbound

  /**
    `time_to_cross` as the main loop calls it: the frame rate comes from the
    segment's lookup under `key`. Every id must have rows, and a found
    segment must have a positive frame rate.
   */
  function TimeToCrossFor(lookup: SegmentLookup, key: string, t: Table, ids: seq<int>): (r: CrossTimes)
    requires forall i :: 0 <= i < |ids| ==> HasTrack(t, ids[i])
    requires lookup(key).Found? ==> lookup(key).meta.fps > 0.0
    ensures r.LookupRaised? <==> lookup(key).Fails?
    ensures r.LookupRaised? ==> r.error == lookup(key).error
    ensures r.FpsUnbound? <==> lookup(key).NotFound? && |ids| > 0
    ensures r.Times? ==> forall id :: id in r.m <==> id in ids
    ensures lookup(key).Found? ==>
              r.Times? && forall id :: id in ids ==> r.m[id] == CrossSpan(Track(t, id)) as real / lookup(key).meta.fps
  {
    match lookup(key)
    case Fails(e) => LookupRaised(e)
    case NotFound => if |ids| == 0 then Times(map[]) else FpsUnbound
    case Found(meta) =>
      TimeToCrossSpec(t, ids, meta.fps);
      Times(TimeToCross(t, ids, meta.fps))
  }

  /** Appending an id with rows stores its span over `fps` under it. */
  lemma TimeToCrossStep(t: Table, ids: seq<int>, fps: real)
    requires fps > 0.0 && |ids| > 0
    requires forall i :: 0 <= i < |ids| ==> HasTrack(t, ids[i])
    ensures var id := ids[|ids| - 1];
            TimeToCross(t, ids, fps) == TimeToCross(t, ids[..|ids| - 1], fps)[id := CrossSpan(Track(t, id)) as real / fps]
  {
    var id := ids[|ids| - 1];
    HasTrackNonEmpty(t, id);
    TrackCrossTimeSpan(Track(t, id), fps);
  }

  /** The ids given are exactly the keys of the result. */
  lemma {:induction false} TimeToCrossKeys(t: Table, ids: seq<int>, fps: real)
    requires fps > 0.0
    requires forall i :: 0 <= i < |ids| ==> HasTrack(t, ids[i])
    ensures forall id :: id in TimeToCross(t, ids, fps) <==> id in ids
  {
    if |ids| > 0 {
      var init := ids[..|ids| - 1];
      var id := ids[|ids| - 1];
      assert ids == init + [id];
      assert forall x :: x in ids <==> x in init || x == id;
      assert forall i :: 0 <= i < |init| ==> init[i] == ids[i];
      TimeToCrossKeys(t, init, fps);
      TimeToCrossStep(t, ids, fps);
    }
  }

  /** Every id's entry is the span of its track's crossing rows over `fps`. */
  lemma {:induction false} TimeToCrossValues(t: Table, ids: seq<int>, fps: real)
    requires fps > 0.0
    requires forall i :: 0 <= i < |ids| ==> HasTrack(t, ids[i])
    ensures forall id :: id in ids ==>
              id in TimeToCross(t, ids, fps) && TimeToCross(t, ids, fps)[id] == CrossSpan(Track(t, id)) as real / fps
  {
    if |ids| > 0 {
      var init := ids[..|ids| - 1];
      var id := ids[|ids| - 1];
      assert ids == init + [id];
      assert forall x :: x in ids <==> x in init || x == id;
      assert forall i :: 0 <= i < |init| ==> init[i] == ids[i];
      TimeToCrossValues(t, init, fps);
      TimeToCrossStep(t, ids, fps);
    }
  }

  /** Every id gets exactly one entry, the span of its track's crossing rows over `fps`. */
  lemma TimeToCrossSpec(t: Table, ids: seq<int>, fps: real)
    requires fps > 0.0
    requires forall i :: 0 <= i < |ids| ==> HasTrack(t, ids[i])
    ensures forall id :: id in TimeToCross(t, ids, fps) <==> id in ids
    ensures forall id :: id in ids ==> TimeToCross(t, ids, fps)[id] == CrossSpan(Track(t, id)) as real / fps
  {
    TimeToCrossKeys(t, ids, fps);
    TimeToCrossValues(t, ids, fps);
  }

  /** A track whose X-center never changes crosses in one frame. */
  lemma ConstantTrackOneFrame(g: Table, fps: real)
    requires |g| > 0 && fps > 0.0
    requires forall i :: 0 <= i < |g| ==> g[i].x == g[0].x
    ensures TrackCrossTime(g, fps) == Some(1.0 / fps)
  {
    TrackCrossTimeSpan(g, fps);
    var xs := Xs(g);
    var e := ExtremesOf(xs);
    assert xs[0] == g[0].x;
    assert e.pLo == 0 && e.pHi == 0;
  }

  /** Every entry is at least one frame long and at most the whole track. */
  lemma TimeToCrossBounds(t: Table, ids: seq<int>, fps: real, id: int)
    requires fps > 0.0
    requires forall i :: 0 <= i < |ids| ==> HasTrack(t, ids[i])
    requires id in ids
    ensures id in TimeToCross(t, ids, fps)
    ensures 1.0 / fps <= TimeToCross(t, ids, fps)[id] <= |Track(t, id)| as real / fps
  {
    TimeToCrossSpec(t, ids, fps);
    var k :| 0 <= k < |ids| && ids[k] == id;
    HasTrackNonEmpty(t, id);
    var n := CrossSpan(Track(t, id));
    DivMonotone(1.0, n as real, fps);
    DivMonotone(n as real, |Track(t, id)| as real, fps);
  }
}
