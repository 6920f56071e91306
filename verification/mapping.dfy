/**
  The mapping table: one row per city (and time of day), each holding
  per-video lists of segment start/end offsets, time-of-day flags and frame
  rates. The list cells arrive already parsed (`ast.literal_eval`); the
  "videos" cell stays the raw text it is in the CSV, because the lookup and
  the video count parse it differently.
 */
module Mapping {
  import opened Options
  import opened Text

  datatype MappingRow = MappingRow(
    videos: string,              // raw "videos" cell, e.g. "[abc,def]"
    startTimes: seq<seq<int>>,   // "start_time": per video, the segment starts
    endTimes: seq<seq<int>>,     // "end_time": per video, the segment ends
    timeOfDay: seq<seq<int>>,    // "time_of_day": per video, per segment, 0 = day, 1 = night
    city: string,
    state: Option<string>,       // None for an empty (NaN) cell
    country: string,
    population: real,            // "population_city"
    populationCountry: real,
    avgHeight: real,             // average human height used for the pixel-to-metre scale
    iso: string,                 // ISO-3 country code
    fpsList: seq<real>)          // "fps_list": per video

  /** What the lookup returns for one segment (the tuple of `find_values_with_video_id`). */
  datatype SegmentMeta = SegmentMeta(
    video: string, start: int, end: int, condition: int,
    city: string, state: string, country: string,
    population: real, populationCountry: real, avgHeight: real, iso: string, fps: real)

  /** The aggregation key `f'{city}_{state}_{condition}'`, kept as its three parts. */
  datatype AggKey = AggKey(city: string, state: string, condition: int)

  function KeyOf(m: SegmentMeta): AggKey
  {
    AggKey(m.city, m.state, m.condition)
  }

  /** The video ids of a cell: brackets stripped from the ends, split at commas, each piece stripped of whitespace. */
  function VideoIds(row: MappingRow): (ids: seq<string>)
    ensures |ids| >= 1
  {
    var parts := Split(StripChars(row.videos, {'[', ']'}), ',');
    seq(|parts|, i requires 0 <= i < |parts| => Strip(parts[i]))
  }

  /**
    A cell holding the ids joined by commas inside one pair of brackets, with ids that hold
    no comma, carry no surrounding whitespace and do not open or close with a
    bracket at the ends of the list, parses back to exactly those ids, in order.
   */
  lemma VideoIdsOfJoin(row: MappingRow, ids: seq<string>)
    requires |ids| >= 1
    requires forall i :: 0 <= i < |ids| ==> ',' !in ids[i] && Strip(ids[i]) == ids[i]
    requires |ids[0]| > 0 ==> ids[0][0] !in {'[', ']'}
    requires |ids[|ids| - 1]| > 0 ==> ids[|ids| - 1][|ids[|ids| - 1]| - 1] !in {'[', ']'}
    requires row.videos == "[" + Join(ids, ',') + "]"
    ensures VideoIds(row) == ids
  {
    var j := Join(ids, ',');
    if |j| > 0 {
      JoinFirst(ids, ',');
      JoinLast(ids, ',');
    }
    StripCharsWrapped('[', j, ']', {'[', ']'});
    SplitJoin(ids, ',');
  }

  function Min2(a: nat, b: nat): nat { if a <= b then a else b }

  /** How many tuples `zip` yields over the five per-video lists of a row: the length of the shortest. */
  function Slots(row: MappingRow): nat
  {
    Min2(Min2(Min2(|VideoIds(row)|, |row.startTimes|), Min2(|row.endTimes|, |row.timeOfDay|)), |row.fpsList|)
  }

  /** Coordinates of a start offset: mapping row, video slot, position in that video's start list. */
  datatype Hit = Hit(r: nat, v: nat, j: nat)

  /** Lexicographic order of hits: the order in which the nested loops visit them. */
  predicate Before(a: Hit, b: Hit)
  {
    a.r < b.r || (a.r == b.r && (a.v < b.v || (a.v == b.v && a.j < b.j)))
  }

  /** Video slot `v` of row `r` is video `id` and has start offset `n` at position `j`. */
  predicate IsMatch(rows: seq<MappingRow>, id: string, n: int, h: Hit)
  {
    && h.r < |rows|
    && h.v < Slots(rows[h.r])
    && VideoIds(rows[h.r])[h.v] == id
    && h.j < |rows[h.r].startTimes[h.v]|
    && rows[h.r].startTimes[h.v][h.j] == n
  }

  /** `h` is a match and no match is visited before it. */
  ghost predicate FirstMatch(rows: seq<MappingRow>, id: string, n: int, h: Hit)
  {
    IsMatch(rows, id, n, h) && forall h' :: IsMatch(rows, id, n, h') ==> !Before(h', h)
  }

  /** Video slot `v` of row `r` is video `id` with a non-empty start list: reaching it evaluates `int(start_)`. */
  predicate IsCandidate(rows: seq<MappingRow>, id: string, r: nat, v: nat)
  {
    r < |rows| && v < Slots(rows[r]) && VideoIds(rows[r])[v] == id && |rows[r].startTimes[v]| > 0
  }

  datatype Search = Match(hit: Hit) | NoMatch | BadStart

  /** Outcome of the innermost loop `for s in start`. */
  datatype StartScan = At(j: nat) | Absent | Raised

  /**
    The loop over one video's start offsets, from position `j`, comparing each
    with the key's parsed start `n`; `n` is None when `int` rejects the start,
    which raises only once the loop body runs, i.e. when the list is non-empty.
   */
  function ScanStarts(starts: seq<int>, n: Option<int>, j: nat): (s: StartScan)
    ensures s.Raised? <==> n.None? && j < |starts|
    ensures s.At? ==> n.Some? && j <= s.j < |starts| && starts[s.j] == n.value
                      && forall k :: j <= k < s.j ==> starts[k] != n.value
    ensures s.Absent? && n.Some? ==> forall k :: j <= k < |starts| ==> starts[k] != n.value
    decreases |starts| - j
  {
    if j >= |starts| then Absent
    else if n.None? then Raised
    else if starts[j] == n.value then At(j)
    else ScanStarts(starts, n, j + 1)
  }

  /** The loop over the zipped video slots of row `r`. */
  function SearchVideos(rows: seq<MappingRow>, id: string, n: Option<int>, r: nat, v: nat): (s: Search)
    requires r < |rows|
    ensures s.BadStart? ==> n.None?
    ensures s.Match? ==> n.Some? && IsMatch(rows, id, n.value, s.hit) && s.hit.r == r && v <= s.hit.v
    decreases Slots(rows[r]) - v
  {
    if v >= Slots(rows[r]) then NoMatch
    else if VideoIds(rows[r])[v] == id then
      match ScanStarts(rows[r].startTimes[v], n, 0)
      case Absent => SearchVideos(rows, id, n, r, v + 1)
      case Raised => BadStart
      case At(j) => Match(Hit(r, v, j))
    else SearchVideos(rows, id, n, r, v + 1)
  }

  /** The loop over the mapping rows. */
  function SearchRows(rows: seq<MappingRow>, id: string, n: Option<int>, r: nat): (s: Search)
    ensures s.BadStart? ==> n.None?
    ensures s.Match? ==> n.Some? && IsMatch(rows, id, n.value, s.hit) && r <= s.hit.r
    decreases |rows| - r
  {
    if r >= |rows| then NoMatch
    else
      match SearchVideos(rows, id, n, r, 0)
      case NoMatch => SearchRows(rows, id, n, r + 1)
      case other => other
  }

  /** Why `find_values_with_video_id` raises instead of returning. */
  datatype LookupError =
    | KeyWithoutSeparator   // `key.rsplit("_", 1)` gives one part: ValueError on unpacking
    | StartNotInteger       // `int(start_)` raises ValueError
    | IndexOutOfRange       // `end[counter]` or `time_of_day_[counter]` raises IndexError

  datatype Lookup = Found(meta: SegmentMeta) | NotFound | Fails(error: LookupError)

  /** The end offset and time-of-day flag exist at the matched start's position. */
  predicate InRange(rows: seq<MappingRow>, h: Hit)
    requires h.r < |rows| && h.v < Slots(rows[h.r])
  {
    h.j < |rows[h.r].endTimes[h.v]| && h.j < |rows[h.r].timeOfDay[h.v]|
  }

  /** The tuple returned for a hit; a NaN state reads "unknown". */
  function MetaAt(rows: seq<MappingRow>, h: Hit): SegmentMeta
    requires h.r < |rows| && h.v < Slots(rows[h.r]) && h.j < |rows[h.r].startTimes[h.v]|
    requires InRange(rows, h)
  {
    var row := rows[h.r];
    SegmentMeta(
      VideoIds(row)[h.v], row.startTimes[h.v][h.j], row.endTimes[h.v][h.j], row.timeOfDay[h.v][h.j],
      row.city, if row.state.None? then "unknown" else row.state.value, row.country,
      row.population, row.populationCountry, row.avgHeight, row.iso, row.fpsList[h.v])
  }

  /** `find_values_with_video_id(df_mapping, key)`. */
  function FindValues(rows: seq<MappingRow>, key: string): (res: Lookup)
    ensures res == Fails(KeyWithoutSeparator) <==> '_' !in key
  {
    match SplitLast(key, '_')
    case None => Fails(KeyWithoutSeparator)
    case Some((id, start)) =>
      match SearchRows(rows, id, ParseInt(start), 0)
      case NoMatch => NotFound
      case BadStart => Fails(StartNotInteger)
      case Match(h) =>
        if InRange(rows, h) then Found(MetaAt(rows, h))
        else Fails(IndexOutOfRange)
  }

  /**
    A segment lookup: what the aggregations call `find_values_with_video_id`
    with for each key. They take it as a parameter; for a given mapping it is
    `LookupIn(rows)`.
   */
  type SegmentLookup = string -> Lookup

  function LookupIn(rows: seq<MappingRow>): SegmentLookup
  {
    key => FindValues(rows, key)
  }

  // ----- the search visits hits in order -----

  lemma {:induction false} SearchVideosFirst(rows: seq<MappingRow>, id: string, n: int, r: nat, v: nat)
    requires r < |rows|
    ensures SearchVideos(rows, id, Some(n), r, v).Match? ==>
              forall h' :: IsMatch(rows, id, n, h') && h'.r == r && v <= h'.v ==>
                !Before(h', SearchVideos(rows, id, Some(n), r, v).hit)
    ensures SearchVideos(rows, id, Some(n), r, v) == NoMatch ==>
              forall h' :: IsMatch(rows, id, n, h') && h'.r == r ==> h'.v < v
    decreases Slots(rows[r]) - v
  {
    if v < Slots(rows[r]) {
      SearchVideosFirst(rows, id, n, r, v + 1);
      var s := SearchVideos(rows, id, Some(n), r, v);
      var sc := ScanStarts(rows[r].startTimes[v], Some(n), 0);
      if VideoIds(rows[r])[v] == id && sc.At? {
        assert s == Match(Hit(r, v, sc.j));
      } else {
        assert s == SearchVideos(rows, id, Some(n), r, v + 1);
        assert forall h' :: IsMatch(rows, id, n, h') && h'.r == r ==> h'.v != v;
      }
    }
  }

  lemma {:induction false} SearchRowsFirst(rows: seq<MappingRow>, id: string, n: int, r: nat)
    ensures SearchRows(rows, id, Some(n), r).Match? ==>
              forall h' :: IsMatch(rows, id, n, h') && r <= h'.r ==>
                !Before(h', SearchRows(rows, id, Some(n), r).hit)
    ensures SearchRows(rows, id, Some(n), r) == NoMatch ==>
              forall h' :: IsMatch(rows, id, n, h') ==> h'.r < r
    decreases |rows| - r
  {
    if r < |rows| {
      SearchRowsFirst(rows, id, n, r + 1);
      SearchVideosFirst(rows, id, n, r, 0);
    }
  }

  /** With an unparsable start, the search raises exactly when it reaches a candidate slot. */
  lemma {:induction false} SearchVideosBadStart(rows: seq<MappingRow>, id: string, r: nat, v: nat)
    requires r < |rows|
    ensures SearchVideos(rows, id, None, r, v) == BadStart <==> exists v' :: v <= v' && IsCandidate(rows, id, r, v')
    ensures SearchVideos(rows, id, None, r, v) != BadStart ==> SearchVideos(rows, id, None, r, v) == NoMatch
    decreases Slots(rows[r]) - v
  {
    if v < Slots(rows[r]) {
      SearchVideosBadStart(rows, id, r, v + 1);
      if IsCandidate(rows, id, r, v) {
        assert SearchVideos(rows, id, None, r, v) == BadStart;
      } else {
        assert SearchVideos(rows, id, None, r, v) == SearchVideos(rows, id, None, r, v + 1);
        if exists v' :: v <= v' && IsCandidate(rows, id, r, v') {
          var v' :| v <= v' && IsCandidate(rows, id, r, v');
          assert v' != v;
          assert v + 1 <= v';
        }
      }
    } else {
      assert forall v' :: v <= v' ==> !IsCandidate(rows, id, r, v');
    }
  }

  lemma {:induction false} SearchRowsBadStart(rows: seq<MappingRow>, id: string, r: nat)
    ensures SearchRows(rows, id, None, r) == BadStart <==> exists r', v :: r <= r' && IsCandidate(rows, id, r', v)
    ensures SearchRows(rows, id, None, r) != BadStart ==> SearchRows(rows, id, None, r) == NoMatch
    decreases |rows| - r
  {
    if r < |rows| {
      SearchRowsBadStart(rows, id, r + 1);
      SearchVideosBadStart(rows, id, r, 0);
      if SearchVideos(rows, id, None, r, 0) == BadStart {
        var v :| 0 <= v && IsCandidate(rows, id, r, v);
        assert SearchRows(rows, id, None, r) == BadStart;
      } else {
        assert SearchRows(rows, id, None, r) == SearchRows(rows, id, None, r + 1);
        if exists r', v :: r <= r' && IsCandidate(rows, id, r', v) {
          var r', v :| r <= r' && IsCandidate(rows, id, r', v);
          assert r' != r;
          assert r + 1 <= r';
        }
      }
    } else {
      assert forall r', v :: r <= r' ==> !IsCandidate(rows, id, r', v);
    }
  }

  // ----- properties of find_values_with_video_id -----

  /**
    Once the key splits into a video id and an integer start, the lookup
    returns the first (row, video, start) match in loop order, reading the end
    offset and time-of-day flag at the matched start's position; if either
    list is too short there, it raises IndexError.
   */
  lemma FindValuesFirstMatch(rows: seq<MappingRow>, key: string, id: string, start: string, n: int, h: Hit)
    requires SplitLast(key, '_') == Some((id, start))
    requires ParseInt(start) == Some(n)
    requires FirstMatch(rows, id, n, h)
    ensures FindValues(rows, key) == if InRange(rows, h) then Found(MetaAt(rows, h)) else Fails(IndexOutOfRange)
  {
    SearchRowsFirst(rows, id, n, 0);
    var s := SearchRows(rows, id, Some(n), 0);
    assert s.Match?;
    assert !Before(s.hit, h) && !Before(h, s.hit);
    assert s.hit == h;
  }

  /** With an integer start, the lookup returns None exactly when no slot of that video holds that start. */
  lemma FindValuesNotFound(rows: seq<MappingRow>, key: string, id: string, start: string, n: int)
    requires SplitLast(key, '_') == Some((id, start))
    requires ParseInt(start) == Some(n)
    ensures FindValues(rows, key) == NotFound <==> forall h :: !IsMatch(rows, id, n, h)
  {
    SearchRowsFirst(rows, id, n, 0);
  }

  /** With a start that `int()` rejects, the lookup raises iff some slot of that video has start offsets. */
  lemma FindValuesBadStart(rows: seq<MappingRow>, key: string, id: string, start: string)
    requires SplitLast(key, '_') == Some((id, start))
    requires ParseInt(start).None?
    ensures FindValues(rows, key) == Fails(StartNotInteger) <==> exists r, v :: IsCandidate(rows, id, r, v)
    ensures FindValues(rows, key) != Fails(StartNotInteger) ==> FindValues(rows, key) == NotFound
  {
    SearchRowsBadStart(rows, id, 0);
  }

  /** A segment key `f"{video}_{start}"` looks up that video and start, even when the video id contains '_'. */
  lemma FindValuesOfSegmentKey(rows: seq<MappingRow>, video: string, start: int, h: Hit)
    requires FirstMatch(rows, video, start, h)
    ensures FindValues(rows, video + "_" + IntToString(start))
              == if InRange(rows, h) then Found(MetaAt(rows, h)) else Fails(IndexOutOfRange)
  {
    SplitLastOfJoin(video, '_', IntToString(start));
    ParseIntOfIntToString(start);
    FindValuesFirstMatch(rows, video + "_" + IntToString(start), video, IntToString(start), start, h);
  }

  // ----- calculate_total_seconds -----

  /** Sum of `e - s` over the first `k` zipped (start, end) pairs of one video. */
  function PairSeconds(starts: seq<int>, ends: seq<int>, k: nat): int
    requires k <= |starts| && k <= |ends|
  {
    if k == 0 then 0 else PairSeconds(starts, ends, k - 1) + (ends[k - 1] - starts[k - 1])
  }

  /** Seconds of the first `k` zipped videos of a row, each truncated to its shorter list. */
  function RowSeconds(row: MappingRow, k: nat): int
    requires k <= |row.startTimes| && k <= |row.endTimes|
  {
    if k == 0 then 0
    else
      var starts := row.startTimes[k - 1];
      var ends := row.endTimes[k - 1];
      RowSeconds(row, k - 1) + PairSeconds(starts, ends, Min2(|starts|, |ends|))
  }

  /** Reference definition of the mapping's total duration. */
  function TotalSeconds(rows: seq<MappingRow>): int
  {
    if |rows| == 0 then 0
    else
      var row := rows[|rows| - 1];
      TotalSeconds(rows[..|rows| - 1]) + RowSeconds(row, Min2(|row.startTimes|, |row.endTimes|))
  }

  /** `calculate_total_seconds(df)`: the three nested loops over rows, videos and pairs. */
  method CalculateTotalSeconds(rows: seq<MappingRow>) returns (total: int)
    ensures total == TotalSeconds(rows)
  {
    total := 0;
    var r := 0;
    while r < |rows|
      invariant 0 <= r <= |rows|
      invariant total == TotalSeconds(rows[..r])
    {
      var row := rows[r];
      var videos := Min2(|row.startTimes|, |row.endTimes|);
      var v := 0;
      while v < videos
        invariant 0 <= v <= videos
        invariant total == TotalSeconds(rows[..r]) + RowSeconds(row, v)
      {
        var starts := row.startTimes[v];
        var ends := row.endTimes[v];
        var pairs := Min2(|starts|, |ends|);
        var j := 0;
        while j < pairs
          invariant 0 <= j <= pairs
          invariant total == TotalSeconds(rows[..r]) + RowSeconds(row, v) + PairSeconds(starts, ends, j)
        {
          total := total + (ends[j] - starts[j]);
          j := j + 1;
        }
        v := v + 1;
      }
      assert rows[..r + 1][..r] == rows[..r];
      r := r + 1;
    }
    assert rows[..r] == rows;
  }

  /** The total of two mapping tables read one after the other is the sum of their totals. */
  lemma {:induction false} TotalSecondsAppend(a: seq<MappingRow>, b: seq<MappingRow>)
    ensures TotalSeconds(a + b) == TotalSeconds(a) + TotalSeconds(b)
    decreases |b|
  {
    if |b| > 0 {
      assert (a + b)[..|a + b| - 1] == a + b[..|b| - 1];
      TotalSecondsAppend(a, b[..|b| - 1]);
    } else {
      assert a + b == a;
    }
  }

  /** Every zipped pair of the table ends no earlier than it starts. */
  predicate EndsNotBeforeStarts(rows: seq<MappingRow>)
  {
    forall r, v, j ::
      (0 <= r < |rows| && 0 <= v < |rows[r].startTimes| && v < |rows[r].endTimes|
       && 0 <= j < |rows[r].startTimes[v]| && j < |rows[r].endTimes[v]|) ==>
        rows[r].startTimes[v][j] <= rows[r].endTimes[v][j]
  }

  lemma {:induction false} PairSecondsNonNegative(starts: seq<int>, ends: seq<int>, k: nat)
    requires k <= |starts| && k <= |ends|
    requires forall j :: 0 <= j < k ==> starts[j] <= ends[j]
    ensures PairSeconds(starts, ends, k) >= 0
  {
    if k > 0 { PairSecondsNonNegative(starts, ends, k - 1); }
  }

  lemma {:induction false} RowSecondsNonNegative(rows: seq<MappingRow>, r: nat, k: nat)
    requires r < |rows| && EndsNotBeforeStarts(rows)
    requires k <= |rows[r].startTimes| && k <= |rows[r].endTimes|
    ensures RowSeconds(rows[r], k) >= 0
  {
    if k > 0 {
      RowSecondsNonNegative(rows, r, k - 1);
      var starts := rows[r].startTimes[k - 1];
      var ends := rows[r].endTimes[k - 1];
      PairSecondsNonNegative(starts, ends, Min2(|starts|, |ends|));
    }
  }

  /** When no segment ends before it starts, the total duration is not negative. */
  lemma {:induction false} TotalSecondsNonNegative(rows: seq<MappingRow>)
    requires EndsNotBeforeStarts(rows)
    ensures TotalSeconds(rows) >= 0
  {
    if |rows| > 0 {
      var init := rows[..|rows| - 1];
      assert EndsNotBeforeStarts(init) by {
        forall r, v, j | 0 <= r < |init| && 0 <= v < |init[r].startTimes| && v < |init[r].endTimes|
          && 0 <= j < |init[r].startTimes[v]| && j < |init[r].endTimes[v]|
          ensures init[r].startTimes[v][j] <= init[r].endTimes[v][j]
        {
          assert init[r] == rows[r];
        }
      }
      TotalSecondsNonNegative(init);
      var row := rows[|rows| - 1];
      RowSecondsNonNegative(rows, |rows| - 1, Min2(|row.startTimes|, |row.endTimes|));
    }
  }

  // ----- calculate_total_videos -----

  /** The stripped items of a comma-split "videos" cell; the brackets are not removed. */
  function Names(parts: seq<string>): set<string>
  {
    if |parts| == 0 then {} else Names(parts[..|parts| - 1]) + {Strip(parts[|parts| - 1])}
  }

  /** A cell of `k` comma-separated items names at most `k` videos. */
  lemma {:induction false} NamesCount(parts: seq<string>)
    ensures |Names(parts)| <= |parts|
  {
    if |parts| > 0 {
      NamesCount(parts[..|parts| - 1]);
    }
  }

  /** An item is named exactly when it is the stripped form of some piece. */
  lemma {:induction false} NamesMembers(parts: seq<string>, x: string)
    ensures x in Names(parts) <==> exists i :: 0 <= i < |parts| && Strip(parts[i]) == x
  {
    if |parts| > 0 {
      var init := parts[..|parts| - 1];
      NamesMembers(init, x);
      assert forall i :: 0 <= i < |init| ==> init[i] == parts[i];
    }
  }

  /** The stripped items of one row's "videos" cell. */
  function RowNames(row: MappingRow): set<string>
  {
    Names(Split(row.videos, ','))
  }

  /** The set `total_videos` collects over the rows. */
  function VideoNames(rows: seq<MappingRow>): set<string>
  {
    if |rows| == 0 then {} else VideoNames(rows[..|rows| - 1]) + RowNames(rows[|rows| - 1])
  }

  /** A name is collected exactly when some row's cell lists it. */
  lemma {:induction false} VideoNamesMembers(rows: seq<MappingRow>, x: string)
    ensures x in VideoNames(rows) <==> exists r :: 0 <= r < |rows| && x in RowNames(rows[r])
  {
    if |rows| > 0 {
      var init := rows[..|rows| - 1];
      VideoNamesMembers(init, x);
      assert forall r :: 0 <= r < |init| ==> init[r] == rows[r];
    }
  }

  /** `calculate_total_videos(df)`: number of distinct stripped comma-separated items over all rows. */
  method CalculateTotalVideos(rows: seq<MappingRow>) returns (count: nat)
    ensures count == |VideoNames(rows)|
    ensures |rows| > 0 ==> count >= 1
  {
    var names: set<string> := {};
    var r := 0;
    while r < |rows|
      invariant 0 <= r <= |rows|
      invariant names == VideoNames(rows[..r])
    {
      var parts := Split(rows[r].videos, ',');
      var i := 0;
      while i < |parts|
        invariant 0 <= i <= |parts|
        invariant names == VideoNames(rows[..r]) + Names(parts[..i])
      {
        assert parts[..i + 1][..i] == parts[..i];
        assert Names(parts[..i + 1]) == Names(parts[..i]) + {Strip(parts[i])};
        names := names + {Strip(parts[i])};
        i := i + 1;
      }
      assert parts[..i] == parts;
      assert rows[..r + 1][..r] == rows[..r];
      r := r + 1;
    }
    assert rows[..r] == rows;
    count := |names|;
    if |rows| > 0 {
      var first := Split(rows[0].videos, ',');
      NamesMembers(first, Strip(first[0]));
      VideoNamesMembers(rows, Strip(first[0]));
    }
  }

  /** Stripping the brackets of "[abc]" leaves "abc". */
  lemma StripBracketsExample()
    ensures StripChars("[abc]", {'[', ']'}) == "abc"
  {
    var cs := {'[', ']'};
    var s := "[abc]";
    var t := s[1..];
    assert |t| == 4 && t[0] == 'a' && t[3] == ']';
    assert LeadingIn(t, cs) == 0;
    assert LeadingIn(s, cs) == 1;
    assert TrailingFrom(s, cs, 1, 4) == 4;
    assert TrailingFrom(s, cs, 1, 5) == 4;
    var u := s[1..4];
    assert |u| == 3 && u[0] == 'a' && u[1] == 'b' && u[2] == 'c';
  }

  /**
    Unlike the lookup, the count does not strip brackets: the cell "[abc]"
    names video "abc" for the lookup but is counted as the item "[abc]".
   */
  lemma TotalVideosKeepsBrackets(row: MappingRow)
    requires row.videos == "[abc]"
    ensures VideoIds(row) == ["abc"]
    ensures VideoNames([row]) == {"[abc]"}
  {
    StripBracketsExample();
    assert ',' !in "abc";
    StripCharsKeeps("abc", Whitespace);
    assert ',' !in "[abc]";
    var parts := Split(row.videos, ',');
    assert parts == ["[abc]"];
    StripCharsKeeps("[abc]", Whitespace);
    assert parts[..0] == [];
    assert Names(parts) == {} + {Strip("[abc]")};
    assert RowNames(row) == {"[abc]"};
    assert [row][..0] == [];
  }
}
