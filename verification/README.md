# Pedestrian crossing analytics, modelled in Dafny

This project models the per-segment crossing analytics of `analysis.py` from
the youtube-jaywalking study, with pandas taken out.

**Detection tables.** A segment's detection table (one CSV per video
segment, read with the default RangeIndex) is a `seq<Row>`. Each row holds
the YOLO class, the tracker's unique id, the normalised X-center and the box
height. A row's DataFrame label is its position.

**The mapping table.** It is a `seq<MappingRow>`. Its list cells are already
parsed. Its "videos" cell stays raw text, because the lookup and the video
count parse it differently.

**What is modelled:**

- `count_object` and `pedestrian_crossing`: filtering by class, grouping by
  track id, and the boundary test that marks a track as crossing the road.
- `time_to_cross`: the walk from whichever X extreme occurs first to the
  other one, counted in frames.
- `calculate_speed_of_crossing` and `avg_speed_of_crossing`: the scale by
  mean box height against the city's average height, the outlier cut at
  1.2, and the per-key mean.
- `time_to_start_cross` and `avg_time_to_start_cross`: the stride-10 scan,
  a small state machine over a counter and a flag.
- `crossing_event_wt_traffic_equipment` and
  `nomalised_crossing_wth_traffic_equipment`: each crossing id is classified
  by whether a traffic light (class 9) or stop sign (class 11) appears
  between its first and last row. The counts are then normalised per minute
  and per inhabitant.
- `pedestrian_cross_per_city` and the main-loop glue that fills
  `pedestrian_crossing_count`.
- `find_values_with_video_id`: the segment lookup by `video_start` key,
  first match in loop order.
- `calculate_total_seconds` and `calculate_total_videos`.
- `format_city_state`.

**Modules** (one per file):

| module | contents |
|---|---|
| `Options` | `Option`. |
| `Tables` | Rows, class filter, tracks, `groupby` key order, `.unique()`, min/max/mean. |
| `Text` | The Python string operations used: `strip`, `split`, `rsplit(_, 1)`, `lower`, `int`. |
| `Mapping` | Mapping rows, the lookup, total seconds and total videos. |
| `Groups` | The keyed dict-building patterns the aggregations share: running sum, append/extend, last write, per-key mean. |
| `Crossing` | `count_object`, `pedestrian_crossing`, `time_to_cross`. |
| `Speed` | Speed and its mean. |
| `StartCross` | Start of crossing and its mean. |
| `Equipment` | Equipment classification and normalisation. |
| `Cities` | Per-city totals. |
| `Labels` | `format_city_state`. |

**Aggregation keys.** The aggregations key their dicts by
`f'{city}_{state}_{condition}'`. Inside this core that string is only ever a
key, so it is modelled as the triple `Mapping.AggKey`.

**The lookup as a parameter.** Each aggregation takes the lookup as a
function parameter `SegmentLookup = string -> Lookup`. For a mapping table
`rows` that parameter is `Mapping.LookupIn(rows)`, so the properties proved
about `FindValues` apply to it.

**Exceptions and outcomes.** A Python exception the source would raise
becomes either an error value or a precondition.

- The lookup returns `Found`, `NotFound` (Python `None`) or `Fails`.
  `Fails` covers a key without `_`, a start that `int()` rejects, and an
  end or time-of-day list too short at the matched position.
- The aggregations require that no lookup fails. They also require that
  every id they read has rows, and that nothing they divide by is zero.

**Consequences the proofs bring out.**

- The right-to-left stability test `x[i] - m >= x[i+10] >= x[i] + m` can
  never hold when the margin is positive. So a person track starting at
  X ≥ 0.5 never records a start time (`StartCross.RightToLeftNoEntry`).
- `calculate_total_videos` does not strip the `[` `]` that the lookup
  strips. So a cell "[abc]" counts as the item "[abc]"
  (`Mapping.TotalVideosKeepsBrackets`).

## Model

| member | source | states |
|---|---|---|
| Tables.OfClass | analysis.py:609 | the class filter keeps exactly the rows of that class, never more rows than the table |
| Tables.Track | analysis.py:653 | the id filter keeps exactly the rows carrying that id, of every class |
| Tables.OfClassAppend | analysis.py:609 | the class filter keeps table order and repeats: filtering `a + b` is filtering `a`, then `b` |
| Tables.OfClassSingle | analysis.py:609 | a single row is kept exactly when it is of the class |
| Tables.TrackAppend | analysis.py:653 | the id filter keeps table order and repeats, which the crossing walk and the mean height rely on |
| Tables.TrackSingle | analysis.py:653 | a single row is kept exactly when it carries the id |
| Tables.MinOf | analysis.py:649 | `.min()` is an element no larger than any other |
| Tables.MaxOf | analysis.py:650 | `.max()` is an element no smaller than any other |
| Tables.FirstIndexOf | analysis.py:656-657 | `.index[0]` of the rows equal to a value is the first position holding it |
| Tables.Unique | analysis.py:619 | `.unique()` yields each id once, and exactly the ids of the column |
| Tables.GroupKeys | analysis.py:759-761 | `groupby` visits exactly the ids of the column, each once, in ascending order |
| Tables.MeanWithin | analysis.py:739 | the mean of a non-empty list of values in [lo, hi] lies in [lo, hi] |
| Text.StripCharsSpec | analysis.py:307 | `strip(chars)` removes exactly the leading and trailing run of those characters |
| Text.JoinSplit | analysis.py:307 | joining the pieces of `split(',')` gives the cell back |
| Text.SplitJoin | analysis.py:307 | splitting a join of comma-free pieces gives the pieces back |
| Text.SplitLast | analysis.py:302 | `rsplit("_", 1)` has no result exactly when the key has no `_`; otherwise the second part has no `_` and the parts rejoin to the key |
| Text.SplitLastOfJoin | analysis.py:302 | `rsplit("_", 1)` of `a + "_" + b` with `_` not in `b` gives `(a, b)`, even when `a` contains `_` |
| Text.SplitFirst | analysis.py:403 | `split("_", 1)` gives a first part without `_`, and the parts rejoin to the string |
| Text.ParseInt | analysis.py:332 | `int(start_)`, with None where Python raises ValueError; no contract of its own, see Text.ParseIntOfIntToString |
| Text.ParseIntOfIntToString | analysis.py:332 | `int(str(n)) == n` for every integer |
| Mapping.VideoIds | analysis.py:307 | the video-id list of a cell is never empty |
| Mapping.VideoIdsOfJoin | analysis.py:307 | a cell `"[" + ",".join(ids) + "]"` of comma-free, already stripped ids, bracket-free at the list's two ends, parses back to exactly `ids` in order |
| Mapping.ScanStarts | analysis.py:330-337 | the start loop raises exactly when `int(start_)` fails and the list is non-empty; a hit is the first position holding the start; a miss means no position holds it |
| Mapping.SearchVideos | analysis.py:325-337 | a match found in a mapping row is a real match at or after the current video slot; raising implies an unparsable start |
| Mapping.SearchRows | analysis.py:305-337 | a match found is a real match at or after the current row; raising implies an unparsable start |
| Mapping.FindValues | analysis.py:302 | the lookup fails on the unpacking of `rsplit` exactly when the key holds no `_` |
| Mapping.SearchVideosFirst | analysis.py:325-337 | no match in the row comes before the one the video loop returns; with no result, the row has no match at or after the slot |
| Mapping.SearchRowsFirst | analysis.py:305-337 | no match comes before the one the row loop returns; with no result, there is no match at all |
| Mapping.SearchRowsBadStart | analysis.py:330-332 | with an unparsable start, the search raises exactly when some later slot names the video and has a start offset |
| Mapping.FindValuesFirstMatch | analysis.py:302-337 | with a parsable start, the lookup returns the tuple of the first match in row/video/start order, with end and time of day at the same index, or raises IndexError when they are missing |
| Mapping.FindValuesNotFound | analysis.py:302-337 | with a parsable start, the lookup returns None exactly when no slot of that video holds that start |
| Mapping.FindValuesBadStart | analysis.py:330-332 | with an unparsable start, the lookup raises exactly when some slot of that video has start offsets; otherwise it returns None |
| Mapping.FindValuesOfSegmentKey | analysis.py:302-337 | a key `f"{video}_{start}"` looks up exactly that video and start |
| Mapping.CalculateTotalSeconds | analysis.py:340-356 | the three loops compute the sum of `e - s` over the zip-truncated pairs of every row |
| Mapping.TotalSecondsAppend | analysis.py:345-354 | the total over two tables read one after the other is the sum of their totals |
| Mapping.TotalSecondsNonNegative | analysis.py:352-354 | when no segment ends before it starts, the total is not negative |
| Mapping.NamesCount | analysis.py:366-369 | a cell of k comma-separated items adds at most k videos |
| Mapping.NamesMembers | analysis.py:366-369 | an item is added exactly when it is the stripped form of a comma-separated piece |
| Mapping.VideoNamesMembers | analysis.py:363-369 | a name is in the set exactly when some row's cell lists it |
| Mapping.CalculateTotalVideos | analysis.py:359-371 | the loops return the size of that set, at least 1 for a non-empty table |
| Mapping.TotalVideosKeepsBrackets | analysis.py:359-371 | the cell "[abc]" names video "abc" for the lookup but is counted as "[abc]" |
| Groups.Get | analysis.py:704 | `dict.get` gives None exactly when the key is absent, else a value stored under it |
| Groups.SumByKeySpec | analysis.py:959-962 | the running-sum dict has a key exactly when something was added under it, holding the total added |
| Groups.SumForPointwise | analysis.py:923-926 | per key, totals of two columns add up to the total of their pointwise sum |
| Groups.AppendByKeySpec | analysis.py:728-731 | the append/extend dict has a key exactly when some values were added under it, holding them in order |
| Groups.AppendByKeyAll | analysis.py:795-799 | every list of the append/extend dict is non-empty, and keeps a property all added values have |
| Groups.LastByKeySpec | analysis.py:928 | the assignment dict has a key exactly when it was written, holding the last value written |
| Groups.MeanByKey | analysis.py:739 | the mean dict has the same keys as the list dict |
| Groups.MeanByKeyWithin | analysis.py:739 | means of lists of values in [lo, hi] lie in [lo, hi] |
| Crossing.CountObject | analysis.py:82-89 | the count is the number of distinct track ids among the rows of the class |
| Crossing.AnyAtMostSpec | analysis.py:616 | `(x <= v).any()` holds exactly when some X-center is at most v |
| Crossing.AnyAtLeastSpec | analysis.py:616 | `(x >= v).any()` holds exactly when some X-center is at least v |
| Crossing.KeepPassing | analysis.py:615-616 | the group filter keeps exactly the rows whose whole track passes |
| Crossing.PedestrianCrossing | analysis.py:619-621 | the count equals the number of ids returned, and the ids are distinct |
| Crossing.GroupPassesSpec | analysis.py:609-616 | a track passes the filter exactly when it has a row of the class at or left of min_x and one at or right of max_x |
| Crossing.PedestrianCrossingIds | analysis.py:609-621 | an id is returned exactly when its rows of the class reach both boundaries |
| Crossing.CrossingNeedsTwoRows | analysis.py:609-621 | with min_x < max_x, a returned id has two distinct rows of the class, so a one-row track is never returned |
| Crossing.WalkCount | analysis.py:663-683 | walking from the first occurrence of one value to the first of the other counts the rows between them, inclusive |
| Crossing.ExtremesOf | analysis.py:649-657 | min and max bound every X-center and occur first at the positions found |
| Crossing.TrackCrossTimeSpan | analysis.py:656-683 | every track with rows gets an entry: the span between the first occurrences of its extremes, over fps |
| Crossing.TimeToCross | analysis.py:624-685 | `time_to_cross`; no contract of its own, see Crossing.TimeToCrossSpec and Crossing.TimeToCrossBounds |
| Crossing.TimeToCrossFor | analysis.py:635-685 | with the frame rate taken from the segment's lookup: a lookup exception propagates; a segment with no mapping row gives `{}` for no ids and UnboundLocalError otherwise; a found segment gives exactly the ids as keys, each holding its track's span over that frame rate |
| Crossing.TimeToCrossSpec | analysis.py:647-685 | the ids are exactly the keys, each holding its track's span over fps |
| Crossing.ConstantTrackOneFrame | analysis.py:660-683 | a track whose X-center never changes takes 1/fps |
| Crossing.TimeToCrossBounds | analysis.py:647-685 | every entry lies between 1/fps and the track's row count over fps |
| Speed.SpeedNonNegative | analysis.py:715-723 | with positive heights and time, a speed is never negative |
| Speed.DropOutliers | analysis.py:726-727 | the filter keeps exactly the speeds at most 1.2, 1.2 itself included |
| Speed.SegmentSpeedsSpec | analysis.py:713-731 | a segment contributes exactly the speeds of its ids that are at most 1.2, all in [0, 1.2] |
| Speed.DropOutliersAppend | analysis.py:726-727 | the filter keeps order and repeats: filtering `a + b` is filtering `a`, then `b` |
| Speed.DropOutliersSingle | analysis.py:726-727 | one speed is kept exactly when it is at most 1.2 |
| Speed.SegmentSpeedsStep | analysis.py:713-731 | one more id appends its own speed after the earlier ids' speeds, unless it exceeds 1.2, so repeated speeds are each counted |
| Speed.CalculateSpeedOfCrossing | analysis.py:688-733 | `calculate_speed_of_crossing`; no contract of its own, see Speed.SegmentSpeedsStep, Speed.SpeedOfCrossingBounds and Speed.SpeedOfCrossingSkips |
| Speed.SpeedOfCrossingBounds | analysis.py:694-733 | every key's list is non-empty and holds speeds in [0, 1.2] |
| Speed.SpeedOfCrossingSkips | analysis.py:694-700 | an empty item of `data`, or one whose segment the mapping lacks, changes nothing |
| Speed.AvgSpeedOfCrossing | analysis.py:736-741 | `avg_speed_of_crossing`; no contract of its own, see Speed.AvgSpeedBounds |
| Speed.AvgSpeedBounds | analysis.py:736-741 | the means have the same keys as the speed lists and lie in [0, 1.2] |
| StartCross.ScanSpec | analysis.py:765-790 | the scan records nothing exactly when no stride commits, else the run length before the first commit |
| StartCross.ScanAtLeastRun | analysis.py:772-777 | a recorded count is at least 3 |
| StartCross.ShortTrackNoEntry | analysis.py:769 | a track of at most 10 rows gives the loop nothing to visit |
| StartCross.RightToLeftNoEntry | analysis.py:781-790 | with a positive margin, a right-to-left track records nothing |
| StartCross.CountsForSpec | analysis.py:761-790 | a track is listed with a count exactly when its scan records that count |
| StartCross.CountsForIncreasing | analysis.py:759-790 | listed ids are ascending and among the tracks scanned |
| StartCross.StartCountsSpec | analysis.py:746-790 | one table's counts are exactly the recorded counts of its person tracks, by ascending id |
| StartCross.StartTimesPositive | analysis.py:796-799 | with positive fps, every stored time `count / (fps / 10)` is positive |
| StartCross.TimeToStartCross | analysis.py:744-801 | `time_to_start_cross`; no contract of its own, see StartCross.StartCountsSpec, StartCross.TimeToStartCrossPositive and StartCross.TimeToStartCrossSkips |
| StartCross.TimeToStartCrossPositive | analysis.py:744-801 | every key's list is non-empty, and its times are positive when frame rates are |
| StartCross.TimeToStartCrossSkips | analysis.py:751-793 | a table whose segment the mapping lacks, or with no recorded count, changes nothing |
| StartCross.AvgTimeToStartCross | analysis.py:804-809 | `avg_time_to_start_cross`; no contract of its own, see StartCross.AvgTimeToStartCrossPositive |
| StartCross.AvgTimeToStartCrossPositive | analysis.py:804-809 | the means have the same keys as the time lists and are positive |
| Equipment.AnyEquipmentSpec | analysis.py:913-916 | the `isin([9, 11])` test holds exactly when some row is a traffic light or stop sign |
| Equipment.FirstRowOf | analysis.py:908-909 | the first label of the id is a row of it with none before |
| Equipment.LastRowOf | analysis.py:908-910 | the last label of the id is a row of it with none after |
| Equipment.CrossedWithEquipmentSpec | analysis.py:908-916 | an id counts as "with equipment" exactly when a row from its first to its last, inclusive, is class 9 or 11 |
| Equipment.ClassifyPartition | analysis.py:918-921 | each id increments exactly one counter: the two add up to the number of ids |
| Equipment.ClassifyCountsWith | analysis.py:913-921 | the first counter is the number of ids that crossed with equipment |
| Equipment.TalliesPartitioned | analysis.py:882-926 | every found segment splits its ids between the two counters |
| Equipment.SameKeys | analysis.py:900-928 | the four dicts share one key set: the keys of the found segments |
| Equipment.CrossingEventWithEquipment | analysis.py:866-929 | `crossing_event_wt_traffic_equipment`; no contract of its own, see Equipment.SameKeys, Equipment.CountersPartition and Equipment.PopulationLastWrite |
| Equipment.CountersPartition | analysis.py:899-926 | per key, the two counters add up to the crossing ids of its segments, and the time is the sum of `end - start` |
| Equipment.PopulationLastWrite | analysis.py:928 | the population stored under a key is that of the last segment with that key |
| Equipment.RateSum | analysis.py:937-939 | rates over the same time and population add up |
| Equipment.RateExample | analysis.py:938 | 6 events over 60 s with population 1000 give 0.006 |
| Equipment.Normalised | analysis.py:937-939 | both rate dicts have exactly the keys of the time dict |
| Equipment.NormalisedSum | analysis.py:937-939 | per key, the two rates add up to the rate of all crossing ids |
| Equipment.NomalisedCrossing | analysis.py:932-941 | `nomalised_crossing_wth_traffic_equipment`; no contract of its own, see Equipment.Normalised and Equipment.NomalisedCrossingSum |
| Equipment.NomalisedCrossingSum | analysis.py:932-941 | per key, the two returned rates add up to the rate of all the key's crossing ids |
| Cities.CrossingCounts | analysis.py:2815-2821 | one entry per table, in order, listing exactly the person tracks that cross that table's road between 0.45 and 0.55 (`Crosses`), each once, with the count equal to their number |
| Cities.CityContributionsSpec | analysis.py:948-962 | a key receives counts exactly when some table's segment is found under it, and receives their total |
| Cities.PedestrianCrossPerCity | analysis.py:944-964 | `pedestrian_cross_per_city`; no contract of its own, see Cities.PedestrianCrossPerCitySpec and Cities.PedestrianCrossPerCitySkips |
| Cities.PedestrianCrossPerCitySpec | analysis.py:944-964 | a key is present exactly when some table's segment is found under it, holding the total count of those tables |
| Cities.PedestrianCrossPerCitySkips | analysis.py:948-951 | a table whose segment the mapping lacks changes nothing |
| Labels.FormatList | analysis.py:408-418 | the list branch keeps length and order, formatting each element on its own |
| Labels.FormatCityState | analysis.py:401-420 | a string gives a string, a list gives a list formatted element-wise, anything else gives TypeError |
| Labels.FormatOne | analysis.py:401-406 | `format_city_state` on one string; no contract of its own, see Labels.FormatOfKey and Labels.FormatOneKeeps |
| Labels.FormatOneKeeps | analysis.py:402-406 | a string without `_` is returned unchanged |
| Labels.FormatOfKey | analysis.py:402-404 | for a city without `_`, the key `city_state` gives "city, state", or the city alone when the state is "unknown" |
| Labels.FormatUpperUnknown | analysis.py:403-404 | the state "UNKNOWN" is recognised as unknown regardless of case |

## Left out

- File, network and persistence I/O: `read_csv_files`, pickling, geocoding and the `__main__` loop, except the crossing-count glue in `Cities.CrossingCounts`. Tables and mapping rows are inputs.
- Plotting and presentation: every `plot_*` function, `save_plotly_figure`, `get_world_plot`, `adjust_annotation_positions`, `iso2_to_flag`, `iso3_to_iso2` (pycountry) and `get_value`.
- `traffic_signs`: its result depends on the module-level `count` left behind by the main loop, so it is not a function of its inputs.
- CSV and literal parsing: `ast.literal_eval` of list cells is assumed done. A NaN "Unique Id", and list elements that are not strings in `format_city_state`, are not representable.
- Tuple fields that no modelled operation reads are dropped: GDP (and its `gdp / population` division), traffic mortality, continent, literacy rate. Also dropped: the `city_country_map_` and `time_` locals of `calculate_speed_of_crossing`, which are never returned.
- IEEE floating point: positions, heights, frame rates, speeds and rates are exact reals. No rounding, NaN or infinity is modelled.
- Division by zero, `None` from `dfs.get`, and a missing group are preconditions, not modelled errors.
- Crossing.TimeToCross: the source reads the frame rate from the mapping lookup under the segment key. Here `fps` is a positive parameter. `Crossing.TimeToCrossFor` adds the lookup and its outcomes: the lookup's own exceptions propagate, and a segment with no mapping row raises UnboundLocalError as soon as one id reaches the division. A zero or negative frame rate from the mapping is excluded by precondition.
- Speed.SpeedOf: the preconditions ask for a positive crossing time and mean height (and a positive city height). The source divides numpy floats there and never raises: a zero mean height or time gives an infinite speed, which the `> 1.2` test drops; 0/0 gives NaN, which is kept because `NaN > 1.2` is false; a zero average height gives speed 0. None of these, nor negative values, is modelled.
- StartCross.TimeToStartCross: it ignores `data` (the source never reads it) and takes the person class as `pid`. It needs fps ≠ 0 only for tables that record a count, as the source does.
- StartCross.AvgTimeToStartCrossPositive: positivity is stated under positive frame rates. With a negative fps, the source's means would be negative.
- Mapping.AggKey: the triple stands for the string `f'{city}_{state}_{condition}'`. Two different triples whose joined strings coincide (a city or state containing `_`) would share one key in the source but not here.
- Text.ParseInt: only ASCII digits '0'..'9' are accepted. Python's `int()` also accepts other Unicode decimal digits (such as Arabic-Indic digits), so a start like "١٢" makes the lookup fail here where the source parses it as 12.
- Tables.Unique: the ids are distinct and exactly those of the column. Their order of first appearance is built in but not stated as a property.
- Groups: dict key order is not modelled (results are Dafny maps). The order of values inside each list is modelled.
