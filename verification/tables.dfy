/**
  One detection table per video segment, as `pd.read_csv` loads it: a sequence
  of rows whose default RangeIndex label equals the row's position.
  Positions and heights are exact reals: no floating-point rounding is modelled.
 */
module Tables {

  /** One detection: YOLO class id, tracker "Unique Id", "X-center" and "Height". */
  datatype Row = Row(yolo: int, uid: int, x: real, h: real)

  type Table = seq<Row>

  /** No element occurs twice. */
  predicate Distinct(s: seq<int>)
  {
    forall i, j :: 0 <= i < j < |s| ==> s[i] != s[j]
  }

  /** The rows of one object class, in table order: a boolean row filter on the class column. */
  function OfClass(t: Table, cls: int): (r: Table)
    ensures |r| <= |t|
    ensures forall row :: row in r <==> row in t && row.yolo == cls
  {
    if |t| == 0 then []
    else
      var rest := OfClass(t[..|t| - 1], cls);
      assert t == t[..|t| - 1] + [t[|t| - 1]];
      if t[|t| - 1].yolo == cls then rest + [t[|t| - 1]] else rest
  }

  /** The rows of one track, of every class, in table order: a boolean row filter on the id column. */
  function Track(t: Table, id: int): (r: Table)
    ensures |r| <= |t|
    ensures forall row :: row in r <==> row in t && row.uid == id
  {
    if |t| == 0 then []
    else
      var rest := Track(t[..|t| - 1], id);
      assert t == t[..|t| - 1] + [t[|t| - 1]];
      if t[|t| - 1].uid == id then rest + [t[|t| - 1]] else rest
  }

  /** The class filter keeps table order and repeats: filtering a concatenation filters each part. */
  lemma {:induction false} OfClassAppend(a: Table, b: Table, cls: int)
    ensures OfClass(a + b, cls) == OfClass(a, cls) + OfClass(b, cls)
    decreases |b|
  {
    if |b| > 0 {
      var b' := b[..|b| - 1];
      assert (a + b)[..|a + b| - 1] == a + b';
      OfClassAppend(a, b', cls);
    } else {
      assert a + b == a;
    }
  }

  /** A single row passes the class filter exactly when it is of that class. */
  lemma OfClassSingle(row: Row, cls: int)
    ensures OfClass([row], cls) == if row.yolo == cls then [row] else []
  {
  }

  /** The id filter keeps table order and repeats: filtering a concatenation filters each part. */
  lemma {:induction false} TrackAppend(a: Table, b: Table, id: int)
    ensures Track(a + b, id) == Track(a, id) + Track(b, id)
    decreases |b|
  {
    if |b| > 0 {
      var b' := b[..|b| - 1];
      assert (a + b)[..|a + b| - 1] == a + b';
      TrackAppend(a, b', id);
    } else {
      assert a + b == a;
    }
  }

  /** A single row passes the id filter exactly when it carries that id. */
  lemma TrackSingle(row: Row, id: int)
    ensures Track([row], id) == if row.uid == id then [row] else []
  {
  }

  /** Some row of the table belongs to track `id`. */
  predicate HasTrack(t: Table, id: int)
  {
    exists i :: 0 <= i < |t| && t[i].uid == id
  }

  /** A track that has a row is non-empty. */
  lemma HasTrackNonEmpty(t: Table, id: int)
    requires HasTrack(t, id)
    ensures |Track(t, id)| > 0
  {
    var i :| 0 <= i < |t| && t[i].uid == id;
    assert t[i] in Track(t, id);
  }

  /** The "Unique Id" column. */
  function Uids(t: Table): (r: seq<int>)
    ensures |r| == |t|
  {
    seq(|t|, i requires 0 <= i < |t| => t[i].uid)
  }

  /** A value is in the "Unique Id" column exactly when some row carries it. */
  lemma InUids(s: Table, row: Row)
    requires row in s
    ensures row.uid in Uids(s)
  {
    var k :| 0 <= k < |s| && s[k] == row;
    assert Uids(s)[k] == row.uid;
  }

  lemma FromUids(s: Table, v: int) returns (row: Row)
    requires v in Uids(s)
    ensures row in s && row.uid == v
  {
    var k :| 0 <= k < |s| && Uids(s)[k] == v;
    row := s[k];
  }

  /** `groupby` keys: each value once, in ascending order. */
  predicate Increasing(s: seq<int>)
  {
    forall i, j :: 0 <= i < j < |s| ==> s[i] < s[j]
  }

  function InsertSorted(s: seq<int>, v: int): (r: seq<int>)
    requires Increasing(s)
    ensures Increasing(r)
    ensures forall x :: x in r <==> x in s || x == v
  {
    if |s| == 0 then [v]
    else if v < s[0] then [v] + s
    else if v == s[0] then s
    else
      assert forall x :: x in s[1..] ==> x > s[0];
      var rest := InsertSorted(s[1..], v);
      var r := [s[0]] + rest;
      assert forall i :: 1 <= i < |r| ==> r[i] == rest[i - 1] && r[i] in rest;
      r
  }

  /** The keys `groupby` iterates over: the distinct values, in ascending order. */
  function GroupKeys(s: seq<int>): (r: seq<int>)
    ensures Increasing(r)
    ensures forall x :: x in r <==> x in s
  {
    if |s| == 0 then []
    else
      assert s == s[..|s| - 1] + [s[|s| - 1]];
      InsertSorted(GroupKeys(s[..|s| - 1]), s[|s| - 1])
  }

  /** The "X-center" column. */
  function Xs(t: Table): (r: seq<real>)
    ensures |r| == |t|
  {
    seq(|t|, i requires 0 <= i < |t| => t[i].x)
  }

  /** The "Height" column. */
  function Heights(t: Table): (r: seq<real>)
    ensures |r| == |t|
  {
    seq(|t|, i requires 0 <= i < |t| => t[i].h)
  }

  /** pandas `.unique()`: each value once, in order of first appearance. */
  function Unique(s: seq<int>): (r: seq<int>)
    ensures Distinct(r)
    ensures forall v :: v in r <==> v in s
    ensures |r| <= |s|
  {
    if |s| == 0 then []
    else
      var rest := Unique(s[..|s| - 1]);
      assert s == s[..|s| - 1] + [s[|s| - 1]];
      if s[|s| - 1] in rest then rest else rest + [s[|s| - 1]]
  }

  /** A duplicate-free sequence has as many elements as its set. */
  lemma {:induction false} DistinctCard(s: seq<int>)
    requires Distinct(s)
    ensures |set v | v in s| == |s|
  {
    if |s| > 0 {
      var init := s[..|s| - 1];
      DistinctCard(init);
      assert (set v | v in s) == (set v | v in init) + {s[|s| - 1]};
      assert s[|s| - 1] !in init;
    }
  }

  /** Smallest element (`.min()`). */
  function MinOf(xs: seq<real>): (m: real)
    requires |xs| > 0
    ensures m in xs
    ensures forall i :: 0 <= i < |xs| ==> m <= xs[i]
  {
    if |xs| == 1 then xs[0]
    else
      var rest := MinOf(xs[1..]);
      assert forall i :: 1 <= i < |xs| ==> xs[i] == xs[1..][i - 1];
      if xs[0] <= rest then xs[0] else rest
  }

  /** Largest element (`.max()`). */
  function MaxOf(xs: seq<real>): (m: real)
    requires |xs| > 0
    ensures m in xs
    ensures forall i :: 0 <= i < |xs| ==> xs[i] <= m
  {
    if |xs| == 1 then xs[0]
    else
      var rest := MaxOf(xs[1..]);
      assert forall i :: 1 <= i < |xs| ==> xs[i] == xs[1..][i - 1];
      if xs[0] >= rest then xs[0] else rest
  }

  /** Position of the first occurrence of `v`. */
  function FirstIndexOf(xs: seq<real>, v: real): (p: nat)
    requires v in xs
    ensures p < |xs| && xs[p] == v
    ensures forall j :: 0 <= j < p ==> xs[j] != v
  {
    if xs[0] == v then 0
    else
      assert v in xs[1..];
      1 + FirstIndexOf(xs[1..], v)
  }

  function Sum(xs: seq<real>): real
  {
    if |xs| == 0 then 0.0 else Sum(xs[..|xs| - 1]) + xs[|xs| - 1]
  }

  /** Arithmetic mean (`.mean()`, `sum(values) / len(values)`). */
  function Mean(xs: seq<real>): real
    requires |xs| > 0
  {
    Sum(xs) / (|xs| as real)
  }

  /** Every element lies in [lo, hi]. */
  predicate AllWithin(xs: seq<real>, lo: real, hi: real)
  {
    forall i :: 0 <= i < |xs| ==> lo <= xs[i] <= hi
  }

  lemma {:induction false} SumWithin(xs: seq<real>, lo: real, hi: real)
    requires AllWithin(xs, lo, hi)
    ensures lo * (|xs| as real) <= Sum(xs) <= hi * (|xs| as real)
  {
    if |xs| > 0 {
      var init := xs[..|xs| - 1];
      assert AllWithin(init, lo, hi) by {
        forall i | 0 <= i < |init| ensures lo <= init[i] <= hi {
          assert init[i] == xs[i];
        }
      }
      SumWithin(init, lo, hi);
      assert lo <= xs[|xs| - 1] <= hi;
      assert lo * (|xs| as real) == lo * (|init| as real) + lo;
      assert hi * (|xs| as real) == hi * (|init| as real) + hi;
    }
  }

  /** The mean of values that all lie in [lo, hi] lies in [lo, hi]. */
  lemma MeanWithin(xs: seq<real>, lo: real, hi: real)
    requires |xs| > 0
    requires AllWithin(xs, lo, hi)
    ensures lo <= Mean(xs) <= hi
  {
    SumWithin(xs, lo, hi);
    var n := |xs| as real;
    assert lo * n / n == lo;
    assert hi * n / n == hi;
    DivMonotone(lo * n, Sum(xs), n);
    DivMonotone(Sum(xs), hi * n, n);
  }

  /** The mean of positive values is positive. */
  lemma MeanPositive(xs: seq<real>)
    requires |xs| > 0
    requires forall i :: 0 <= i < |xs| ==> xs[i] > 0.0
    ensures Mean(xs) > 0.0
  {
    SumPositive(xs);
  }

  lemma {:induction false} SumPositive(xs: seq<real>)
    requires |xs| > 0
    requires forall i :: 0 <= i < |xs| ==> xs[i] > 0.0
    ensures Sum(xs) > 0.0
  {
    if |xs| > 1 {
      SumPositive(xs[..|xs| - 1]);
    }
  }

  lemma DivMonotone(a: real, b: real, n: real)
    requires a <= b
    requires n > 0.0
    ensures a / n <= b / n
  {
    assert b / n - a / n == (b - a) / n;
  }
}
