/**
  The keyed accumulators the analysis builds by dict mutation, as folds over
  the sequence of contributions in iteration order, each paired with an
  independent reference definition of what a key ends up holding.
 */
module Groups {
  import opened Options
  import opened Tables

  /** `d.get(key)` on a dict given by its items in insertion order. */
  function Get<K(==), V>(d: seq<(K, V)>, key: K): (r: Option<V>)
    ensures r.None? <==> forall i :: 0 <= i < |d| ==> d[i].0 != key
    ensures r.Some? ==> exists i :: 0 <= i < |d| && d[i] == (key, r.value)
  {
    if |d| == 0 then None
    else if d[0].0 == key then Some(d[0].1)
    else
      var r := Get(d[1..], key);
      assert forall i :: 1 <= i < |d| ==> d[i] == d[1..][i - 1];
      r
  }

  // ----- d[k] = d.get(k, 0) + n -----

  /** Adds `n` to the entry under `k`, starting from 0 when `k` is absent. */
  function AddTo<K(==)>(d: map<K, int>, k: K, n: int): map<K, int>
  {
    d[k := (if k in d then d[k] else 0) + n]
  }

  /** The dict built by adding each contribution's number under its key, in order. */
  function SumByKey<K(==)>(cs: seq<(K, int)>): map<K, int>
  {
    if |cs| == 0 then map[]
    else AddTo(SumByKey(cs[..|cs| - 1]), cs[|cs| - 1].0, cs[|cs| - 1].1)
  }

  /** Reference: the total of the contributions made under `k`. */
  function SumFor<K(==)>(cs: seq<(K, int)>, k: K): int
  {
    if |cs| == 0 then 0
    else SumFor(cs[..|cs| - 1], k) + (if cs[|cs| - 1].0 == k then cs[|cs| - 1].1 else 0)
  }

  /** Some contribution is made under `k`. */
  predicate HasKey<K(==), V>(cs: seq<(K, V)>, k: K)
  {
    exists i :: 0 <= i < |cs| && cs[i].0 == k
  }

  lemma HasKeyInit<K, V>(cs: seq<(K, V)>, k: K)
    requires |cs| > 0
    ensures HasKey(cs, k) <==> HasKey(cs[..|cs| - 1], k) || cs[|cs| - 1].0 == k
  {
    var init := cs[..|cs| - 1];
    if HasKey(cs, k) && cs[|cs| - 1].0 != k {
      var i :| 0 <= i < |cs| && cs[i].0 == k;
      assert init[i] == cs[i];
    }
    if HasKey(init, k) {
      var i :| 0 <= i < |init| && init[i].0 == k;
      assert cs[i] == init[i];
    }
  }

  /** A key is present exactly when some contribution is made under it, and holds their total. */
  lemma {:induction false} SumByKeySpec<K>(cs: seq<(K, int)>, k: K)
    ensures k in SumByKey(cs) <==> HasKey(cs, k)
    ensures k in SumByKey(cs) ==> SumByKey(cs)[k] == SumFor(cs, k)
  {
    if |cs| > 0 {
      SumByKeySpec(cs[..|cs| - 1], k);
      HasKeyInit(cs, k);
      if !HasKey(cs[..|cs| - 1], k) {
        SumForAbsent(cs[..|cs| - 1], k);
      }
    }
  }

  lemma {:induction false} SumForAbsent<K>(cs: seq<(K, int)>, k: K)
    requires !HasKey(cs, k)
    ensures SumFor(cs, k) == 0
  {
    if |cs| > 0 {
      HasKeyInit(cs, k);
      SumForAbsent(cs[..|cs| - 1], k);
    }
  }

  /** Sums under a key add up when contributions are added position by position. */
  lemma {:induction false} SumForPointwise<K>(a: seq<(K, int)>, b: seq<(K, int)>, c: seq<(K, int)>, k: K)
    requires |a| == |b| == |c|
    requires forall i :: 0 <= i < |c| ==> a[i].0 == c[i].0 && b[i].0 == c[i].0 && c[i].1 == a[i].1 + b[i].1
    ensures SumFor(c, k) == SumFor(a, k) + SumFor(b, k)
  {
    if |c| > 0 {
      SumForPointwise(a[..|a| - 1], b[..|b| - 1], c[..|c| - 1], k);
    }
  }

  // ----- d[k].extend(vs) -----

  /** `d[k].extend(vs)`, creating the list first when `k` is absent; an empty `vs` creates nothing. */
  function ExtendAt<K(==)>(d: map<K, seq<real>>, k: K, vs: seq<real>): map<K, seq<real>>
  {
    if vs == [] then d else d[k := (if k in d then d[k] else []) + vs]
  }

  /** The dict of lists built by extending each contribution's key with its values, in order. */
  function AppendByKey<K(==)>(cs: seq<(K, seq<real>)>): map<K, seq<real>>
  {
    if |cs| == 0 then map[]
    else ExtendAt(AppendByKey(cs[..|cs| - 1]), cs[|cs| - 1].0, cs[|cs| - 1].1)
  }

  /** Reference: the values contributed under `k`, in contribution order. */
  function CollectFor<K(==)>(cs: seq<(K, seq<real>)>, k: K): seq<real>
  {
    if |cs| == 0 then []
    else CollectFor(cs[..|cs| - 1], k) + (if cs[|cs| - 1].0 == k then cs[|cs| - 1].1 else [])
  }

  /**
    A key is present exactly when some value was contributed under it, and
    its list is every value contributed under it, in order.
   */
  lemma {:induction false} AppendByKeySpec<K>(cs: seq<(K, seq<real>)>, k: K)
    ensures k in AppendByKey(cs) <==> CollectFor(cs, k) != []
    ensures k in AppendByKey(cs) ==> AppendByKey(cs)[k] == CollectFor(cs, k)
  {
    if |cs| > 0 {
      AppendByKeySpec(cs[..|cs| - 1], k);
    }
  }

  /** Every list of the result is non-empty, and its values satisfy `P` when every contributed value does. */
  lemma {:induction false} AppendByKeyAll<K>(cs: seq<(K, seq<real>)>, P: real -> bool)
    requires forall i, j :: 0 <= i < |cs| && 0 <= j < |cs[i].1| ==> P(cs[i].1[j])
    ensures forall k :: k in AppendByKey(cs) ==>
              |AppendByKey(cs)[k]| > 0 && forall j :: 0 <= j < |AppendByKey(cs)[k]| ==> P(AppendByKey(cs)[k][j])
  {
    if |cs| > 0 {
      var init := cs[..|cs| - 1];
      assert forall i :: 0 <= i < |init| ==> init[i] == cs[i];
      AppendByKeyAll(init, P);
      var d := AppendByKey(init);
      var k := cs[|cs| - 1].0;
      var vs := cs[|cs| - 1].1;
      if vs != [] {
        var prior := if k in d then d[k] else [];
        forall j | 0 <= j < |prior + vs| ensures P((prior + vs)[j]) {
          if j < |prior| {
            assert (prior + vs)[j] == prior[j];
          } else {
            assert (prior + vs)[j] == vs[j - |prior|];
          }
        }
      }
    }
  }

  // ----- d[k] = v, last write wins -----

  /** The dict built by assigning each contribution's value under its key, in order. */
  function LastByKey<K(==), V>(cs: seq<(K, V)>): map<K, V>
  {
    if |cs| == 0 then map[] else LastByKey(cs[..|cs| - 1])[cs[|cs| - 1].0 := cs[|cs| - 1].1]
  }

  /** A key is present exactly when some contribution is made under it, and holds the last one's value. */
  lemma {:induction false} LastByKeySpec<K, V>(cs: seq<(K, V)>, k: K)
    ensures k in LastByKey(cs) <==> HasKey(cs, k)
    ensures k in LastByKey(cs) ==>
              exists i :: 0 <= i < |cs| && cs[i].0 == k && LastByKey(cs)[k] == cs[i].1
                          && forall j :: i < j < |cs| ==> cs[j].0 != k
  {
    if |cs| > 0 {
      var init := cs[..|cs| - 1];
      LastByKeySpec(init, k);
      HasKeyInit(cs, k);
      if cs[|cs| - 1].0 != k && k in LastByKey(init) {
        var i :| 0 <= i < |init| && init[i].0 == k && LastByKey(init)[k] == init[i].1
                 && forall j :: i < j < |init| ==> init[j].0 != k;
        assert cs[i] == init[i];
        assert forall j :: i < j < |cs| ==> cs[j].0 != k by {
          forall j | i < j < |cs| ensures cs[j].0 != k {
            if j < |init| { assert cs[j] == init[j]; }
          }
        }
      }
    }
  }

  // ----- {key: sum(values) / len(values) for key, values in d.items()} -----

  /** Per-key mean of a dict of non-empty lists. */
  function MeanByKey<K(==)>(d: map<K, seq<real>>): (m: map<K, real>)
    requires forall k :: k in d ==> |d[k]| > 0
    ensures m.Keys == d.Keys
  {
    map k | k in d :: Mean(d[k])
  }

  /** Each mean lies in [lo, hi] when every listed value does. */
  lemma MeanByKeyWithin<K>(d: map<K, seq<real>>, lo: real, hi: real)
    requires forall k :: k in d ==> |d[k]| > 0 && AllWithin(d[k], lo, hi)
    ensures forall k :: k in MeanByKey(d) ==> lo <= MeanByKey(d)[k] <= hi
  {
    forall k | k in d ensures lo <= MeanByKey(d)[k] <= hi {
      MeanWithin(d[k], lo, hi);
    }
  }
}
