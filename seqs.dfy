/** Generic sequence helpers shared by the table, chart and account modules:
    occurrence counts, duplicate-freedom, first occurrence and the
    first-seen de-duplication that pandas' `unique()` performs. */
module Seqs {

  /** Number of positions of `xs` holding `v`. */
  function Count<T(==)>(xs: seq<T>, v: T): (n: nat)
    ensures n <= |xs|
    ensures n == 0 <==> v !in xs
  {
    if xs == [] then 0
    else Count(xs[..|xs| - 1], v) + (if xs[|xs| - 1] == v then 1 else 0)
  }

  lemma CountAppend<T>(xs: seq<T>, ys: seq<T>, v: T)
    ensures Count(xs + ys, v) == Count(xs, v) + Count(ys, v)
    decreases |ys|
  {
    if ys == [] {
      assert xs + ys == xs;
    } else {
      assert (xs + ys)[..|xs + ys| - 1] == xs + ys[..|ys| - 1];
      CountAppend(xs, ys[..|ys| - 1], v);
    }
  }

  predicate NoDup<T(==)>(xs: seq<T>) {
    forall i, j :: 0 <= i < j < |xs| ==> xs[i] != xs[j]
  }

  /** Index of the first occurrence of `v` in `xs`. */
  function FirstIndex<T(==)>(xs: seq<T>, v: T): (k: nat)
    requires v in xs
    ensures k < |xs| && xs[k] == v
    ensures forall j :: 0 <= j < k ==> xs[j] != v
  {
    if xs[0] == v then 0 else 1 + FirstIndex(xs[1..], v)
  }

  /** `FirstIndex` is the one index holding `v` with no `v` before it. */
  lemma FirstIndexUnique<T>(xs: seq<T>, v: T, k: nat)
    requires k < |xs| && xs[k] == v
    requires forall j :: 0 <= j < k ==> xs[j] != v
    ensures FirstIndex(xs, v) == k
  {
  }

  lemma FirstIndexPrefix<T>(xs: seq<T>, n: nat, v: T)
    requires n <= |xs| && v in xs[..n]
    ensures FirstIndex(xs, v) == FirstIndex(xs[..n], v)
  {
    var p := xs[..n];
    var k := FirstIndex(p, v);
    assert forall j :: 0 <= j < k ==> xs[j] == p[j];
    FirstIndexUnique(xs, v, k);
  }

  /** The distinct values of `xs` in first-seen order. */
  function Dedup<T(==)>(xs: seq<T>): (r: seq<T>)
    ensures NoDup(r)
    ensures forall i :: 0 <= i < |r| ==> r[i] in xs
    ensures forall i :: 0 <= i < |xs| ==> xs[i] in r
    ensures |r| <= |xs|
  {
    if xs == [] then []
    else
      var d := Dedup(xs[..|xs| - 1]);
      var last := xs[|xs| - 1];
      assert forall i :: 0 <= i < |xs| - 1 ==> xs[i] == xs[..|xs| - 1][i];
      if last in d then d else d + [last]
  }

  /** `Dedup` keeps exactly the values of `xs`. */
  lemma DedupSameValues<T>(xs: seq<T>, v: T)
    ensures v in Dedup(xs) <==> v in xs
  {
    var r := Dedup(xs);
    if v in r {
      var i :| 0 <= i < |r| && r[i] == v;
      assert r[i] in xs;
    }
    if v in xs {
      var i :| 0 <= i < |xs| && xs[i] == v;
      assert xs[i] in r;
    }
  }

  /** `Dedup` keeps values in the order of their first occurrence. */
  lemma {:induction false} DedupFirstSeen<T>(xs: seq<T>, i: nat, j: nat)
    requires i < j < |Dedup(xs)|
    ensures FirstIndex(xs, Dedup(xs)[i]) < FirstIndex(xs, Dedup(xs)[j])
  {
    assert xs != [];
    var init := xs[..|xs| - 1];
    var last := xs[|xs| - 1];
    var d := Dedup(init);
    var r := Dedup(xs);
    assert r == if last in d then d else d + [last];
    assert r[i] == d[i];
    assert d[i] in init;
    FirstIndexPrefix(xs, |xs| - 1, d[i]);
    if j < |d| {
      assert r[j] == d[j];
      DedupFirstSeen(init, i, j);
      FirstIndexPrefix(xs, |xs| - 1, d[j]);
    } else {
      assert r[j] == last && last !in d;
      assert last !in init;
      forall k | 0 <= k < |xs| - 1 ensures xs[k] != last {
        assert xs[k] == init[k];
      }
      FirstIndexUnique(xs, last, |xs| - 1);
    }
  }

  /** Sum of the counts in `xs` of each value listed in `keys`. */
  function SumCounts<T(==)>(keys: seq<T>, xs: seq<T>): nat {
    if keys == [] then 0 else Count(xs, keys[0]) + SumCounts(keys[1..], xs)
  }

  lemma {:induction false} SumCountsSingle<T>(keys: seq<T>, x: T)
    requires NoDup(keys)
    ensures SumCounts(keys, [x]) == if x in keys then 1 else 0
  {
    if keys != [] {
      assert [x][..0] == [];
      SumCountsSingle(keys[1..], x);
      assert x in keys <==> x == keys[0] || x in keys[1..];
    }
  }

  lemma {:induction false} SumCountsAppend<T>(keys: seq<T>, xs: seq<T>, ys: seq<T>)
    ensures SumCounts(keys, xs + ys) == SumCounts(keys, xs) + SumCounts(keys, ys)
  {
    if keys != [] {
      CountAppend(xs, ys, keys[0]);
      SumCountsAppend(keys[1..], xs, ys);
    }
  }

  /** When every value of `xs` is listed exactly once in `keys`, the counts
      of the keys add up to the length of `xs`. */
  lemma {:induction false} SumCountsCoversAll<T>(keys: seq<T>, xs: seq<T>)
    requires NoDup(keys)
    requires forall v :: v in xs ==> v in keys
    ensures SumCounts(keys, xs) == |xs|
    decreases |xs|, |keys|
  {
    if xs == [] {
      if keys != [] {
        SumCountsCoversAll(keys[1..], xs);
      }
    } else {
      var init := xs[..|xs| - 1];
      assert xs == init + [xs[|xs| - 1]];
      SumCountsAppend(keys, init, [xs[|xs| - 1]]);
      SumCountsCoversAll(keys, init);
      SumCountsSingle(keys, xs[|xs| - 1]);
    }
  }

  /** In a duplicate-free sequence the first occurrence is the only one. */
  lemma FirstIndexNoDup<T>(xs: seq<T>, k: nat)
    requires NoDup(xs) && k < |xs|
    ensures FirstIndex(xs, xs[k]) == k
  {
  }

  /** The integers `lo`, ..., `hi - 1`. */
  function Range(lo: nat, hi: nat): (r: seq<nat>)
    requires lo <= hi
    ensures |r| == hi - lo
    ensures forall k :: 0 <= k < |r| ==> r[k] == lo + k
    decreases hi - lo
  {
    if lo == hi then [] else [lo] + Range(lo + 1, hi)
  }
}
