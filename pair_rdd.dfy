/** A sequential reference meaning for the Spark pair-RDD transformations
    the word-count job uses. An RDD is a sequence of (key, value) pairs;
    partitioning, shuffling and parallelism are not modelled. Grouping
    lists keys in order of first occurrence and keeps the values of a key
    in input order. */
module PairRdd {
  import opened StringOrder

  predicate NoDuplicates<T(==)>(s: seq<T>)
  {
    forall i, j :: 0 <= i < j < |s| ==> s[i] != s[j]
  }

  /** The keys of a pair sequence, position by position. */
  function Keys<K, V>(ps: seq<(K, V)>): (r: seq<K>)
    ensures |r| == |ps|
    ensures forall i :: 0 <= i < |ps| ==> r[i] == ps[i].0
  {
    seq(|ps|, i requires 0 <= i < |ps| => ps[i].0)
  }

  /** The distinct elements of s, each at its first occurrence. */
  function Dedup<T(==,!new)>(s: seq<T>): (r: seq<T>)
    ensures forall x :: x in r <==> x in s
    ensures NoDuplicates(r)
    ensures |r| <= |s|
  {
    if s == [] then []
    else
      var d := Dedup(s[..|s| - 1]);
      var x := s[|s| - 1];
      assert forall y :: y in s <==> y in s[..|s| - 1] || y == x by {
        assert s == s[..|s| - 1] + [x];
      }
      if x in d then d else d + [x]
  }

  /** The values paired with key k, in input order (duplicates kept). */
  function ValuesOf<K(==), V(==,!new)>(ps: seq<(K, V)>, k: K): (r: seq<V>)
    ensures |r| <= |ps|
    ensures |r| > 0 <==> k in Keys(ps)
    ensures forall v :: v in r <==> (k, v) in ps
  {
    if ps == [] then []
    else
      var init, last := ps[..|ps| - 1], ps[|ps| - 1];
      assert ps == init + [last];
      assert Keys(ps) == Keys(init) + [last.0];
      ValuesOf(init, k) + (if last.0 == k then [last.1] else [])
  }

  /** Appending a pair appends its value to that key's values, if the key matches. */
  lemma ValuesOfSnoc<K, V(!new)>(ps: seq<(K, V)>, p: (K, V), k: K)
    ensures ValuesOf(ps + [p], k) == ValuesOf(ps, k) + (if p.0 == k then [p.1] else [])
  {
    assert (ps + [p])[..|ps|] == ps;
  }

  /** Each key of ks paired with its values in ps. */
  function GroupsOf<K(==), V(==,!new)>(ks: seq<K>, ps: seq<(K, V)>): (r: seq<(K, seq<V>)>)
    ensures Keys(r) == ks
    ensures forall i :: 0 <= i < |r| ==> r[i].1 == ValuesOf(ps, r[i].0)
  {
    var r := seq(|ks|, i requires 0 <= i < |ks| => (ks[i], ValuesOf(ps, ks[i])));
    assert Keys(r) == ks;
    r
  }

  /** groupByKey: one entry per distinct key, holding all of its values. */
  function GroupByKey<K(==,!new), V(==,!new)>(ps: seq<(K, V)>): (r: seq<(K, seq<V>)>)
    ensures NoDuplicates(Keys(r))
    ensures forall k :: k in Keys(r) <==> k in Keys(ps)
    ensures forall i :: 0 <= i < |r| ==> r[i].1 == ValuesOf(ps, r[i].0) && |r[i].1| > 0
  {
    var d := Dedup(Keys(ps));
    var r := GroupsOf(d, ps);
    assert forall i :: 0 <= i < |r| ==> r[i].0 == d[i] && d[i] in d;
    r
  }

  /** mapValues: apply f to every value, keys and order unchanged. */
  function MapValues<K, V, W>(f: V -> W, ps: seq<(K, V)>): (r: seq<(K, W)>)
    ensures |r| == |ps|
    ensures Keys(r) == Keys(ps)
    ensures forall i :: 0 <= i < |ps| ==> r[i].1 == f(ps[i].1)
  {
    var r := seq(|ps|, i requires 0 <= i < |ps| => (ps[i].0, f(ps[i].1)));
    assert Keys(r) == Keys(ps);
    r
  }

  /** mapToPair: apply f to every element, order unchanged. */
  function MapToPair<T, K, V>(f: T -> (K, V), s: seq<T>): (r: seq<(K, V)>)
    ensures |r| == |s|
    ensures forall i :: 0 <= i < |s| ==> r[i] == f(s[i])
  {
    seq(|s|, i requires 0 <= i < |s| => f(s[i]))
  }

  /** The left fold of a non-empty sequence with f. */
  function FoldLeft1<V>(f: (V, V) -> V, vs: seq<V>): V
    requires |vs| > 0
  {
    if |vs| == 1 then vs[0] else f(FoldLeft1(f, vs[..|vs| - 1]), vs[|vs| - 1])
  }

  /** reduceByKey: one entry per distinct key, holding the fold of its
      values with f. Spark folds in an unspecified order; for an
      associative and commutative f every order gives this left fold. */
  function ReduceByKey<K(==,!new), V(==,!new)>(f: (V, V) -> V, ps: seq<(K, V)>): (r: seq<(K, V)>)
    ensures NoDuplicates(Keys(r))
    ensures forall k :: k in Keys(r) <==> k in Keys(ps)
    ensures forall i :: 0 <= i < |r| ==> |ValuesOf(ps, r[i].0)| > 0 && r[i].1 == FoldLeft1(f, ValuesOf(ps, r[i].0))
  {
    var g := GroupByKey(ps);
    var r := seq(|g|, i requires 0 <= i < |g| => (g[i].0, FoldLeft1(f, g[i].1)));
    assert Keys(r) == Keys(g);
    r
  }

  /** filter: the elements satisfying keep, in order. */
  function Filter<T(!new)>(keep: T -> bool, s: seq<T>): (r: seq<T>)
    ensures |r| <= |s|
    ensures forall x :: x in r <==> x in s && keep(x)
    ensures forall x :: multiset(r)[x] == if keep(x) then multiset(s)[x] else 0
  {
    if s == [] then []
    else
      var init, last := s[..|s| - 1], s[|s| - 1];
      assert s == init + [last];
      assert multiset(s) == multiset(init) + multiset{last};
      Filter(keep, init) + (if keep(last) then [last] else [])
  }

  /** A filtered pair sequence has no key its input lacks. */
  lemma FilterKeys<K(!new), V(!new)>(keep: ((K, V)) -> bool, s: seq<(K, V)>, k: K)
    requires k in Keys(Filter(keep, s))
    ensures k in Keys(s)
  {
    var f := Filter(keep, s);
    var i :| 0 <= i < |f| && Keys(f)[i] == k;
    assert f[i] in s;
    var j :| 0 <= j < |s| && s[j] == f[i];
    assert Keys(s)[j] == k;
  }

  /** Appending a fresh element keeps a sequence free of duplicates. */
  lemma NoDuplicatesSnoc<T>(s: seq<T>, x: T)
    requires NoDuplicates(s) && x !in s
    ensures NoDuplicates(s + [x])
  {
  }

  /** A prefix of a sequence free of duplicates is free of them, and does
      not hold the element that follows it. */
  lemma NoDuplicatesInit<T>(s: seq<T>, x: T)
    requires NoDuplicates(s + [x])
    ensures NoDuplicates(s) && x !in s
  {
    assert forall i :: 0 <= i < |s| ==> (s + [x])[i] == s[i];
    assert (s + [x])[|s|] == x;
  }

  /** Filtering a pair sequence whose keys are distinct leaves them distinct. */
  lemma {:induction false} FilterKeysNoDuplicates<K(!new), V(!new)>(keep: ((K, V)) -> bool, s: seq<(K, V)>)
    requires NoDuplicates(Keys(s))
    ensures NoDuplicates(Keys(Filter(keep, s)))
  {
    if s != [] {
      var init, last := s[..|s| - 1], s[|s| - 1];
      assert Keys(s) == Keys(init) + [last.0];
      NoDuplicatesInit(Keys(init), last.0);
      FilterKeysNoDuplicates(keep, init);
      var f := Filter(keep, init);
      if keep(last) {
        assert Filter(keep, s) == f + [last];
        if last.0 in Keys(f) {
          FilterKeys(keep, init, last.0);
        }
        assert Keys(f + [last]) == Keys(f) + [last.0];
        NoDuplicatesSnoc(Keys(f), last.0);
      }
    }
  }

  /** A sequence free of duplicates holds each element at most once. */
  lemma {:induction false} NoDuplicatesCount<T>(s: seq<T>, x: T)
    requires NoDuplicates(s)
    ensures multiset(s)[x] == if x in s then 1 else 0
  {
    if s != [] {
      var init, last := s[..|s| - 1], s[|s| - 1];
      assert s == init + [last];
      assert NoDuplicates(init);
      NoDuplicatesCount(init, x);
      assert last !in init;
    }
  }

  /** The keys of a concatenation are the concatenated keys. */
  lemma KeysConcat<K, V>(a: seq<(K, V)>, b: seq<(K, V)>)
    ensures Keys(a + b) == Keys(a) + Keys(b)
  {
  }

  /** Removing the element at i removes one copy of it. */
  lemma MultisetRemove<T>(b: seq<T>, i: nat)
    requires i < |b|
    ensures multiset(b[..i] + b[i + 1..]) == multiset(b) - multiset{b[i]}
  {
    assert b == b[..i] + [b[i]] + b[i + 1..];
  }

  /** Removing the pair at i removes the key at i. */
  lemma KeysSplit<K, V>(b: seq<(K, V)>, i: nat)
    requires i < |b|
    ensures Keys(b[..i] + b[i + 1..]) == Keys(b)[..i] + Keys(b)[i + 1..]
  {
    KeysConcat(b[..i], b[i + 1..]);
  }

  /** Removing the pair at i removes one copy of its key from the keys. */
  lemma KeysRemove<K, V>(b: seq<(K, V)>, i: nat)
    requires i < |b|
    ensures multiset(Keys(b)) == multiset(Keys(b[..i] + b[i + 1..])) + multiset{b[i].0}
  {
    KeysSplit(b, i);
    MultisetRemove(Keys(b), i);
    assert Keys(b)[i] in multiset(Keys(b));
  }

  /** Rearranging pairs rearranges their keys. */
  lemma {:induction false} KeysPermutation<K, V>(a: seq<(K, V)>, b: seq<(K, V)>)
    requires multiset(a) == multiset(b)
    ensures multiset(Keys(a)) == multiset(Keys(b))
    decreases |a|
  {
    if a != [] {
      var n := |a| - 1;
      var init, x := a[..n], a[n];
      assert x in multiset(b);
      var i :| 0 <= i < |b| && b[i] == x;
      assert a == init + [x];
      assert multiset(init) == multiset(a) - multiset{x};
      MultisetRemove(b, i);
      KeysRemove(b, i);
      KeysPermutation(init, b[..i] + b[i + 1..]);
      assert Keys(a) == Keys(init) + [x.0];
    }
  }

  /** Filtering twice with the same predicate filters once. */
  lemma {:induction false} FilterIdempotent<T(!new)>(keep: T -> bool, s: seq<T>)
    ensures Filter(keep, Filter(keep, s)) == Filter(keep, s)
  {
    if s != [] {
      var init, last := s[..|s| - 1], s[|s| - 1];
      FilterIdempotent(keep, init);
      var f := Filter(keep, init);
      if keep(last) {
        var g := f + [last];
        assert Filter(keep, s) == g;
        assert g[..|g| - 1] == f && g[|g| - 1] == last;
        assert Filter(keep, g) == Filter(keep, f) + [last];
      } else {
        assert Filter(keep, s) == f;
      }
    }
  }

  /** union: the elements of a, then those of b. */
  function Union<T>(a: seq<T>, b: seq<T>): seq<T>
  {
    a + b
  }

  predicate SortedByKey<V>(s: seq<(string, V)>)
  {
    forall i :: 0 < i < |s| ==> KeyLe(s[i - 1].0, s[i].0)
  }

  /** Insert e before the first element whose key does not sort before
      e's, so e goes ahead of any equal keys already there. */
  function InsertByKey<V(==)>(e: (string, V), s: seq<(string, V)>): (r: seq<(string, V)>)
    requires SortedByKey(s)
    ensures SortedByKey(r)
    ensures multiset(r) == multiset(s) + multiset{e}
    ensures r[0] == e || (|s| > 0 && r[0] == s[0])
  {
    if s == [] then [e]
    else if KeyLe(e.0, s[0].0) then [e] + s
    else
      KeyLeTotal(e.0, s[0].0);
      assert s == [s[0]] + s[1..];
      [s[0]] + InsertByKey(e, s[1..])
  }

  /** sortByKey(true): ascending by String.compareTo (an insertion sort;
      equal keys keep their input order). */
  function SortByKey<V(==)>(ps: seq<(string, V)>): (r: seq<(string, V)>)
    ensures SortedByKey(r)
    ensures multiset(r) == multiset(ps)
  {
    if ps == [] then []
    else
      assert ps == [ps[0]] + ps[1..];
      InsertByKey(ps[0], SortByKey(ps[1..]))
  }

  /** Adjacent order extends to every pair of positions. */
  lemma {:induction false} SortedByKeyPairwise<V>(s: seq<(string, V)>)
    requires SortedByKey(s)
    ensures forall i, j :: 0 <= i < j < |s| ==> KeyLe(s[i].0, s[j].0)
  {
    if |s| > 1 {
      var init := s[..|s| - 1];
      assert SortedByKey(init) by {
        forall i | 0 < i < |init| ensures KeyLe(init[i - 1].0, init[i].0) {
          assert init[i - 1] == s[i - 1] && init[i] == s[i];
        }
      }
      SortedByKeyPairwise(init);
      forall i, j | 0 <= i < j < |s| ensures KeyLe(s[i].0, s[j].0) {
        if j < |s| - 1 {
          assert init[i] == s[i] && init[j] == s[j];
        } else if i < j - 1 {
          assert init[i] == s[i] && init[j - 1] == s[j - 1];
          CompareToTransitive(s[i].0, s[j - 1].0, s[j].0);
        }
      }
    }
  }
}
