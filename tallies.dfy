/**
 * Tallies: sequences of (key, count) pairs, as pandas produces them with
 * `value_counts()` or a per-column `sum()`, and their ordering by count,
 * largest first (`sort_values(ascending=False)`, `sorted(..., reverse=True)`).
 * The order among equal counts is not specified by pandas; the insertion sort
 * below fixes one, and nothing proved elsewhere depends on it.
 */
module Tallies {

  predicate SortedDesc<K>(s: seq<(K, nat)>) {
    forall i, j :: 0 <= i < j < |s| ==> s[i].1 >= s[j].1
  }

  /** No key occurs twice, as in a dictionary built from the tally. */
  predicate DistinctKeys<K(==)>(s: seq<(K, nat)>) {
    forall i, j :: 0 <= i < j < |s| ==> s[i].0 != s[j].0
  }

  /** Sum of the counts. */
  function Total<K>(s: seq<(K, nat)>): nat {
    if s == [] then 0 else s[0].1 + Total(s[1..])
  }

  /** Puts `x` before the first entry whose count it is not smaller than. */
  function Insert<K>(x: (K, nat), s: seq<(K, nat)>): (r: seq<(K, nat)>)
    ensures |r| == |s| + 1
  {
    if s == [] || x.1 >= s[0].1 then [x] + s else [s[0]] + Insert(x, s[1..])
  }

  /** Inserting adds `x` and keeps every entry already there. */
  lemma {:induction false} InsertMultiset<K>(x: (K, nat), s: seq<(K, nat)>)
    ensures multiset(Insert(x, s)) == multiset(s) + multiset{x}
  {
    if s != [] && x.1 < s[0].1 {
      InsertMultiset(x, s[1..]);
      assert s == [s[0]] + s[1..];
    }
  }

  /** Inserting into a list sorted by count keeps it sorted. */
  lemma {:induction false} InsertSorted<K>(x: (K, nat), s: seq<(K, nat)>)
    requires SortedDesc(s)
    ensures SortedDesc(Insert(x, s))
  {
    if s != [] && x.1 < s[0].1 {
      var rest := Insert(x, s[1..]);
      InsertSorted(x, s[1..]);
      InsertMultiset(x, s[1..]);
      forall k | 0 <= k < |rest|
        ensures rest[k].1 <= s[0].1
      {
        assert rest[k] in multiset(s[1..]) + multiset{x};
        if rest[k] != x {
          var m :| 0 <= m < |s[1..]| && s[1..][m] == rest[k];
          assert s[m + 1] == rest[k];
        }
      }
      ConsSorted(s[0], rest);
    }
  }

  lemma ConsSorted<K>(y: (K, nat), r: seq<(K, nat)>)
    requires SortedDesc(r)
    requires forall k :: 0 <= k < |r| ==> r[k].1 <= y.1
    ensures SortedDesc([y] + r)
  {
  }


  lemma {:induction false} InsertTotal<K>(x: (K, nat), s: seq<(K, nat)>)
    ensures Total(Insert(x, s)) == Total(s) + x.1
  {
    if s != [] && x.1 < s[0].1 {
      InsertTotal(x, s[1..]);
    }
  }

  lemma MultisetOfCons<T>(s: seq<T>)
    requires s != []
    ensures multiset(s) == multiset(s[1..]) + multiset{s[0]}
  {
    assert s == [s[0]] + s[1..];
  }

  /** The entries of `s` ordered by count, largest first. */
  function SortDesc<K>(s: seq<(K, nat)>): (r: seq<(K, nat)>)
    ensures SortedDesc(r)
    ensures multiset(r) == multiset(s)
    ensures |r| == |s|
    ensures Total(r) == Total(s)
  {
    if s == [] then []
    else
      var rest := SortDesc(s[1..]);
      InsertSorted(s[0], rest);
      InsertMultiset(s[0], rest);
      InsertTotal(s[0], rest);
      MultisetOfCons(s);
      Insert(s[0], rest)
  }

  /** Inserting a new key into a tally without repeated keys repeats none. */
  lemma {:induction false} InsertDistinctKeys<K(!new)>(x: (K, nat), s: seq<(K, nat)>)
    requires DistinctKeys(s)
    requires forall k :: 0 <= k < |s| ==> s[k].0 != x.0
    ensures DistinctKeys(Insert(x, s))
  {
    if s != [] && x.1 < s[0].1 {
      var rest := Insert(x, s[1..]);
      InsertDistinctKeys(x, s[1..]);
      InsertMultiset(x, s[1..]);
      forall k | 0 <= k < |rest|
        ensures rest[k].0 != s[0].0
      {
        assert rest[k] in multiset(s[1..]) + multiset{x};
        if rest[k] != x {
          var m :| 0 <= m < |s[1..]| && s[1..][m] == rest[k];
          assert s[m + 1] == rest[k];
        }
      }
    }
  }

  /** Sorting a tally without repeated keys repeats none. */
  lemma {:induction false} SortDescDistinctKeys<K(!new)>(s: seq<(K, nat)>)
    requires DistinctKeys(s)
    ensures DistinctKeys(SortDesc(s))
  {
    if s != [] {
      var rest := SortDesc(s[1..]);
      SortDescDistinctKeys(s[1..]);
      forall k | 0 <= k < |rest|
        ensures rest[k].0 != s[0].0
      {
        assert rest[k] in multiset(s[1..]);
        var m :| 0 <= m < |s[1..]| && s[1..][m] == rest[k];
        assert s[m + 1] == rest[k];
      }
      InsertDistinctKeys(s[0], rest);
    }
  }

  /** Sorting keeps exactly the entries it was given. */
  lemma SortDescMembers<K>(s: seq<(K, nat)>)
    ensures forall e :: e in SortDesc(s) <==> e in s
  {
    forall e ensures e in SortDesc(s) <==> e in s {
      assert e in SortDesc(s) <==> e in multiset(SortDesc(s));
      assert e in s <==> e in multiset(s);
    }
  }

  /**
   * When `top` holds the first `n` entries of a list sorted by count, an
   * entry of the list that is not in `top` counts no more than any that is.
   */
  lemma LeftOutCountsNoMore<K>(all: seq<(K, nat)>, n: nat, top: seq<(K, nat)>, e: (K, nat), x: (K, nat))
    requires SortedDesc(all) && n <= |all|
    requires multiset(top) == multiset(all[..n])
    requires e in all && e !in top && x in top
    ensures e.1 <= x.1
  {
    var j :| 0 <= j < |all| && all[j] == e;
    assert forall k :: 0 <= k < n ==> all[k] == all[..n][k] && all[..n][k] in multiset(top);
    assert j >= n;
    assert x in multiset(all[..n]);
    var i :| 0 <= i < n && all[..n][i] == x;
    assert all[i] == x;
  }
}
