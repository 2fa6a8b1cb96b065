/** The row-wise argsort the reference-vector lookup relies on, and what it
    means: reading a row through any ascending-sort permutation yields the
    row's sorted rearrangement, so position `k` of that permutation points at
    the rank-`k` smallest value of the row. */
module Sorting {

  /** The index sequence 0, 1, ..., n - 1. */
  function Iota(n: nat): seq<nat> {
    seq(n, i => i)
  }

  /** Every index in `p` is below `n`. */
  predicate InRange(p: seq<nat>, n: nat) {
    forall a :: 0 <= a < |p| ==> p[a] < n
  }

  /** `s` is in ascending order. */
  predicate Sorted(s: seq<real>) {
    forall a, b :: 0 <= a < b < |s| ==> s[a] <= s[b]
  }

  /** Reading `row` through the indices `p` gives ascending values. */
  predicate SortedBy(row: seq<real>, p: seq<nat>)
    requires InRange(p, |row|)
  {
    forall a, b :: 0 <= a < b < |p| ==> row[p[a]] <= row[p[b]]
  }

  /** The values of `row` read in the order given by `p`. */
  function Gather(row: seq<real>, p: seq<nat>): seq<real>
    requires InRange(p, |row|)
  {
    seq(|p|, a requires 0 <= a < |p| => row[p[a]])
  }

  /** `p` lists every index of `row` exactly once, in ascending order of the
      values: what an argsort may return for that row, whichever way it
      breaks ties between equal values. */
  predicate IsArgsort(row: seq<real>, p: seq<nat>) {
    && |p| == |row|
    && InRange(p, |row|)
    && multiset(p) == multiset(Iota(|row|))
    && SortedBy(row, p)
  }

  /** Putting an index whose value does not exceed the first value read
      through `s` in front of `s` keeps the values ascending. */
  lemma ConsSorted(row: seq<real>, x: nat, s: seq<nat>)
    requires x < |row| && InRange(s, |row|) && SortedBy(row, s)
    requires |s| > 0 ==> row[x] <= row[s[0]]
    ensures InRange([x] + s, |row|) && SortedBy(row, [x] + s)
  {
    var t := [x] + s;
    forall a, b | 0 <= a < b < |t|
      ensures row[t[a]] <= row[t[b]]
    {
      if a == 0 && b > 1 {
        assert row[s[0]] <= row[s[b - 1]];
      }
    }
  }

  /** Inserts index `j` into the value-sorted index list `p`, after every
      index whose value is not greater (so equal values keep index order). */
  function InsertIndex(row: seq<real>, p: seq<nat>, j: nat): (r: seq<nat>)
    requires j < |row| && InRange(p, |row|) && SortedBy(row, p)
    ensures |r| == |p| + 1 && InRange(r, |row|)
    ensures multiset(r) == multiset(p) + multiset{j}
    ensures SortedBy(row, r)
    ensures r[0] == j || (|p| > 0 && r[0] == p[0])
  {
    if p == [] then [j]
    else if row[j] < row[p[0]] then
      ConsSorted(row, j, p);
      [j] + p
    else
      var rest := InsertIndex(row, p[1..], j);
      assert p == [p[0]] + p[1..];
      ConsSorted(row, p[0], rest);
      [p[0]] + rest
  }

  /** Sorts the indices 0 .. m - 1 of `row` by value. */
  function ArgsortPrefix(row: seq<real>, m: nat): (r: seq<nat>)
    requires m <= |row|
    ensures |r| == m && InRange(r, |row|)
    ensures multiset(r) == multiset(Iota(m))
    ensures SortedBy(row, r)
  {
    if m == 0 then []
    else
      assert Iota(m) == Iota(m - 1) + [m - 1];
      InsertIndex(row, ArgsortPrefix(row, m - 1), m - 1)
  }

  /** The ascending-sort permutation of one row (one row of numpy's argsort
      along the last axis). */
  function Argsort(row: seq<real>): (p: seq<nat>)
    ensures IsArgsort(row, p)
  {
    ArgsortPrefix(row, |row|)
  }

  /** Dropping position `i` of `s` removes one copy of `s[i]`. */
  lemma DropAt<T>(s: seq<T>, i: nat)
    requires i < |s|
    ensures multiset(s[..i] + s[i + 1..]) == multiset(s) - multiset{s[i]}
  {
    assert s == s[..i] + [s[i]] + s[i + 1..];
    assert multiset(s) == multiset(s[..i] + s[i + 1..]) + multiset{s[i]};
  }

  /** Removing the index at position `i` from `q` removes one copy of it from
      the indices and one copy of its value from the values read. */
  lemma RemoveAt(row: seq<real>, q: seq<nat>, i: nat)
    requires InRange(q, |row|) && i < |q|
    ensures InRange(q[..i] + q[i + 1..], |row|)
    ensures multiset(q[..i] + q[i + 1..]) == multiset(q) - multiset{q[i]}
    ensures multiset(Gather(row, q[..i] + q[i + 1..])) == multiset(Gather(row, q)) - multiset{row[q[i]]}
  {
    var q' := q[..i] + q[i + 1..];
    DropAt(q, i);
    var g := Gather(row, q);
    DropAt(g, i);
    assert Gather(row, q') == g[..i] + g[i + 1..];
  }

  /** Reading a row through two index lists that hold the same indices yields
      the same values, in some order. */
  lemma {:induction false} GatherPermutation(row: seq<real>, p: seq<nat>, q: seq<nat>)
    requires InRange(p, |row|) && InRange(q, |row|)
    requires multiset(p) == multiset(q)
    ensures multiset(Gather(row, p)) == multiset(Gather(row, q))
    decreases |p|
  {
    if p == [] {
      assert |q| == |multiset(q)| == 0;
    } else {
      var x, p' := p[0], p[1..];
      assert x in multiset(q);
      var i :| 0 <= i < |q| && q[i] == x;
      var q' := q[..i] + q[i + 1..];
      RemoveAt(row, q, i);
      GatherHead(row, p);
      GatherPermutation(row, p', q');
      PutBack(multiset(Gather(row, q)), row[x]);
    }
  }

  lemma GatherHead(row: seq<real>, p: seq<nat>)
    requires InRange(p, |row|) && |p| > 0
    ensures multiset(p[1..]) == multiset(p) - multiset{p[0]}
    ensures multiset(Gather(row, p)) == multiset(Gather(row, p[1..])) + multiset{row[p[0]]}
  {
    assert p == [p[0]] + p[1..];
    assert multiset(p) == multiset{p[0]} + multiset(p[1..]);
    assert Gather(row, p) == [row[p[0]]] + Gather(row, p[1..]);
  }

  lemma PutBack(m: multiset<real>, v: real)
    requires v in m
    ensures m == (m - multiset{v}) + multiset{v}
  {
  }

  lemma SortedHeadIsLeast(s: seq<real>, v: real)
    requires Sorted(s) && v in multiset(s)
    ensures |s| > 0 && s[0] <= v
  {
    var j :| 0 <= j < |s| && s[j] == v;
  }

  /** Two ascending sequences with the same values start with the same value,
      and what follows holds the same values. */
  lemma SortedHeads(a: seq<real>, b: seq<real>)
    requires Sorted(a) && Sorted(b) && |a| > 0
    requires multiset(a) == multiset(b)
    ensures |b| > 0 && a[0] == b[0]
    ensures multiset(a[1..]) == multiset(b[1..])
  {
    SortedHeadIsLeast(b, a[0]);
    SortedHeadIsLeast(a, b[0]);
    assert a == [a[0]] + a[1..];
    assert b == [b[0]] + b[1..];
    assert multiset(a) == multiset{a[0]} + multiset(a[1..]);
    assert multiset(b) == multiset{a[0]} + multiset(b[1..]);
    assert multiset(a[1..]) == multiset(a) - multiset{a[0]};
    assert multiset(b[1..]) == multiset(b) - multiset{a[0]};
  }

  /** Two ascending sequences holding the same values are equal. */
  lemma {:induction false} SortedUnique(a: seq<real>, b: seq<real>)
    requires Sorted(a) && Sorted(b)
    requires multiset(a) == multiset(b)
    ensures a == b
    decreases |a|
  {
    if a == [] {
      assert |b| == |multiset(b)| == 0;
    } else {
      SortedHeads(a, b);
      SortedUnique(a[1..], b[1..]);
      assert a == [a[0]] + a[1..];
      assert b == [b[0]] + b[1..];
    }
  }

  /** The ascending rearrangement of `row` (what `sorted(row)` returns). */
  ghost function SortedRow(row: seq<real>): (s: seq<real>)
    ensures |s| == |row| && Sorted(s) && multiset(s) == multiset(row)
  {
    var p := Argsort(row);
    GatherPermutation(row, p, Iota(|row|));
    assert Gather(row, Iota(|row|)) == row;
    assert Sorted(Gather(row, p));
    var s :| Sorted(s) && multiset(s) == multiset(row);
    assert |s| == |multiset(s)| == |multiset(row)| == |row|;
    s
  }

  /** Position `k` of ANY ascending-sort permutation of `row` points at the
      rank-`k` smallest value of the row: `row[argsort(row)[k]] == sorted(row)[k]`. */
  lemma ArgsortSelectsOrderStatistic(row: seq<real>, p: seq<nat>, k: nat)
    requires IsArgsort(row, p) && k < |row|
    ensures row[p[k]] == SortedRow(row)[k]
  {
    GatherPermutation(row, p, Iota(|row|));
    assert Gather(row, Iota(|row|)) == row;
    SortedUnique(Gather(row, p), SortedRow(row));
  }

  /** The index sequence 0 .. n - 1 holds each index below `n` once. */
  lemma {:induction false} IotaCount(n: nat, v: nat)
    ensures multiset(Iota(n))[v] == if v < n then 1 else 0
  {
    if n > 0 {
      assert Iota(n) == Iota(n - 1) + [n - 1];
      IotaCount(n - 1, v);
    }
  }

  /** An ascending-sort permutation never lists an index twice. */
  lemma ArgsortDistinct(row: seq<real>, p: seq<nat>, a: nat, b: nat)
    requires IsArgsort(row, p) && a < b < |p|
    ensures p[a] != p[b]
  {
    if p[a] == p[b] {
      var v := p[a];
      assert p == p[..b] + p[b..];
      assert v in multiset(p[..b]) && v in multiset(p[b..]);
      assert multiset(p)[v] == multiset(p[..b])[v] + multiset(p[b..])[v];
      IotaCount(|row|, v);
      assert false;
    }
  }
}
