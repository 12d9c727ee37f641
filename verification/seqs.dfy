/** Sequence and ordered-dictionary helpers.

    Python lists are `seq`s. Python dicts keep insertion order, and where the
    modelled code depends on that order a dict is a `Dict<V>`: a sequence of
    (key, value) pairs with pairwise distinct keys. */
module Seqs {
  import opened Wrappers

  // ---------------------------------------------------------------------------
  // Order-preserving selection

  /** `[x for x in s if p(x)]` */
  function Filter<T>(s: seq<T>, p: T -> bool): (r: seq<T>)
    ensures |r| <= |s|
    ensures forall i :: 0 <= i < |r| ==> r[i] in s && p(r[i])
    ensures forall i :: 0 <= i < |s| && p(s[i]) ==> s[i] in r
    decreases |s|
  {
    if |s| == 0 then []
    else if p(s[0]) then [s[0]] + Filter(s[1..], p)
    else Filter(s[1..], p)
  }

  /** `a` is `b` with some elements left out, in the same order. */
  ghost predicate IsSubsequence<T>(a: seq<T>, b: seq<T>)
    decreases |b|
  {
    |a| == 0 || (|b| > 0 && ((a[0] == b[0] && IsSubsequence(a[1..], b[1..])) || IsSubsequence(a, b[1..])))
  }

  /** Selection keeps the input order. */
  lemma {:induction false} FilterIsSubsequence<T>(s: seq<T>, p: T -> bool)
    ensures IsSubsequence(Filter(s, p), s)
    decreases |s|
  {
    if |s| > 0 {
      FilterIsSubsequence(s[1..], p);
      if p(s[0]) {
        assert Filter(s, p)[1..] == Filter(s[1..], p);
      }
    }
  }

  /** Selecting by a stronger condition yields a subsequence of selecting by a
      weaker one. */
  lemma {:induction false} FilterStronger<T>(s: seq<T>, p: T -> bool, q: T -> bool)
    requires forall x :: x in s && p(x) ==> q(x)
    ensures IsSubsequence(Filter(s, p), Filter(s, q))
    decreases |s|
  {
    if |s| > 0 {
      FilterStronger(s[1..], p, q);
      var fp, fq := Filter(s, p), Filter(s, q);
      if p(s[0]) {
        assert fp[1..] == Filter(s[1..], p);
        assert fq[1..] == Filter(s[1..], q);
      } else if q(s[0]) {
        assert fq[1..] == Filter(s[1..], q);
        SubsequenceOfTail(fp, fq);
      }
    }
  }

  lemma {:induction false} SubsequenceOfTail<T>(a: seq<T>, b: seq<T>)
    requires |b| > 0 && IsSubsequence(a, b[1..])
    ensures IsSubsequence(a, b)
  {
  }

  /** Selection depends only on the values the condition takes on the input. */
  lemma {:induction false} FilterExtensional<T>(s: seq<T>, p: T -> bool, q: T -> bool)
    requires forall x :: x in s ==> p(x) == q(x)
    ensures Filter(s, p) == Filter(s, q)
    decreases |s|
  {
    if |s| > 0 {
      FilterExtensional(s[1..], p, q);
    }
  }

  /** Selecting from a concatenation selects from each part. */
  lemma {:induction false} FilterAppend<T>(a: seq<T>, b: seq<T>, p: T -> bool)
    ensures Filter(a + b, p) == Filter(a, p) + Filter(b, p)
    decreases |a|
  {
    if |a| > 0 {
      FilterAppend(a[1..], b, p);
      assert (a + b)[1..] == a[1..] + b;
    } else {
      assert a + b == b;
    }
  }

  /** Nothing is selected when no element satisfies the condition. */
  lemma {:induction false} FilterNone<T>(s: seq<T>, p: T -> bool)
    requires forall k :: 0 <= k < |s| ==> !p(s[k])
    ensures Filter(s, p) == []
    decreases |s|
  {
    if |s| > 0 {
      FilterNone(s[1..], p);
    }
  }

  lemma FilterNonEmpty<T>(s: seq<T>, p: T -> bool)
    ensures |Filter(s, p)| > 0 <==> exists j :: 0 <= j < |s| && p(s[j])
  {
    var r := Filter(s, p);
    if |r| > 0 {
      var j :| 0 <= j < |s| && s[j] == r[0];
    }
  }

  /** Selection keeps every occurrence of a selected value and none of the
      others. */
  lemma {:induction false} FilterCount<T>(s: seq<T>, p: T -> bool, x: T)
    ensures multiset(Filter(s, p))[x] == if p(x) then multiset(s)[x] else 0
    decreases |s|
  {
    if |s| > 0 {
      FilterCount(s[1..], p, x);
      assert s == [s[0]] + s[1..];
      assert multiset(s) == multiset{s[0]} + multiset(s[1..]);
      if p(s[0]) {
        assert multiset(Filter(s, p)) == multiset{s[0]} + multiset(Filter(s[1..], p));
      }
    }
  }

  function Min(a: int, b: int): int {
    if a < b then a else b
  }

  // ---------------------------------------------------------------------------
  // Duplicates

  ghost predicate NoDuplicates<T>(s: seq<T>) {
    forall i, j :: 0 <= i < j < |s| ==> s[i] != s[j]
  }

  /** The distinct elements of `s`, each at the place of its first occurrence.
      This is the model of `list(set(s))`, whose order Python leaves open. */
  function Dedupe<T(==)>(s: seq<T>): (r: seq<T>)
    ensures NoDuplicates(r)
    ensures forall i :: 0 <= i < |r| ==> r[i] in s
    ensures forall i :: 0 <= i < |s| ==> s[i] in r
    ensures |r| <= |s|
    decreases |s|
  {
    if |s| == 0 then []
    else
      var t := Dedupe(s[..|s| - 1]);
      var x := s[|s| - 1];
      assert forall i :: 0 <= i < |s| - 1 ==> s[i] == s[..|s| - 1][i];
      if x in t then t else t + [x]
  }

  /** A list without repetitions is left as it is. */
  lemma {:induction false} DedupeOfDistinct<T>(s: seq<T>)
    requires NoDuplicates(s)
    ensures Dedupe(s) == s
    decreases |s|
  {
    if |s| > 0 {
      var init := s[..|s| - 1];
      DedupeOfDistinct(init);
      assert s[|s| - 1] !in init;
      assert s == init + [s[|s| - 1]];
    }
  }

  /** Removing duplicates twice is the same as removing them once. */
  lemma DedupeIdempotent<T>(s: seq<T>)
    ensures Dedupe(Dedupe(s)) == Dedupe(s)
  {
    DedupeOfDistinct(Dedupe(s));
  }

  // ---------------------------------------------------------------------------
  // Insertion-ordered dictionaries

  type Dict<V> = seq<(string, V)>

  function KeysOf<V>(d: Dict<V>): set<string> {
    set i | 0 <= i < |d| :: d[i].0
  }

  predicate DistinctKeys<V>(d: Dict<V>) {
    forall i, j :: 0 <= i < j < |d| ==> d[i].0 != d[j].0
  }

  /** The position of key `k` in `d`, if any. */
  function IndexOf<V>(d: Dict<V>, k: string): (r: Option<nat>)
    ensures r.Some? ==> r.value < |d| && d[r.value].0 == k
    ensures r.None? ==> k !in KeysOf(d)
    decreases |d|
  {
    if |d| == 0 then None
    else if d[0].0 == k then Some(0)
    else
      var r := IndexOf(d[1..], k);
      assert r.None? ==> k !in KeysOf(d) by {
        if r.None? {
          forall i | 0 < i < |d| ensures d[i].0 != k {
            assert d[i] == d[1..][i - 1];
          }
        }
      }
      if r.Some? then Some(r.value + 1) else None
  }

  lemma KeysOfTail<V>(d: Dict<V>)
    requires |d| > 0
    ensures KeysOf(d) == {d[0].0} + KeysOf(d[1..])
  {
    assert forall i :: 0 < i < |d| ==> d[i] == d[1..][i - 1];
  }

  /** Two dictionaries with the same keys at the same places have the same key set. */
  lemma KeysOfSameKeys<V, W>(a: Dict<V>, b: Dict<W>)
    requires |a| == |b| && forall i :: 0 <= i < |a| ==> a[i].0 == b[i].0
    ensures KeysOf(a) == KeysOf(b)
  {
    forall x | x in KeysOf(a) ensures x in KeysOf(b) {
      var j :| 0 <= j < |a| && a[j].0 == x;
      assert b[j].0 == x;
    }
    forall x | x in KeysOf(b) ensures x in KeysOf(a) {
      var j :| 0 <= j < |b| && b[j].0 == x;
      assert a[j].0 == x;
    }
  }

  lemma KeysOfUpdate<V>(d: Dict<V>, i: nat, e: (string, V))
    requires i < |d| && d[i].0 == e.0
    ensures KeysOf(d[i := e]) == KeysOf(d)
  {
    var r := d[i := e];
    forall x | x in KeysOf(r) ensures x in KeysOf(d) {
      var j :| 0 <= j < |r| && r[j].0 == x;
      assert d[j].0 == x;
    }
    forall x | x in KeysOf(d) ensures x in KeysOf(r) {
      var j :| 0 <= j < |d| && d[j].0 == x;
      assert r[j].0 == x;
    }
  }

  lemma KeysOfAppend<V>(d: Dict<V>, e: (string, V))
    ensures KeysOf(d + [e]) == KeysOf(d) + {e.0}
  {
    var r := d + [e];
    forall x | x in KeysOf(r) ensures x in KeysOf(d) + {e.0} {
      var j :| 0 <= j < |r| && r[j].0 == x;
      if j < |d| { assert d[j].0 == x; }
    }
    forall x | x in KeysOf(d) ensures x in KeysOf(r) {
      var j :| 0 <= j < |d| && d[j].0 == x;
      assert r[j].0 == x;
    }
    assert r[|d|].0 == e.0;
  }

  /** `d[k] = v`: an existing key keeps its place and takes the new value, a
      new key goes last; no other entry changes. */
  function Put<V>(d: Dict<V>, k: string, v: V): (r: Dict<V>)
    ensures KeysOf(r) == KeysOf(d) + {k}
    ensures (k, v) in r
    ensures forall j :: 0 <= j < |r| ==> r[j] == (k, v) || (j < |d| && r[j] == d[j])
    ensures DistinctKeys(d) ==> DistinctKeys(r)
    ensures |r| == if k in KeysOf(d) then |d| else |d| + 1
  {
    match IndexOf(d, k)
    case Some(i) =>
      KeysOfUpdate(d, i, (k, v));
      var r := d[i := (k, v)];
      assert r[i] == (k, v);
      assert DistinctKeys(d) ==> forall j :: 0 <= j < |d| && j != i ==> d[j].0 != k;
      r
    case None =>
      KeysOfAppend(d, (k, v));
      var r := d + [(k, v)];
      assert r[|d|] == (k, v);
      assert forall j :: 0 <= j < |d| ==> d[j].0 in KeysOf(d);
      r
  }
}
