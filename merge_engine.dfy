/**
 The merge of the per-source results:
 `[...new Set(results.flat())].sort((a, b) => a - b)`.
 Numbers are mathematical integers, for which the comparator `a - b` is a
 consistent numeric order.
 */
module MergeEngine {

  predicate Sorted(s: seq<int>) {
    forall i, j :: 0 <= i < j < |s| ==> s[i] <= s[j]
  }

  predicate StrictlyIncreasing(s: seq<int>) {
    forall i, j :: 0 <= i < j < |s| ==> s[i] < s[j]
  }

  predicate Distinct(s: seq<int>) {
    forall i, j :: 0 <= i < j < |s| ==> s[i] != s[j]
  }

  /** `x` occurs in one of the per-source results. */
  predicate Contributed(results: seq<seq<int>>, x: int) {
    exists i :: 0 <= i < |results| && x in results[i]
  }

  /** `results.flat()`: the results one after another, in index order. */
  function Flatten(results: seq<seq<int>>): (r: seq<int>)
    ensures forall x :: x in r <==> Contributed(results, x)
  {
    if results == [] then []
    else
      var rest := Flatten(results[1..]);
      assert forall x :: Contributed(results, x) <==> x in results[0] || Contributed(results[1..], x) by {
        forall x ensures Contributed(results, x) <==> x in results[0] || Contributed(results[1..], x) {
          if Contributed(results, x) {
            var i :| 0 <= i < |results| && x in results[i];
            if i > 0 {
              assert x in results[1..][i - 1];
            }
          }
          if Contributed(results[1..], x) {
            var i :| 0 <= i < |results[1..]| && x in results[1..][i];
            assert x in results[i + 1];
          }
        }
      }
      results[0] + rest
  }

  /** Flattening one list gives that list, repeats and order included. */
  lemma FlattenSingle(s: seq<int>)
    ensures Flatten([s]) == s
  {
    assert [s][1..] == [];
    assert s + [] == s;
  }

  /** Flattening concatenated results concatenates their flattenings, in index order. */
  lemma {:induction false} FlattenConcat(p: seq<seq<int>>, q: seq<seq<int>>)
    ensures Flatten(p + q) == Flatten(p) + Flatten(q)
    decreases |p|
  {
    if p == [] {
      assert p + q == q;
    } else {
      assert (p + q)[0] == p[0];
      assert (p + q)[1..] == p[1..] + q;
      FlattenConcat(p[1..], q);
    }
  }

  /**
   `[...new Set(s)]`: each value once, at the place of its first occurrence.
   The values kept are exactly those of `s`.
   */
  function Dedup(s: seq<int>): (r: seq<int>)
    ensures Distinct(r)
    ensures forall x :: x in r <==> x in s
    ensures |r| <= |s|
  {
    if s == [] then []
    else
      var init := s[..|s| - 1];
      var last := s[|s| - 1];
      assert s == init + [last];
      var d := Dedup(init);
      if last in d then d else d + [last]
  }

  /** A lower bound of every element of a sorted sequence can be put in front of it. */
  lemma ConsSorted(h: int, s: seq<int>)
    requires Sorted(s)
    requires forall k :: 0 <= k < |s| ==> h <= s[k]
    ensures Sorted([h] + s)
  {
    var r := [h] + s;
    forall i, j | 0 <= i < j < |r| ensures r[i] <= r[j] {
      assert r[j] == s[j - 1];
      if i > 0 {
        assert r[i] == s[i - 1];
      }
    }
  }

  /** A bound on `t` and on `x` bounds every permutation of `t` plus `x`. */
  lemma BoundedByMultiset(h: int, r: seq<int>, t: seq<int>, x: int)
    requires multiset(r) == multiset(t) + multiset{x}
    requires h <= x
    requires forall k :: 0 <= k < |t| ==> h <= t[k]
    ensures forall k :: 0 <= k < |r| ==> h <= r[k]
  {
    forall k | 0 <= k < |r| ensures h <= r[k] {
      assert r[k] in multiset(r);
      if r[k] != x {
        assert r[k] in multiset(t);
        var m :| 0 <= m < |t| && t[m] == r[k];
      }
    }
  }

  /** Places `x` before the first element not below it. */
  function Insert(x: int, s: seq<int>): (r: seq<int>)
    requires Sorted(s)
    ensures Sorted(r)
    ensures multiset(r) == multiset(s) + multiset{x}
  {
    if s == [] || x <= s[0] then
      ConsSorted(x, s);
      [x] + s
    else
      var rest := Insert(x, s[1..]);
      assert s == [s[0]] + s[1..];
      BoundedByMultiset(s[0], rest, s[1..], x);
      ConsSorted(s[0], rest);
      [s[0]] + rest
  }

  /**
   `.sort((a, b) => a - b)`: an ascending permutation. Which algorithm the engine
   uses does not matter, as SortedPermutationUnique shows.
   */
  function Sort(s: seq<int>): (r: seq<int>)
    ensures Sorted(r)
    ensures multiset(r) == multiset(s)
  {
    if s == [] then []
    else
      assert s == [s[0]] + s[1..];
      Insert(s[0], Sort(s[1..]))
  }

  /** The head of a sorted sequence is its least element. */
  lemma SortedHeadIsLeast(a: seq<int>, y: int)
    requires Sorted(a) && y in multiset(a)
    ensures a[0] <= y
  {
    var k :| 0 <= k < |a| && a[k] == y;
  }

  lemma SortedTail(s: seq<int>)
    requires Sorted(s) && s != []
    ensures Sorted(s[1..])
  {
    forall i, j | 0 <= i < j < |s| - 1 ensures s[1..][i] <= s[1..][j] {
      assert s[1..][i] == s[i + 1] && s[1..][j] == s[j + 1];
    }
  }

  lemma TailMultiset(s: seq<int>)
    requires s != []
    ensures multiset(s[1..]) == multiset(s) - multiset{s[0]}
  {
    assert s == [s[0]] + s[1..];
  }

  /** An ascending permutation is unique: any correct sort returns Sort's result. */
  lemma {:induction false} SortedPermutationUnique(a: seq<int>, b: seq<int>)
    requires Sorted(a) && Sorted(b)
    requires multiset(a) == multiset(b)
    ensures a == b
    decreases |a|
  {
    if a == [] {
      assert |b| == |multiset(b)|;
    } else {
      assert b != [] by {
        assert |b| == |multiset(b)| == |multiset(a)| == |a|;
      }
      assert a[0] == b[0] by {
        SortedHeadIsLeast(a, b[0]);
        SortedHeadIsLeast(b, a[0]);
      }
      assert multiset(a[1..]) == multiset(b[1..]) by {
        TailMultiset(a);
        TailMultiset(b);
      }
      SortedTail(a);
      SortedTail(b);
      SortedPermutationUnique(a[1..], b[1..]);
      assert a == [a[0]] + a[1..] && b == [b[0]] + b[1..];
    }
  }

  /** Two strictly increasing sequences with the same values are equal. */
  lemma {:induction false} StrictlyIncreasingUnique(a: seq<int>, b: seq<int>)
    requires StrictlyIncreasing(a) && StrictlyIncreasing(b)
    requires forall x :: x in a <==> x in b
    ensures a == b
    decreases |a|
  {
    if a == [] {
      assert forall k :: 0 <= k < |b| ==> b[k] in b;
    } else {
      assert a[0] in a;
      assert a[0] in b;
      assert b != [];
      assert b[0] in a;
      assert a[0] == b[0];
      forall x ensures x in a[1..] <==> x in b[1..] {
        if x in a[1..] {
          var k :| 1 <= k < |a| && a[k] == x;
          assert x in b;
          assert x != b[0];
        }
        if x in b[1..] {
          var k :| 1 <= k < |b| && b[k] == x;
          assert x in a;
          assert x != a[0];
        }
      }
      StrictlyIncreasingUnique(a[1..], b[1..]);
    }
  }

  /** A value occurring twice in a sequence counts at least twice in its multiset. */
  lemma RepeatCounts(s: seq<int>, i: int, j: int)
    requires 0 <= i < j < |s| && s[i] == s[j]
    ensures multiset(s)[s[i]] >= 2
  {
    assert s == s[..j] + [s[j]] + s[j + 1..];
    assert s[i] == s[..j][i];
  }

  lemma {:induction false} DistinctCounts(s: seq<int>, x: int)
    requires Distinct(s)
    ensures multiset(s)[x] <= 1
    decreases |s|
  {
    if s != [] {
      assert s == s[..|s| - 1] + [s[|s| - 1]];
      DistinctCounts(s[..|s| - 1], x);
      if x == s[|s| - 1] {
        assert x !in s[..|s| - 1];
      }
    }
  }

  /** Sorting a sequence without repeats gives a strictly increasing one. */
  lemma SortedDistinctIsStrict(s: seq<int>, r: seq<int>)
    requires Distinct(s) && Sorted(r) && multiset(r) == multiset(s)
    ensures StrictlyIncreasing(r)
  {
    forall i, j | 0 <= i < j < |r| ensures r[i] < r[j] {
      if r[i] == r[j] {
        RepeatCounts(r, i, j);
        DistinctCounts(s, r[i]);
      }
    }
  }

  /**
   The merged response: strictly ascending, hence sorted and free of duplicates,
   and holding exactly the values some source contributed.
   */
  function Merge(results: seq<seq<int>>): (r: seq<int>)
    ensures StrictlyIncreasing(r)
    ensures forall x :: x in r <==> Contributed(results, x)
  {
    var unique := Dedup(Flatten(results));
    var r := Sort(unique);
    SortedDistinctIsStrict(unique, r);
    assert forall x :: x in r <==> x in multiset(unique);
    r
  }

  lemma ContributedSingle(s: seq<int>, x: int)
    ensures Contributed([s], x) <==> x in s
  {
    assert [s][0] == s;
  }

  /** The merge depends on nothing but which values were contributed. */
  lemma MergeDependsOnlyOnValues(results: seq<seq<int>>, results': seq<seq<int>>)
    requires forall x :: Contributed(results, x) <==> Contributed(results', x)
    ensures Merge(results) == Merge(results')
  {
    StrictlyIncreasingUnique(Merge(results), Merge(results'));
  }

  /** Reordering the per-source results leaves the merge unchanged. */
  lemma MergeOrderIndependent(results: seq<seq<int>>, results': seq<seq<int>>)
    requires multiset(results) == multiset(results')
    ensures Merge(results) == Merge(results')
  {
    forall x ensures Contributed(results, x) ==> Contributed(results', x) {
      if Contributed(results, x) {
        var i :| 0 <= i < |results| && x in results[i];
        assert results[i] in multiset(results');
        var j :| 0 <= j < |results'| && results'[j] == results[i];
      }
    }
    forall x ensures Contributed(results', x) ==> Contributed(results, x) {
      if Contributed(results', x) {
        var j :| 0 <= j < |results'| && x in results'[j];
        assert results'[j] in multiset(results);
        var i :| 0 <= i < |results| && results[i] == results'[j];
      }
    }
    MergeDependsOnlyOnValues(results, results');
  }

  /** Repeats inside a source's list, or dropping them, leave the merge unchanged. */
  lemma MergeIgnoresRepeats(results: seq<seq<int>>, results': seq<seq<int>>)
    requires |results| == |results'|
    requires forall i, x :: 0 <= i < |results| ==> (x in results[i] <==> x in results'[i])
    ensures Merge(results) == Merge(results')
  {
    forall x ensures Contributed(results, x) <==> Contributed(results', x) {
      if Contributed(results, x) {
        var i :| 0 <= i < |results| && x in results[i];
        assert x in results'[i];
      }
      if Contributed(results', x) {
        var i :| 0 <= i < |results'| && x in results'[i];
        assert x in results[i];
      }
    }
    MergeDependsOnlyOnValues(results, results');
  }

  /** When no source contributes a value (every source failed, say) the merge is empty. */
  lemma MergeAllEmpty(results: seq<seq<int>>)
    requires forall i :: 0 <= i < |results| ==> results[i] == []
    ensures Merge(results) == []
  {
    MergeDependsOnlyOnValues(results, []);
  }

  /** A list that is already strictly increasing is its own merge. */
  lemma MergeOfStrictlyIncreasing(s: seq<int>)
    requires StrictlyIncreasing(s)
    ensures Merge([s]) == s
  {
    forall x ensures x in Merge([s]) <==> x in s {
      ContributedSingle(s, x);
    }
    StrictlyIncreasingUnique(Merge([s]), s);
  }

  /** Merging is idempotent: merging the merged output alone returns it unchanged. */
  lemma MergeIdempotent(results: seq<seq<int>>)
    ensures Merge([Merge(results)]) == Merge(results)
  {
    MergeOfStrictlyIncreasing(Merge(results));
  }

  /** Duplicates across sources are merged and the values are put in numeric order. */
  lemma MergeExample(results: seq<seq<int>>, expected: seq<int>)
    requires results == [[3, 1, 2], [2, 5]]
    requires expected == [1, 2, 3, 5]
    ensures Merge(results) == expected
  {
    assert forall x :: Contributed(results, x) <==> Contributed([expected], x) by {
      forall x ensures Contributed(results, x) <==> Contributed([expected], x) {
        assert Contributed(results, x) <==> x in results[0] || x in results[1];
        assert x in results[0] || x in results[1] <==> x in expected;
        ContributedSingle(expected, x);
      }
    }
    MergeOfStrictlyIncreasing(expected);
    MergeDependsOnlyOnValues(results, [expected]);
  }

  /** Repeats within a source and across sources collapse, and an empty source adds nothing. */
  lemma MergeWithEmptySourceExample(results: seq<seq<int>>, expected: seq<int>)
    requires results == [[1, 2, 2], [], [2, 3]]
    requires expected == [1, 2, 3]
    ensures Merge(results) == expected
  {
    assert forall x :: Contributed(results, x) <==> Contributed([expected], x) by {
      forall x ensures Contributed(results, x) <==> Contributed([expected], x) {
        assert Contributed(results, x) <==> x in results[0] || x in results[1] || x in results[2];
        assert x in results[0] || x in results[1] || x in results[2] <==> x in expected;
        ContributedSingle(expected, x);
      }
    }
    MergeOfStrictlyIncreasing(expected);
    MergeDependsOnlyOnValues(results, [expected]);
  }
}
