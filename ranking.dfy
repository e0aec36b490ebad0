/** The ranking in feature_importance_plot: `np.argsort(importances)[::-1]`
    orders the feature positions by descending importance, and the column
    names are read in that order. The argsort is not stable, so nothing is
    promised about the order of equal scores. */
module Ranking {
  import opened Table

  ghost predicate InRange(positions: seq<nat>, n: nat)
  {
    forall k | 0 <= k < |positions| :: positions[k] < n
  }

  /** The scores read along the positions do not decrease. */
  ghost predicate Ascending(scores: seq<real>, positions: seq<nat>)
    requires InRange(positions, |scores|)
  {
    forall a, b | 0 <= a < b < |positions| :: scores[positions[a]] <= scores[positions[b]]
  }

  /** The scores read along the positions do not increase. */
  ghost predicate Descending(scores: seq<real>, positions: seq<nat>)
    requires InRange(positions, |scores|)
  {
    forall a, b | 0 <= a < b < |positions| :: scores[positions[a]] >= scores[positions[b]]
  }

  /** No score read along the positions is below lo. */
  ghost predicate LowerBound(scores: seq<real>, lo: real, positions: seq<nat>)
    requires InRange(positions, |scores|)
  {
    forall k | 0 <= k < |positions| :: lo <= scores[positions[k]]
  }

  /** Inserts position p in front of the first position whose score is at
      least p's. */
  function Insert(scores: seq<real>, p: nat, sorted: seq<nat>): (r: seq<nat>)
    requires p < |scores| && InRange(sorted, |scores|)
    ensures |r| == |sorted| + 1 && InRange(r, |scores|)
    ensures multiset(r) == multiset(sorted) + multiset{p}
  {
    if sorted == [] || scores[p] <= scores[sorted[0]] then
      [p] + sorted
    else
      assert sorted == [sorted[0]] + sorted[1..];
      [sorted[0]] + Insert(scores, p, sorted[1..])
  }

  /** Inserting into an ascending list keeps it ascending, and keeps every
      lower bound that p also respects. */
  lemma {:induction false} InsertSorted(scores: seq<real>, p: nat, sorted: seq<nat>, lo: real)
    requires p < |scores| && InRange(sorted, |scores|) && Ascending(scores, sorted)
    ensures Ascending(scores, Insert(scores, p, sorted))
    ensures lo <= scores[p] && LowerBound(scores, lo, sorted) ==>
      LowerBound(scores, lo, Insert(scores, p, sorted))
  {
    var r := Insert(scores, p, sorted);
    if sorted == [] || scores[p] <= scores[sorted[0]] {
      assert r == [p] + sorted;
    } else {
      var tail := sorted[1..];
      assert forall k | 0 <= k < |tail| :: tail[k] == sorted[k + 1];
      InsertSorted(scores, p, tail, lo);
      InsertSorted(scores, p, tail, scores[sorted[0]]);
      var rest := Insert(scores, p, tail);
      assert r == [sorted[0]] + rest;
      assert LowerBound(scores, scores[sorted[0]], rest);
      forall a, b | 0 <= a < b < |r| ensures scores[r[a]] <= scores[r[b]] {
        if a > 0 {
          assert r[a] == rest[a - 1] && r[b] == rest[b - 1];
        } else {
          assert r[b] == rest[b - 1];
        }
      }
    }
  }

  /** The positions 0 .. n-1 ordered by ascending score. */
  function ArgSortPrefix(scores: seq<real>, n: nat): (r: seq<nat>)
    requires n <= |scores|
    ensures |r| == n && InRange(r, |scores|)
    ensures multiset(r) == multiset(Range(n))
    ensures Ascending(scores, r)
  {
    if n == 0 then []
    else
      assert Range(n) == Range(n - 1) + [n - 1];
      var sorted := ArgSortPrefix(scores, n - 1);
      InsertSorted(scores, n - 1, sorted, 0.0);
      Insert(scores, n - 1, sorted)
  }

  /** `np.argsort(scores)`: every position once, by ascending score. */
  function ArgSort(scores: seq<real>): (r: seq<nat>)
    ensures |r| == |scores| && InRange(r, |scores|)
    ensures multiset(r) == multiset(Range(|scores|))
    ensures Ascending(scores, r)
  {
    ArgSortPrefix(scores, |scores|)
  }

  /** `s[::-1]`. */
  function Reversed(s: seq<nat>): (r: seq<nat>)
    ensures |r| == |s|
    ensures forall k | 0 <= k < |s| :: r[k] == s[|s| - 1 - k]
    ensures multiset(r) == multiset(s)
  {
    if s == [] then [] else
      assert s == [s[0]] + s[1..];
      Reversed(s[1..]) + [s[0]]
  }

  lemma ReversedDescending(scores: seq<real>, s: seq<nat>)
    requires InRange(s, |scores|) && Ascending(scores, s)
    ensures InRange(Reversed(s), |scores|) && Descending(scores, Reversed(s))
  {
    var r := Reversed(s);
    var n := |s|;
    forall a, b | 0 <= a < b < n ensures scores[r[a]] >= scores[r[b]] {
      assert r[a] == s[n - 1 - a] && r[b] == s[n - 1 - b];
    }
  }

  lemma CancelOne(x: multiset<nat>, y: multiset<nat>, e: nat)
    requires x + multiset{e} == y + multiset{e}
    ensures x == y
  {
    assert forall v :: x[v] == (x + multiset{e})[v] - multiset{e}[v];
    assert forall v :: y[v] == (y + multiset{e})[v] - multiset{e}[v];
  }

  /** A position at which v occurs in b. */
  function IndexOf(b: seq<nat>, v: nat): (j: nat)
    requires v in b
    ensures j < |b| && b[j] == v
  {
    if b[0] == v then 0 else 1 + IndexOf(b[1..], v)
  }

  /** b with the entry at position j taken out. */
  function Without(b: seq<nat>, j: nat): (r: seq<nat>)
    requires j < |b|
    ensures |r| == |b| - 1
    ensures forall k | 0 <= k < |r| :: r[k] == if k < j then b[k] else b[k + 1]
    ensures multiset(b) == multiset(r) + multiset{b[j]}
  {
    assert b == b[..j] + [b[j]] + b[j + 1..];
    b[..j] + b[j + 1..]
  }

  lemma PickSplit<T>(s: seq<T>, b: seq<nat>, j: nat)
    requires InRange(b, |s|) && j < |b|
    ensures Pick(s, b) == Pick(s, b[..j]) + [s[b[j]]] + Pick(s, b[j + 1..])
  {
    var r := Pick(s, b[..j]) + [s[b[j]]] + Pick(s, b[j + 1..]);
    forall k | 0 <= k < |b| ensures Pick(s, b)[k] == r[k] {
      if k > j {
        assert b[j + 1..][k - j - 1] == b[k];
      }
    }
  }

  lemma PickWithoutSplit<T>(s: seq<T>, b: seq<nat>, j: nat)
    requires InRange(b, |s|) && j < |b|
    ensures InRange(Without(b, j), |s|)
    ensures Pick(s, Without(b, j)) == Pick(s, b[..j]) + Pick(s, b[j + 1..])
  {
    var r := Pick(s, b[..j]) + Pick(s, b[j + 1..]);
    forall k | 0 <= k < |b| - 1 ensures Pick(s, Without(b, j))[k] == r[k] {
      if k >= j {
        assert b[j + 1..][k - j] == b[k + 1];
      }
    }
  }

  /** Reading s along b with position j taken out misses just one copy of
      s[b[j]]. */
  lemma PickWithout<T>(s: seq<T>, b: seq<nat>, j: nat)
    requires InRange(b, |s|) && j < |b|
    ensures InRange(Without(b, j), |s|)
    ensures multiset(Pick(s, b)) == multiset(Pick(s, Without(b, j))) + multiset{s[b[j]]}
  {
    PickSplit(s, b, j);
    PickWithoutSplit(s, b, j);
  }

  /** Reading s along two lists of positions that are permutations of each
      other gives two permutations of the same elements. */
  lemma {:induction false} PickPermutation<T>(s: seq<T>, a: seq<nat>, b: seq<nat>)
    requires InRange(a, |s|) && InRange(b, |s|)
    requires multiset(a) == multiset(b)
    ensures multiset(Pick(s, a)) == multiset(Pick(s, b))
    decreases |a|
  {
    if a != [] {
      assert a[0] in b by {
        assert a[0] in multiset(a);
      }
      var j := IndexOf(b, a[0]);
      var a' := Without(a, 0);
      var b' := Without(b, j);
      CancelOne(multiset(a'), multiset(b'), a[0]);
      PickWithout(s, a, 0);
      PickWithout(s, b, j);
      PickPermutation(s, a', b');
    }
  }

  /** `indices = np.argsort(importances)[::-1]`: a permutation of the
      feature positions along which the importances do not increase. */
  function RankIndices(importances: seq<real>): (r: seq<nat>)
    ensures |r| == |importances| && InRange(r, |importances|)
    ensures multiset(r) == multiset(Range(|importances|))
    ensures Descending(importances, r)
  {
    ReversedDescending(importances, ArgSort(importances));
    Reversed(ArgSort(importances))
  }

  /** `names = [x_data.columns[i] for i in indices]`: the feature names read
      along the ranked positions, each name as often as it is a column. */
  function RankNames(columns: seq<string>, importances: seq<real>): (r: seq<string>)
    requires |columns| == |importances|
    ensures |r| == |columns|
    ensures forall k | 0 <= k < |columns| :: r[k] == columns[RankIndices(importances)[k]]
    ensures multiset(r) == multiset(columns)
  {
    var indices := RankIndices(importances);
    PickPermutation(columns, indices, Range(|columns|));
    PickRange(columns);
    Pick(columns, indices)
  }

  /** Reading s along 0 .. |s|-1 gives s back. */
  lemma PickRange<T>(s: seq<T>)
    ensures Pick(s, Range(|s|)) == s
  {
  }
}
