/** The greedy nearest-neighbour ordering that opens `sort_colors`: starting at
    entry 0, repeatedly step to the closest entry not yet visited. The perceptual
    distance between entries `i` and `j` is a parameter `dist(i, j)`. */
module Greedy {

  import opened Wrappers

  /** Distance between two entries, by index. */
  type Dist = (nat, nat) -> real

  /** The scan of the inner loop over indices 0..i-1: an unvisited index
      replaces the best so far only when it is strictly closer to `cur`. */
  function ScanNearest(cur: nat, i: nat, path: seq<nat>, dist: Dist): Option<nat>
    decreases i
  {
    if i == 0 then None
    else
      var best := ScanNearest(cur, i - 1, path, dist);
      if i - 1 in path then best
      else if best.None? || dist(cur, i - 1) < dist(cur, best.value) then Some(i - 1)
      else best
  }

  /** The scan finds something exactly when some index below i is unvisited, and
      then it is the lowest-index unvisited entry at minimum distance from `cur`. */
  lemma {:induction false} ScanNearestCorrect(cur: nat, i: nat, path: seq<nat>, dist: Dist)
    ensures var r := ScanNearest(cur, i, path, dist);
      && (r.None? <==> forall j :: 0 <= j < i ==> j in path)
      && (r.Some? ==> r.value < i && r.value !in path)
      && (r.Some? ==> forall j :: 0 <= j < i && j !in path ==> dist(cur, r.value) <= dist(cur, j))
      && (r.Some? ==> forall j :: 0 <= j < r.value && j !in path ==> dist(cur, r.value) < dist(cur, j))
    decreases i
  {
    if i > 0 {
      ScanNearestCorrect(cur, i - 1, path, dist);
    }
  }

  /** One round of the outer loop on a non-empty path whose last entry is the
      current point: append the nearest unvisited index, or leave the path as
      it is when there is none (the source's `if let Some`). */
  function GreedyRound(n: nat, dist: Dist, path: seq<nat>): (r: seq<nat>)
    requires |path| >= 1
    ensures |r| >= 1
  {
    match ScanNearest(path[|path| - 1], n, path, dist)
    case None => path
    case Some(j) => path + [j]
  }

  /** The path after k rounds, starting from [0]. */
  function GreedyRounds(n: nat, dist: Dist, k: nat): (r: seq<nat>)
    ensures |r| >= 1
  {
    if k == 0 then [0] else GreedyRound(n, dist, GreedyRounds(n, dist, k - 1))
  }

  /** The path the source builds for `n` entries: n - 1 rounds from [0]. */
  function GreedyOrder(n: nat, dist: Dist): seq<nat>
    requires n >= 1
  {
    GreedyRounds(n, dist, n - 1)
  }

  /** Every index below n appears exactly once. */
  ghost predicate IsPermutationOfRange(p: seq<nat>, n: nat) {
    && |p| == n
    && (forall k :: 0 <= k < |p| ==> p[k] < n)
    && (forall a, b :: 0 <= a < b < |p| ==> p[a] != p[b])
  }

  /** Step k of a path is greedy: p[k] was not visited before, is at minimum
      distance from p[k-1] among the unvisited, and no lower unvisited index is
      as close. */
  ghost predicate IsGreedyStep(p: seq<nat>, k: nat, n: nat, dist: Dist)
    requires 1 <= k < |p|
  {
    && p[k] !in p[..k]
    && (forall j :: 0 <= j < n && j !in p[..k] ==> dist(p[k - 1], p[k]) <= dist(p[k - 1], j))
    && (forall j :: 0 <= j < p[k] && j !in p[..k] ==> dist(p[k - 1], p[k]) < dist(p[k - 1], j))
  }

  /** The declarative description of the greedy path over n entries. */
  ghost predicate IsGreedyPath(p: seq<nat>, n: nat, dist: Dist) {
    && |p| == n
    && n >= 1
    && p[0] == 0
    && (forall k :: 0 <= k < n ==> p[k] < n)
    && (forall k :: 1 <= k < n ==> IsGreedyStep(p, k, n, dist))
  }

  /** A path of distinct indices below n that is shorter than n leaves an index
      unvisited; one of length n visits them all. */
  lemma {:induction false} Pigeonhole(p: seq<nat>, n: nat)
    requires |p| == n
    requires forall k :: 0 <= k < |p| ==> p[k] < n
    requires forall a, b :: 0 <= a < b < |p| ==> p[a] != p[b]
    ensures forall j :: 0 <= j < n ==> j in p
    decreases n
  {
    if n > 0 {
      // rename n - 1 to the last entry's value among the first n - 1 entries
      var x := p[n - 1];
      var q := seq(n - 1, k requires 0 <= k < n - 1 => if p[k] == n - 1 then x else p[k]);
      forall a, b | 0 <= a < b < |q| ensures q[a] != q[b] {
        assert p[a] != p[b] && p[a] != x && p[b] != x;
      }
      forall k | 0 <= k < |q| ensures q[k] < n - 1 {
        assert p[k] != x;
      }
      Pigeonhole(q, n - 1);
      forall j | 0 <= j < n ensures j in p {
        if j == x {
          assert p[n - 1] == j;
        } else if j < n - 1 {
          assert j in q;
          var k :| 0 <= k < |q| && q[k] == j;
          assert p[k] == j;
        } else {
          assert x in q;
          var k :| 0 <= k < |q| && q[k] == x;
          assert p[k] != x;
          assert p[k] == j;
        }
      }
    }
  }

  /** The invariant of the outer loop: a greedy prefix of distinct indices. */
  ghost predicate IsGreedyPrefix(p: seq<nat>, n: nat, dist: Dist) {
    && 1 <= |p| <= n
    && p[0] == 0
    && (forall k :: 0 <= k < |p| ==> p[k] < n)
    && (forall k :: 1 <= k < |p| ==> IsGreedyStep(p, k, n, dist))
  }

  lemma GreedyPrefixDistinct(p: seq<nat>, n: nat, dist: Dist)
    requires IsGreedyPrefix(p, n, dist)
    ensures forall a, b :: 0 <= a < b < |p| ==> p[a] != p[b]
  {
    forall a, b | 0 <= a < b < |p| ensures p[a] != p[b] {
      assert IsGreedyStep(p, b, n, dist);
      assert p[a] in p[..b];
    }
  }

  /** A round on a greedy prefix of fewer than n entries finds an unvisited
      index and appends it, so the prefix stays greedy and grows by one. */
  lemma RoundExtendsPrefix(n: nat, dist: Dist, path: seq<nat>)
    requires IsGreedyPrefix(path, n, dist) && |path| < n
    ensures IsGreedyPrefix(GreedyRound(n, dist, path), n, dist)
    ensures |GreedyRound(n, dist, path)| == |path| + 1
  {
    GreedyPrefixDistinct(path, n, dist);
    var r := ScanNearest(path[|path| - 1], n, path, dist);
    ScanNearestCorrect(path[|path| - 1], n, path, dist);
    if r.None? {
      CoverNeedsLength(path, n);
      assert false;
    } else {
      var next := path + [r.value];
      assert next[..|path|] == path;
      forall k | 1 <= k < |next| ensures IsGreedyStep(next, k, n, dist) {
        if k < |path| {
          assert next[..k] == path[..k];
          assert IsGreedyStep(path, k, n, dist);
        }
      }
    }
  }

  /** After k < n rounds the path is a greedy prefix of k + 1 entries. */
  lemma {:induction false} RoundsArePrefix(n: nat, dist: Dist, k: nat)
    requires k < n
    ensures IsGreedyPrefix(GreedyRounds(n, dist, k), n, dist)
    ensures |GreedyRounds(n, dist, k)| == k + 1
  {
    if k > 0 {
      RoundsArePrefix(n, dist, k - 1);
      RoundExtendsPrefix(n, dist, GreedyRounds(n, dist, k - 1));
    }
  }

  /** Covering every index below n takes at least n distinct entries. */
  lemma {:induction false} CoverNeedsLength(p: seq<nat>, n: nat)
    requires forall j :: 0 <= j < n ==> j in p
    requires forall a, b :: 0 <= a < b < |p| ==> p[a] != p[b]
    ensures |p| >= n
  {
    if n > 0 {
      assert n - 1 in p;
      var m :| 0 <= m < |p| && p[m] == n - 1;
      var q := p[..m] + p[m + 1..];
      assert forall k :: 0 <= k < |q| ==> q[k] == (if k < m then p[k] else p[k + 1]);
      forall j | 0 <= j < n - 1 ensures j in q {
        assert j in p;
        var k :| 0 <= k < |p| && p[k] == j;
        assert q[if k < m then k else k - 1] == j;
      }
      CoverNeedsLength(q, n - 1);
    }
  }

  /** The path built for n >= 1 entries is greedy at every step. */
  lemma GreedyOrderIsGreedy(n: nat, dist: Dist)
    requires n >= 1
    ensures IsGreedyPath(GreedyOrder(n, dist), n, dist)
  {
    RoundsArePrefix(n, dist, n - 1);
  }

  /** A greedy path visits every entry exactly once, starting from entry 0. */
  lemma GreedyPathIsPermutation(p: seq<nat>, n: nat, dist: Dist)
    requires IsGreedyPath(p, n, dist)
    ensures IsPermutationOfRange(p, n) && p[0] == 0
    ensures forall j :: 0 <= j < n ==> j in p
  {
    GreedyPrefixDistinct(p, n, dist);
    Pigeonhole(p, n);
  }

  /** The greedy description leaves no choice: two greedy paths over the same
      entries and distances are equal (the tie-break makes the order deterministic). */
  lemma GreedyPathUnique(p: seq<nat>, q: seq<nat>, n: nat, dist: Dist)
    requires IsGreedyPath(p, n, dist) && IsGreedyPath(q, n, dist)
    ensures p == q
  {
    var k := 1;
    while k < n
      invariant 1 <= k <= n
      invariant p[..k] == q[..k]
    {
      assert IsGreedyStep(p, k, n, dist) && IsGreedyStep(q, k, n, dist);
      assert p[k - 1] == q[k - 1];
      assert p[k] == q[k];
      assert p[..k + 1] == p[..k] + [p[k]] && q[..k + 1] == q[..k] + [q[k]];
      k := k + 1;
    }
    assert p == p[..n] && q == q[..n];
  }

  /** The inner loop of `sort_colors`: the closest unvisited index to `current`
      with its distance, the first such index on a tie; None when every index
      has been visited. */
  method NearestUnvisited(current: nat, visited: array<bool>, ghost path: seq<nat>, dist: Dist)
    returns (nearest: Option<(nat, real)>)
    requires forall j :: 0 <= j < visited.Length ==> (visited[j] <==> j in path)
    ensures nearest.None? <==> ScanNearest(current, visited.Length, path, dist).None?
    ensures nearest.Some? ==> nearest.value.0 == ScanNearest(current, visited.Length, path, dist).value
    ensures nearest.Some? ==> nearest.value.0 < visited.Length
    ensures nearest.Some? ==> nearest.value.1 == dist(current, nearest.value.0)
  {
    nearest := None;
    for i := 0 to visited.Length
      invariant nearest.None? <==> ScanNearest(current, i, path, dist).None?
      invariant nearest.Some? ==> nearest.value.0 == ScanNearest(current, i, path, dist).value
      invariant nearest.Some? ==> nearest.value.0 < i
      invariant nearest.Some? ==> nearest.value.1 == dist(current, nearest.value.0)
    {
      if visited[i] {
        continue;
      }
      var d := dist(current, i);
      if nearest.None? || d < nearest.value.1 {
        nearest := Some((i, d));
      }
    }
  }

  /** The first half of `sort_colors`: `path` starts at [0], `visited` marks the
      entries on it, and each of the n - 1 rounds scans every index for the
      closest unvisited one, replacing the best so far only on a strictly
      smaller distance. */
  method GreedyPath(n: nat, dist: Dist) returns (path: seq<nat>)
    requires n >= 1
    ensures path == GreedyOrder(n, dist)
  {
    path := [0];
    var visited := new bool[n](_ => false);
    visited[0] := true;
    var current := 0;
    for round := 1 to n
      invariant path == GreedyRounds(n, dist, round - 1)
      invariant current == path[|path| - 1]
      invariant forall j :: 0 <= j < n ==> (visited[j] <==> j in path)
    {
      var nearest := NearestUnvisited(current, visited, path, dist);
      if nearest.Some? {
        var next := nearest.value.0;
        visited[next] := true;
        path := path + [next];
        current := next;
      }
    }
  }
}
