/**
 * Paths through an adjacency matrix, the vocabulary in which the graph queries are specified.
 * A matrix is a sequence of rows; cell (a, b) holds the weight of the arc from vertex a to
 * vertex b, and 0 means there is no arc. Vertices here are the 0-based internal indices.
 */
module Paths {

  type Matrix = seq<seq<int>>

  /** `m` is an n-by-n matrix. */
  ghost predicate IsMatrix(m: Matrix, n: int)
  {
    n >= 0 && |m| == n && forall a :: 0 <= a < n ==> |m[a]| == n
  }

  /** No cell is negative, so every arc that exists has a positive weight. */
  ghost predicate NonNegative(m: Matrix)
  {
    forall a, b :: 0 <= a < |m| && 0 <= b < |m[a]| ==> m[a][b] >= 0
  }

  /** Cell (a, b), or 0 outside the matrix. */
  function Cell(m: Matrix, a: int, b: int): int
  {
    if 0 <= a < |m| && 0 <= b < |m[a]| then m[a][b] else 0
  }

  /** There is an arc from a to b: the cell is inside the matrix and nonzero. */
  ghost predicate Edge(m: Matrix, a: int, b: int)
  {
    0 <= a < |m| && 0 <= b < |m| && b < |m[a]| && m[a][b] != 0
  }

  /** `p` is a non-empty walk of vertices in which each consecutive pair is an arc. */
  ghost predicate IsPath(m: Matrix, p: seq<int>)
  {
    && |p| >= 1
    && (forall k :: 0 <= k < |p| ==> 0 <= p[k] < |m|)
    && (forall k :: 0 <= k < |p| - 1 ==> Edge(m, p[k], p[k + 1]))
  }

  /** `p` is a path from s to t. */
  ghost predicate PathFromTo(m: Matrix, p: seq<int>, s: int, t: int)
  {
    IsPath(m, p) && p[0] == s && p[|p| - 1] == t
  }

  /** Some path leads from s to t (every vertex reaches itself by the one-vertex path). */
  ghost predicate Reachable(m: Matrix, s: int, t: int)
  {
    exists p :: PathFromTo(m, p, s, t)
  }

  /** The sum of the weights of the arcs along `p`. */
  function Weight(m: Matrix, p: seq<int>): int
    decreases |p|
  {
    if |p| <= 1 then 0 else Weight(m, p[..|p| - 1]) + Cell(m, p[|p| - 2], p[|p| - 1])
  }

  /** Some path from s to t weighs less than `bound`. */
  ghost predicate ReachableBelow(m: Matrix, s: int, t: int, bound: int)
  {
    exists p :: PathFromTo(m, p, s, t) && Weight(m, p) < bound
  }

  /** `p` is a path from s to t with as few vertices as any path from s to t. */
  ghost predicate FewestHops(m: Matrix, p: seq<int>, s: int, t: int)
  {
    PathFromTo(m, p, s, t) && forall q :: PathFromTo(m, q, s, t) ==> |p| <= |q|
  }

  /** `p` is a path from s to t that weighs no more than any path from s to t. */
  ghost predicate Lightest(m: Matrix, p: seq<int>, s: int, t: int)
  {
    PathFromTo(m, p, s, t) && forall q :: PathFromTo(m, q, s, t) ==> Weight(m, p) <= Weight(m, q)
  }

  /** No vertex occurs twice in `p`. */
  ghost predicate Distinct(p: seq<int>)
  {
    forall i, j :: 0 <= i < j < |p| ==> p[i] != p[j]
  }

  /** The internal indices of a path of public 1-based vertex numbers. */
  function ZeroBased(r: seq<int>): (q: seq<int>)
    ensures |q| == |r| && forall k :: 0 <= k < |r| ==> q[k] == r[k] - 1
  {
    seq(|r|, k requires 0 <= k < |r| => r[k] - 1)
  }

  /** Prepending a vertex to a path adds the weight of the arc into its first vertex. */
  lemma {:induction false} WeightPrepend(m: Matrix, a: int, q: seq<int>)
    requires |q| >= 1
    ensures Weight(m, [a] + q) == Cell(m, a, q[0]) + Weight(m, q)
    decreases |q|
  {
    var p := [a] + q;
    if |q| > 1 {
      assert p[..|p| - 1] == [a] + q[..|q| - 1];
      WeightPrepend(m, a, q[..|q| - 1]);
    }
  }

  /** With no negative cell, a path weighs at least as much as any of its prefixes. */
  lemma {:induction false} WeightPrefix(m: Matrix, p: seq<int>, j: int)
    requires NonNegative(m) && IsPath(m, p)
    requires 1 <= j <= |p|
    ensures 0 <= Weight(m, p[..j]) <= Weight(m, p)
    decreases |p|
  {
    if |p| > 1 {
      var p' := p[..|p| - 1];
      assert Cell(m, p[|p| - 2], p[|p| - 1]) >= 0;
      if j == |p| {
        assert p[..j] == p;
        WeightPrefix(m, p', j - 1);
      } else {
        assert p[..j] == p'[..j];
        WeightPrefix(m, p', j);
      }
    } else {
      assert p[..j] == p;
    }
  }

  /** Following one more arc from the end of a path to t gives a path to t. */
  lemma ReachStep(m: Matrix, s: int, x: int, t: int)
    requires Reachable(m, s, x) && Edge(m, x, t)
    ensures Reachable(m, s, t)
  {
    var p :| PathFromTo(m, p, s, x);
    assert PathFromTo(m, p + [t], s, t);
  }

  /**
   * A set of vertices that holds s and is closed under arcs holds every vertex reachable
   * from s: a path that ends outside it must leave it along some arc.
   */
  lemma {:induction false} ClosedSetHoldsReach(m: Matrix, s: int, S: set<int>, p: seq<int>)
    requires s in S
    requires forall x, y :: x in S && Edge(m, x, y) ==> y in S
    requires IsPath(m, p) && p[0] == s
    ensures p[|p| - 1] in S
    decreases |p|
  {
    if |p| > 1 {
      ClosedSetHoldsReach(m, s, S, p[..|p| - 1]);
      assert Edge(m, p[|p| - 2], p[|p| - 1]);
    }
  }

  /** No path leads from s out of a set that holds s and is closed under arcs. */
  lemma ClosedSetUnreachable(m: Matrix, s: int, S: set<int>, t: int)
    requires s in S && t !in S
    requires forall x, y :: x in S && Edge(m, x, y) ==> y in S
    ensures !Reachable(m, s, t)
  {
    forall p | PathFromTo(m, p, s, t) ensures false {
      ClosedSetHoldsReach(m, s, S, p);
    }
  }

  /**
   * A path in which some vertex occurs twice can be shortened: cutting out the loop between
   * the two occurrences leaves a path with the same ends and fewer vertices.
   */
  lemma CutLoop(m: Matrix, p: seq<int>, i: int, j: int) returns (q: seq<int>)
    requires IsPath(m, p) && 0 <= i < j < |p| && p[i] == p[j]
    ensures PathFromTo(m, q, p[0], p[|p| - 1]) && |q| < |p| && q == p[..i] + p[j..]
  {
    q := p[..i] + p[j..];
    assert |q| == |p| - (j - i);
    forall k | 0 <= k < |q| - 1 ensures Edge(m, q[k], q[k + 1]) {
      if k < i - 1 {
        assert q[k] == p[k] && q[k + 1] == p[k + 1];
      } else if k == i - 1 {
        assert q[k] == p[i - 1] && q[k + 1] == p[j] == p[i];
      } else {
        assert q[k] == p[k + j - i] && q[k + 1] == p[k + 1 + j - i];
      }
    }
    if i == 0 {
      assert q[0] == p[j] == p[0];
    }
  }

  /** A path with the fewest vertices between its ends never repeats a vertex. */
  lemma FewestHopsIsDistinct(m: Matrix, p: seq<int>, s: int, t: int)
    requires FewestHops(m, p, s, t)
    ensures Distinct(p)
  {
    forall i, j | 0 <= i < j < |p| ensures p[i] != p[j] {
      if p[i] == p[j] {
        var q := CutLoop(m, p, i, j);
        assert false;
      }
    }
  }

  /** A path weighs what its part up to vertex k and its part from vertex k weigh together. */
  lemma {:induction false} WeightSplit(m: Matrix, p: seq<int>, k: int)
    requires 0 <= k < |p|
    ensures Weight(m, p) == Weight(m, p[..k + 1]) + Weight(m, p[k..])
    decreases |p|
  {
    if k == |p| - 1 {
      assert p[..k + 1] == p;
    } else {
      var p' := p[..|p| - 1];
      WeightSplit(m, p', k);
      assert p'[..k + 1] == p[..k + 1];
      assert p'[k..] == p[k..][..|p[k..]| - 1];
    }
  }

  /** A stretch of consecutive vertices of a path is a path. */
  lemma Stretch(m: Matrix, p: seq<int>, i: int, j: int)
    requires IsPath(m, p) && 0 <= i < j <= |p|
    ensures IsPath(m, p[i..j])
  {
    var r := p[i..j];
    forall k | 0 <= k < |r| - 1 ensures Edge(m, r[k], r[k + 1]) {
      assert r[k] == p[i + k] && r[k + 1] == p[i + k + 1];
    }
  }

  /** With no negative cell, a path of at least one arc weighs more than nothing. */
  lemma ArcsWeigh(m: Matrix, p: seq<int>)
    requires NonNegative(m) && IsPath(m, p) && |p| >= 2
    ensures Weight(m, p) > 0
  {
    WeightPrefix(m, p, |p| - 1);
    assert Edge(m, p[|p| - 2], p[|p| - 1]);
  }

  /** Joining two paths that meet at a vertex adds their weights. */
  lemma WeightJoin(m: Matrix, a: seq<int>, b: seq<int>)
    requires |a| >= 1 && |b| >= 1 && a[|a| - 1] == b[0]
    ensures Weight(m, a + b[1..]) == Weight(m, a) + Weight(m, b)
  {
    var ab := a + b[1..];
    WeightSplit(m, ab, |a| - 1);
    assert ab[..|a|] == a;
    assert ab[|a| - 1..] == b;
  }

  /** With no negative cell, cutting the loop between two visits of one vertex makes a path strictly lighter. */
  lemma CutLoopLighter(m: Matrix, p: seq<int>, i: int, j: int)
    requires NonNegative(m) && IsPath(m, p) && 0 <= i < j < |p| && p[i] == p[j]
    ensures Weight(m, p[..i] + p[j..]) < Weight(m, p)
  {
    var head, loop, tail := p[..i + 1], p[i..j + 1], p[j..];
    Stretch(m, p, i, j + 1);
    ArcsWeigh(m, loop);
    LoopPieces(p, i, j);
    WeightJoin(m, head, loop);
    WeightJoin(m, p[..j + 1], tail);
    WeightJoin(m, head, tail);
  }

  /** How a path with a loop from position i to position j splits into its head, the loop and its tail. */
  lemma LoopPieces(p: seq<int>, i: int, j: int)
    requires 0 <= i < j < |p| && p[i] == p[j]
    ensures p[..i + 1] + p[i..j + 1][1..] == p[..j + 1]
    ensures p[..j + 1] + p[j..][1..] == p
    ensures p[..i + 1] + p[j..][1..] == p[..i] + p[j..]
  {
    assert p[i..j + 1][1..] == p[i + 1..j + 1];
    assert p[j..][1..] == p[j + 1..];
    assert p[..i + 1] + p[i + 1..j + 1] == p[..j + 1];
    assert p[..j + 1] + p[j + 1..] == p;
    assert p[..i + 1] == p[..i] + [p[j]];
    assert [p[j]] + p[j + 1..] == p[j..];
  }

  /** With no negative cell, a lightest path never visits a vertex twice. */
  lemma LightestIsDistinct(m: Matrix, p: seq<int>, s: int, t: int)
    requires NonNegative(m) && Lightest(m, p, s, t)
    ensures Distinct(p)
  {
    forall i, j | 0 <= i < j < |p| ensures p[i] != p[j] {
      if p[i] == p[j] {
        var q := CutLoop(m, p, i, j);
        CutLoopLighter(m, p, i, j);
        assert false;
      }
    }
  }

  /** Renumbering from 1 keeps vertices distinct. */
  lemma DistinctRenumbered(r: seq<int>)
    requires Distinct(ZeroBased(r))
    ensures Distinct(r)
  {
    forall i, j | 0 <= i < j < |r| ensures r[i] != r[j] {
      assert ZeroBased(r)[i] != ZeroBased(r)[j];
    }
  }
}
