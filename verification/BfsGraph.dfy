/** Hop distances in a directed graph, independently of how they are computed. */
module BfsGraph {
  type Edges = seq<(int, int)>

  ghost predicate IsWalk(edges: Edges, p: seq<int>, s: int, v: int) {
    && p != [] && p[0] == s && p[|p| - 1] == v
    && forall i :: 0 <= i < |p| - 1 ==> (p[i], p[i + 1]) in edges
  }

  /** The shortest walks from `s` to `v` have `k` edges. */
  ghost predicate HopDistance(edges: Edges, s: int, v: int, k: nat) {
    && (exists p :: IsWalk(edges, p, s, v) && |p| == k + 1)
    && (forall p :: IsWalk(edges, p, s, v) ==> |p| >= k + 1)
  }

  ghost predicate Reachable(edges: Edges, s: int, v: int) {
    exists p :: IsWalk(edges, p, s, v)
  }

  // ---- growing balls

  ghost function Targets(edges: Edges, b: set<int>): (t: set<int>) {
    set e | e in edges && e.0 in b :: e.1
  }

  ghost function Ball(edges: Edges, s: int, k: nat): (b: set<int>) {
    if k == 0 then {s} else Ball(edges, s, k - 1) + Targets(edges, Ball(edges, s, k - 1))
  }

  /** The first ball that holds `v`, or `k`. */
  ghost function Level(edges: Edges, s: int, v: int, k: nat): (j: nat)
    ensures j <= k
  {
    if k == 0 || v !in Ball(edges, s, k - 1) then k else Level(edges, s, v, k - 1)
  }

  ghost predicate FirstBall(edges: Edges, s: int, v: int, j: nat) {
    v in Ball(edges, s, j) && (j == 0 || v !in Ball(edges, s, j - 1))
  }

  lemma {:induction false} LevelIsFirst(edges: Edges, s: int, v: int, k: nat)
    requires v in Ball(edges, s, k)
    ensures FirstBall(edges, s, v, Level(edges, s, v, k))
    decreases k
  {
    hide Ball;
    if k > 0 && v in Ball(edges, s, k - 1) {
      LevelIsFirst(edges, s, v, k - 1);
    }
  }

  lemma {:induction false} BallGrows(edges: Edges, s: int, v: int, j: nat, k: nat)
    requires j <= k
    ensures v in Ball(edges, s, j) ==> v in Ball(edges, s, k)
    decreases k
  {
    if j < k {
      BallGrows(edges, s, v, j, k - 1);
    }
  }

  lemma TargetInBall(edges: Edges, s: int, v: int, w: int, j: nat)
    requires v in Ball(edges, s, j) && (v, w) in edges
    ensures w in Ball(edges, s, j + 1)
  {
    assert w in Targets(edges, Ball(edges, s, j));
  }

  /** An edge raises the level by at most one. */
  lemma EdgeLevel(edges: Edges, s: int, v: int, w: int, k: nat)
    requires v in Ball(edges, s, k) && (v, w) in edges
    ensures w in Ball(edges, s, k + 1)
    ensures w in Ball(edges, s, k) ==> Level(edges, s, w, k) <= Level(edges, s, v, k) + 1
    ensures w !in Ball(edges, s, k) ==> Level(edges, s, v, k) == k
  {
    LevelIsFirst(edges, s, v, k);
    TargetInBall(edges, s, v, w, Level(edges, s, v, k));
    hide *;
    NextLevel(edges, s, w, Level(edges, s, v, k), k);
  }

  lemma NextLevel(edges: Edges, s: int, w: int, j: nat, k: nat)
    requires w in Ball(edges, s, j + 1) && j <= k
    ensures w in Ball(edges, s, k + 1)
    ensures w in Ball(edges, s, k) ==> Level(edges, s, w, k) <= j + 1
    ensures w !in Ball(edges, s, k) ==> j == k
  {
    hide *;
    BallGrows(edges, s, w, j + 1, k + 1);
    if j < k {
      BallGrows(edges, s, w, j + 1, k);
      LevelIsLeast(edges, s, w, j + 1, k);
    }
  }

  lemma LevelIsLeast(edges: Edges, s: int, w: int, j: nat, k: nat)
    requires w in Ball(edges, s, j) && j <= k
    ensures Level(edges, s, w, k) <= j
  {
    BallGrows(edges, s, w, j, k);
    LevelIsFirst(edges, s, w, k);
    if Level(edges, s, w, k) > j {
      BallGrows(edges, s, w, j, Level(edges, s, w, k) - 1);
    }
  }

  /** The edge that brings a node into the next ball. */
  lemma NewInBall(edges: Edges, s: int, w: int, k: nat) returns (v: int)
    requires w in Ball(edges, s, k + 1) && w !in Ball(edges, s, k)
    ensures v in Ball(edges, s, k) && (v, w) in edges && Level(edges, s, v, k) == k
  {
    var e :| e in edges && e.0 in Ball(edges, s, k) && e.1 == w;
    v := e.0;
    assert e == (v, w);
    EdgeLevel(edges, s, v, w, k);
  }

  /** A ball holds exactly the nodes that a walk of at most `k` edges reaches. */
  lemma {:induction false} WalkIsInBall(edges: Edges, s: int, v: int, p: seq<int>)
    requires IsWalk(edges, p, s, v)
    ensures v in Ball(edges, s, |p| - 1)
    decreases |p|
  {
    if |p| > 1 {
      var q := p[..|p| - 1];
      WalkIsInBall(edges, s, q[|q| - 1], q);
      assert (p[|p| - 2], p[|p| - 1]) in edges;
      EdgeLevel(edges, s, q[|q| - 1], v, |q| - 1);
    }
  }

  lemma {:induction false} BallHasWalk(edges: Edges, s: int, v: int, k: nat) returns (p: seq<int>)
    requires v in Ball(edges, s, k)
    ensures IsWalk(edges, p, s, v) && |p| <= k + 1
    decreases k
  {
    if k == 0 {
      p := [s];
    } else if v in Ball(edges, s, k - 1) {
      p := BallHasWalk(edges, s, v, k - 1);
    } else {
      var u := NewInBall(edges, s, v, k - 1);
      p := BallHasWalk(edges, s, u, k - 1);
      p := p + [v];
    }
  }

  lemma NoShorterWalk(edges: Edges, s: int, v: int, j: nat, p: seq<int>)
    requires FirstBall(edges, s, v, j) && IsWalk(edges, p, s, v)
    ensures |p| >= j + 1
  {
    assert p != [];
    hide Ball, IsWalk;
    WalkIsInBall(edges, s, v, p);
    if |p| <= j {
      BallGrows(edges, s, v, |p| - 1, j - 1);
    }
  }

  lemma LevelIsHopDistance(edges: Edges, s: int, v: int, k: nat)
    requires v in Ball(edges, s, k)
    ensures HopDistance(edges, s, v, Level(edges, s, v, k))
  {
    var j := Level(edges, s, v, k);
    LevelIsFirst(edges, s, v, k);
    var p := BallHasWalk(edges, s, v, j);
    hide Ball, Level, IsWalk, FirstBall;
    forall q | IsWalk(edges, q, s, v) ensures |q| >= j + 1 {
      NoShorterWalk(edges, s, v, j, q);
    }
    assert |p| == j + 1;
  }

  lemma HopDistanceIsUnique(edges: Edges, s: int, v: int, j: nat, k: nat)
    requires HopDistance(edges, s, v, j) && HopDistance(edges, s, v, k)
    ensures j == k
  {
  }

  /** Once a ball stops growing it holds every reachable node. */
  lemma {:induction false} BallIsStable(edges: Edges, s: int, k: nat, j: nat)
    requires k <= j && Ball(edges, s, k + 1) == Ball(edges, s, k)
    ensures Ball(edges, s, j) == Ball(edges, s, k)
    decreases j
  {
    BallStep(edges, s, k);
    hide Ball;
    if k < j {
      BallIsStable(edges, s, k, j - 1);
      BallStep(edges, s, j - 1);
    }
  }

  lemma BallStep(edges: Edges, s: int, k: nat)
    ensures Ball(edges, s, k + 1) == Ball(edges, s, k) + Targets(edges, Ball(edges, s, k))
  {
  }

  lemma StableBallIsReach(edges: Edges, s: int, k: nat, v: int)
    requires Ball(edges, s, k + 1) == Ball(edges, s, k)
    ensures v in Ball(edges, s, k) <==> Reachable(edges, s, v)
  {
    hide Ball;
    if v in Ball(edges, s, k) {
      var p := BallHasWalk(edges, s, v, k);
    }
    if Reachable(edges, s, v) {
      var p :| IsWalk(edges, p, s, v);
      hide IsWalk;
      WalkIsInBall(edges, s, v, p);
      if |p| - 1 <= k {
        BallGrows(edges, s, v, |p| - 1, k);
      } else {
        BallIsStable(edges, s, k, |p| - 1);
      }
    }
  }

  ghost function Nodes(edges: Edges, s: int): (all: set<int>) {
    {s} + set e | e in edges :: e.1
  }

  lemma {:induction false} BallInNodes(edges: Edges, s: int, k: nat)
    ensures Ball(edges, s, k) <= Nodes(edges, s)
  {
    if k > 0 {
      BallInNodes(edges, s, k - 1);
    }
  }
}
