/** Whole runs of rounds, under any shuffles: what they output, and when they stop. */
module BfsRuns {
  import opened BfsGraph
  import opened BfsRounds
  import opened Wrappers

  /** What the parsing job writes: one record per start, its list in arrival order. */
  ghost predicate Parsed(adj: Lists, s: int, records: seq<Node>) {
    && NoRepeat(records)
    && (forall v :: HasKey(records, v) <==> v in adj)
    && (forall i :: 0 <= i < |records| ==>
          && records[i].nid in adj
          && records[i] == Node(records[i].nid, adj[records[i].nid],
                                 if records[i].nid == s then 0 else INFINITE, WHITE))
  }

  ghost predicate HasGray(records: seq<Node>) {
    exists i :: 0 <= i < |records| && records[i].color == GRAY
  }

  /** The states of a job sequence: parsed input, then rounds until none is grey. */
  ghost predicate Run(adj: Lists, s: int, stages: seq<seq<Node>>) {
    && |stages| >= 2
    && Parsed(adj, s, stages[0])
    && (forall k :: 0 <= k < |stages| ==> Listy(stages[k]))
    && (forall k :: 0 <= k < |stages| - 1 ==> Round(s, stages[k], stages[k + 1]))
    && (forall k :: 1 <= k < |stages| - 1 ==> HasGray(stages[k]))
    && !HasGray(stages[|stages| - 1])
  }

  /** The output job: the black records as pairs. */
  ghost predicate Outputs(records: seq<Node>, v: int, d: int) {
    exists i :: 0 <= i < |records| && records[i].color == BLACK && records[i].nid == v && records[i].distance == d
  }

  /** The pair that the output should hold: a reachable node and its saturated hop distance. */
  ghost predicate Expected(edges: Edges, s: int, v: int, d: int) {
    exists h: nat :: HopDistance(edges, s, v, h) && d == Saturated(h)
  }

  // ---- with an outgoing edge

  lemma ParsedIsStage(edges: Edges, adj: Lists, s: int, records: seq<Node>)
    requires Setting(edges, adj, s) && Parsed(adj, s, records)
    ensures Stage(edges, adj, s, 0, records)
  {
    assert s in adj && Ball(edges, s, 0) == {s};
    hide Setting;
  }

  /** After the first round, nothing is grey exactly when the ball has stopped growing. */
  lemma GrayIsFrontier(edges: Edges, adj: Lists, s: int, k: nat, records: seq<Node>)
    requires k >= 1 && Stage(edges, adj, s, k, records)
    ensures !HasGray(records) <==> Ball(edges, s, k) == Ball(edges, s, k - 1)
  {
    hide Ball;
    forall v ensures v in Ball(edges, s, k - 1) ==> v in Ball(edges, s, k) {
      BallGrows(edges, s, v, k - 1, k);
    }
    if !HasGray(records) {
      forall v | v in Ball(edges, s, k) ensures v in Ball(edges, s, k - 1) {
        assert HasKey(records, v);
        var i :| 0 <= i < |records| && records[i].nid == v;
        assert records[i].color == ColorAt(edges, s, k, v);
      }
    }
    if HasGray(records) {
      var i :| 0 <= i < |records| && records[i].color == GRAY;
      assert records[i].color == ColorAt(edges, s, k, records[i].nid);
    }
  }

  /** The black records hold the nodes within fewer than `k` hops, with their distances. */
  lemma BlackRecords(edges: Edges, adj: Lists, s: int, k: nat, records: seq<Node>, v: int, d: int)
    requires k >= 1 && Stage(edges, adj, s, k, records)
    ensures Outputs(records, v, d) <==> v in Ball(edges, s, k - 1) && d == Saturated(Level(edges, s, v, k))
  {
    BallGrows(edges, s, v, k - 1, k);
    hide Ball, Level;
    if Outputs(records, v, d) {
      var i :| 0 <= i < |records| && records[i].color == BLACK && records[i].nid == v && records[i].distance == d;
      assert records[i] == RecordAt(edges, adj, s, k, v);
    }
    if v in Ball(edges, s, k - 1) && d == Saturated(Level(edges, s, v, k)) {
      assert HasKey(records, v);
      var i :| 0 <= i < |records| && records[i].nid == v;
      assert records[i] == RecordAt(edges, adj, s, k, v);
    }
  }

  lemma ExpectedIsLevel(edges: Edges, s: int, k: nat, v: int, d: int)
    requires Ball(edges, s, k + 1) == Ball(edges, s, k)
    ensures Expected(edges, s, v, d) <==> v in Ball(edges, s, k) && d == Saturated(Level(edges, s, v, k + 1))
  {
    hide Ball, Level, IsWalk;
    StableBallIsReach(edges, s, k, v);
    if v in Ball(edges, s, k) {
      LevelIsHopDistance(edges, s, v, k + 1);
    }
    if Expected(edges, s, v, d) {
      var h: nat :| HopDistance(edges, s, v, h) && d == Saturated(h);
      assert Reachable(edges, s, v);
      HopDistanceIsUnique(edges, s, v, h, Level(edges, s, v, k + 1));
    }
  }

  /** A final state, with no grey record, outputs the reachable nodes with their distances. */
  lemma FinalStage(edges: Edges, adj: Lists, s: int, k: nat, records: seq<Node>, v: int, d: int)
    requires k >= 1 && Stage(edges, adj, s, k, records) && !HasGray(records)
    ensures Outputs(records, v, d) <==> Expected(edges, s, v, d)
  {
    GrayIsFrontier(edges, adj, s, k, records);
    BlackRecords(edges, adj, s, k, records, v, d);
    hide *;
    ExpectedIsLevel(edges, s, k - 1, v, d);
  }

  /** The states of a run, from the first round on. */
  lemma {:induction false} StagesOfRun(edges: Edges, adj: Lists, s: int, stages: seq<seq<Node>>, k: nat)
    requires Setting(edges, adj, s) && Run(adj, s, stages) && k < |stages|
    ensures Stage(edges, adj, s, k, stages[k])
  {
    if k == 0 {
      ParsedIsStage(edges, adj, s, stages[0]);
    } else {
      hide Setting, Parsed, Round, Stage, HasGray;
      StagesOfRun(edges, adj, s, stages, k - 1);
      RoundAdvances(edges, adj, s, k - 1, stages[k - 1], stages[k]);
    }
  }

  /** `e` is the greatest finite hop distance from `s`. */
  ghost predicate Eccentricity(edges: Edges, s: int, e: nat) {
    && (exists v :: HopDistance(edges, s, v, e))
    && (forall v, h: nat :: HopDistance(edges, s, v, h) ==> h <= e)
  }

  lemma StableBound(edges: Edges, s: int, k: nat, v: int, h: nat)
    requires Ball(edges, s, k + 1) == Ball(edges, s, k) && HopDistance(edges, s, v, h)
    ensures h <= k
  {
    hide Ball, Level, IsWalk;
    assert Reachable(edges, s, v);
    StableBallIsReach(edges, s, k, v);
    LevelIsHopDistance(edges, s, v, k);
    HopDistanceIsUnique(edges, s, v, h, Level(edges, s, v, k));
  }

  lemma GrayAtLevel(edges: Edges, adj: Lists, s: int, k: nat, records: seq<Node>) returns (v: int)
    requires Stage(edges, adj, s, k, records) && HasGray(records)
    ensures v in Ball(edges, s, k) && Level(edges, s, v, k) == k
  {
    hide Ball;
    var i :| 0 <= i < |records| && records[i].color == GRAY;
    v := records[i].nid;
    assert records[i].color == ColorAt(edges, s, k, v);
  }

  /** Rounds that grew the ball up to `k`, and then stopped, have found the farthest node. */
  lemma LastRound(edges: Edges, adj: Lists, s: int, k: nat, last: seq<Node>, before: seq<Node>)
    requires k >= 1 && Stage(edges, adj, s, k, last) && !HasGray(last)
    requires k > 1 ==> Stage(edges, adj, s, k - 1, before) && HasGray(before)
    ensures Eccentricity(edges, s, k - 1)
  {
    GrayIsFrontier(edges, adj, s, k, last);
    var v := s;
    if k > 1 {
      v := GrayAtLevel(edges, adj, s, k - 1, before);
    } else {
      assert v in Ball(edges, s, 0) && Level(edges, s, v, 0) == 0;
    }
    hide *;
    LevelIsHopDistance(edges, s, v, k - 1);
    forall u, h: nat | HopDistance(edges, s, u, h) ensures h <= k - 1 {
      StableBound(edges, s, k - 1, u, h);
    }
    IsEccentricity(edges, s, k - 1, v);
  }

  lemma IsEccentricity(edges: Edges, s: int, e: nat, v: int)
    requires HopDistance(edges, s, v, e)
    requires forall u, h: nat :: HopDistance(edges, s, u, h) ==> h <= e
    ensures Eccentricity(edges, s, e)
  {
    hide HopDistance;
  }

  // ---- without one

  /** Nothing but white records at infinite distance. */
  ghost predicate Idle(adj: Lists, records: seq<Node>) {
    && NoRepeat(records)
    && (forall v :: HasKey(records, v) <==> v in adj)
    && (forall i :: 0 <= i < |records| ==>
          && records[i].nid in adj
          && records[i] == Node(records[i].nid, adj[records[i].nid], INFINITE, WHITE))
  }

  lemma IdleEmits(adj: Lists, s: int, records: seq<Node>, x: Node)
    requires Idle(adj, records) && Listy(records) && s !in adj
    ensures x in AllEmitted(s, records) <==> x in records
  {
    EmittedByOne(s, records, x);
    hide AllEmitted, HasKey;
    forall n | n in records && n.list != [] ensures Emitted(s, n) == [n] {
    }
    if x in records {
      assert x in Emitted(s, x);
    }
  }

  /** A round leaves the idle records as they are, up to order. */
  lemma IdleRound(edges: Edges, adj: Lists, s: int, records: seq<Node>, out: seq<Node>)
    requires Groups(edges, adj) && NonNegative(edges) && s !in adj
    requires Idle(adj, records) && Listy(records) && Round(s, records, out)
    ensures Idle(adj, out)
  {
    var emitted := AllEmitted(s, records);
    forall x ensures x in emitted <==> x in records {
      IdleEmits(adj, s, records, x);
    }
    forall v ensures HasKey(emitted, v) <==> HasKey(records, v) {
      SameKeys(emitted, records, v);
    }
    hide AllEmitted, Reduced, IsMerge;
    forall i | 0 <= i < |out|
      ensures out[i].nid in adj && out[i] == Node(out[i].nid, adj[out[i].nid], INFINITE, WHITE)
    {
      var o := out[i];
      assert HasKey(out, o.nid);
      OutputIsMerge(emitted, o);
      IdleMerge(edges, adj, records, emitted, o);
    }
  }

  lemma SameKeys(a: seq<Node>, b: seq<Node>, v: int)
    requires forall x :: x in a <==> x in b
    ensures HasKey(a, v) <==> HasKey(b, v)
  {
    if HasKey(a, v) {
      var i :| 0 <= i < |a| && a[i].nid == v;
      assert a[i] in b;
    }
    if HasKey(b, v) {
      var i :| 0 <= i < |b| && b[i].nid == v;
      assert b[i] in a;
    }
  }

  lemma IdleMerge(edges: Edges, adj: Lists, records: seq<Node>, emitted: seq<Node>, o: Node)
    requires Groups(edges, adj) && NonNegative(edges) && Idle(adj, records) && o.nid in adj
    requires forall x :: x in emitted <==> x in records
    requires IsMerge(o.nid, ValuesOf(emitted, o.nid), o)
    ensures o == Node(o.nid, adj[o.nid], INFINITE, WHITE)
  {
    var own := Node(o.nid, adj[o.nid], INFINITE, WHITE);
    assert HasKey(records, o.nid);
    var i :| 0 <= i < |records| && records[i].nid == o.nid;
    assert records[i] == own && own in emitted;
    assert ValuesOf(emitted, o.nid) == {own};
    var w := adj[o.nid][0];
    assert w in adj[o.nid];
    assert (o.nid, w) in edges;
  }

  // ---- theorems

  ghost predicate Input(edges: Edges, adj: Lists) {
    Groups(edges, adj) && NonNegative(edges)
  }

  /**
     Every run, under any shuffles and orders, outputs exactly the reachable nodes with
     their saturated shortest distances, if and only if the source has an outgoing edge.
     */
  lemma RunIsShortestDistances(edges: Edges, adj: Lists, s: int, stages: seq<seq<Node>>)
    requires Input(edges, adj) && Run(adj, s, stages)
    ensures s in adj <==> forall v, d :: Outputs(stages[|stages| - 1], v, d) <==> Expected(edges, s, v, d)
  {
    var last := stages[|stages| - 1];
    if s in adj {
      StagesOfRun(edges, adj, s, stages, |stages| - 1);
      hide Stage, Outputs, Expected, HasGray, Round;
      forall v, d ensures Outputs(last, v, d) <==> Expected(edges, s, v, d) {
        FinalStage(edges, adj, s, |stages| - 1, last, v, d);
      }
    } else {
      IdleRunIsShort(edges, adj, s, stages);
      SourceIsExpected(edges, s);
      assert !Outputs(last, s, 0);
    }
  }

  lemma SourceIsExpected(edges: Edges, s: int)
    ensures Expected(edges, s, s, 0)
  {
    assert IsWalk(edges, [s], s, s);
    assert HopDistance(edges, s, s, 0);
  }

  lemma IdleRunIsShort(edges: Edges, adj: Lists, s: int, stages: seq<seq<Node>>)
    requires Input(edges, adj) && Run(adj, s, stages) && s !in adj
    ensures |stages| == 2 && Idle(adj, stages[1])
  {
    hide Round, Groups, NonNegative, AllEmitted;
    assert Idle(adj, stages[0]);
    IdleRound(edges, adj, s, stages[0], stages[1]);
    assert !HasGray(stages[1]);
  }

  /** The number of rounds is one more than the greatest finite hop distance. */
  lemma RunLength(edges: Edges, adj: Lists, s: int, stages: seq<seq<Node>>)
    requires Input(edges, adj) && Run(adj, s, stages)
    ensures if s in adj then Eccentricity(edges, s, |stages| - 2) else |stages| == 2
  {
    if s in adj {
      var k := |stages| - 1;
      StagesOfRun(edges, adj, s, stages, k);
      StagesOfRun(edges, adj, s, stages, k - 1);
      hide Stage, HasGray, Round, Eccentricity, Setting;
      LastRound(edges, adj, s, k, stages[k], stages[k - 1]);
    } else {
      IdleRunIsShort(edges, adj, s, stages);
    }
  }

  /** After `k >= 1` rounds: black means fewer than `k` hops, grey means exactly `k`. */
  lemma RoundInvariant(edges: Edges, adj: Lists, s: int, stages: seq<seq<Node>>, k: nat, i: nat)
    requires Input(edges, adj) && s in adj && Run(adj, s, stages) && 1 <= k < |stages| && i < |stages[k]|
    ensures var n := stages[k][i];
            && (n.color == BLACK <==> exists h: nat :: h < k && HopDistance(edges, s, n.nid, h))
            && (n.color == GRAY <==> HopDistance(edges, s, n.nid, k))
            && (forall h: nat :: HopDistance(edges, s, n.nid, h) && h <= k ==> n.distance == Saturated(h))
            && (n.color == WHITE ==> n.distance == INFINITE)
  {
    StagesOfRun(edges, adj, s, stages, k);
    var n := stages[k][i];
    assert n == RecordAt(edges, adj, s, k, n.nid);
    hide Run, Stage, Ball, Level, HopDistance;
    BallIsHops(edges, s, n.nid, k - 1);
    BallIsHops(edges, s, n.nid, k);
    if n.nid in Ball(edges, s, k) {
      LevelIsHopDistance(edges, s, n.nid, k);
      forall h: nat | HopDistance(edges, s, n.nid, h) ensures h == Level(edges, s, n.nid, k) {
        HopDistanceIsUnique(edges, s, n.nid, h, Level(edges, s, n.nid, k));
      }
    }
  }

  lemma BallIsHops(edges: Edges, s: int, v: int, k: nat)
    ensures v in Ball(edges, s, k) <==> exists h: nat :: h <= k && HopDistance(edges, s, v, h)
  {
    hide Ball;
    if v in Ball(edges, s, k) {
      LevelIsHopDistance(edges, s, v, k);
    }
    if h: nat :| h <= k && HopDistance(edges, s, v, h) {
      var p :| IsWalk(edges, p, s, v) && |p| == h + 1;
      WalkIsInBall(edges, s, v, p);
      BallGrows(edges, s, v, h, k);
    }
  }

  // ---- the decreasing measure

  /** The nodes that are not yet black after `k` rounds. */
  ghost function Remaining(edges: Edges, s: int, k: nat): (n: nat) {
    if k == 0 then |Nodes(edges, s)| + 1 else |Nodes(edges, s) - Ball(edges, s, k - 1)|
  }

  lemma RemainingFalls(edges: Edges, adj: Lists, s: int, k: nat, records: seq<Node>)
    requires Stage(edges, adj, s, k, records) && (k >= 1 ==> HasGray(records))
    ensures Remaining(edges, s, k + 1) < Remaining(edges, s, k)
  {
    var all := Nodes(edges, s);
    if k == 0 {
      SubsetSize(all - Ball(edges, s, 0), all);
    } else {
      GrayIsFrontier(edges, adj, s, k, records);
      BallInNodes(edges, s, k);
      hide Ball, Nodes, Stage, HasGray;
      forall v ensures v in Ball(edges, s, k - 1) ==> v in Ball(edges, s, k) {
        BallGrows(edges, s, v, k - 1, k);
      }
      var v :| v in Ball(edges, s, k) && v !in Ball(edges, s, k - 1);
      var small, large := all - Ball(edges, s, k), all - Ball(edges, s, k - 1);
      assert v in large && v !in small;
      SubsetSize(small, large - {v});
    }
  }
}
