/** In-sync tables hold the exact cheapest path costs of the current topology. */
module RouterExact {
  import opened RouterTables
  import opened RouterNet

  /** A walk along current links, from its first router to its last. */
  ghost predicate IsWalk(net: Net, p: seq<nat>)
    requires net.WellFormed()
  {
    && p != []
    && (forall k :: 0 <= k < |p| ==> p[k] < |net.node|)
    && (forall k :: 0 <= k < |p| - 1 ==> net.Neighbour(p[k], p[k + 1]))
  }

  ghost predicate WalkFromTo(net: Net, p: seq<nat>, i: nat, d: nat)
    requires net.WellFormed()
  {
    IsWalk(net, p) && p[0] == i && p[|p| - 1] == d
  }

  ghost function WalkCost(net: Net, p: seq<nat>): (cost: nat)
    requires net.WellFormed() && IsWalk(net, p)
  {
    if |p| == 1 then 0 else net.node[p[0]].linkCost[p[1]] + WalkCost(net, p[1..])
  }

  /**
     `cost` is the cheapest walk cost from i to d when that is below infinity,
     and NONE when every walk costs at least infinity.
     */
  ghost predicate IsCheapest(net: Net, i: nat, d: nat, cost: int)
    requires net.WellFormed() && i < |net.node| && d < |net.node|
  {
    if cost == NONE then
      forall p :: WalkFromTo(net, p, i, d) ==> WalkCost(net, p) >= INFINITY
    else
      && cost < INFINITY
      && (exists p :: WalkFromTo(net, p, i, d) && WalkCost(net, p) == cost)
      && (forall p :: WalkFromTo(net, p, i, d) ==> WalkCost(net, p) >= cost)
  }

  /** Each stored neighbour row equals that neighbour's own row. */
  ghost predicate InSync(net: Net)
    requires net.WellFormed()
  {
    forall i, j :: 0 <= i < |net.node| && 0 <= j < |net.node| && net.Neighbour(i, j) ==>
      net.node[i].dv[j] == net.OwnRow(j)
  }

  ghost predicate SymmetricLinks(net: Net)
    requires net.WellFormed()
  {
    forall i, j :: 0 <= i < |net.node| && 0 <= j < |net.node| && net.Neighbour(i, j) ==> net.Neighbour(j, i)
  }

  ghost predicate AllAnnounced(net: Net)
    requires net.WellFormed()
  {
    forall i :: 0 <= i < |net.node| ==> net.announced[i]
  }

  ghost predicate Quiet(net: Net)
    requires net.WellFormed()
  {
    forall a, b :: 0 <= a < |net.node| && 0 <= b < |net.node| ==> net.queue[a][b] == []
  }

  /** Own entries never exceed the cost of a walk. */
  lemma {:induction false} OwnIsLowerBound(net: Net, p: seq<nat>, i: nat, d: nat)
    requires net.Inv() && InSync(net)
    requires WalkFromTo(net, p, i, d) && WalkCost(net, p) < INFINITY
    ensures net.OwnRow(i)[d] != NONE && net.OwnRow(i)[d] <= WalkCost(net, p)
    decreases |p|
  {
    if |p| > 1 && i != d {
      var j := p[1];
      var t := net.node[i];
      assert net.Neighbour(i, j);
      var q := p[1..];
      forall k | 0 <= k < |q| - 1 ensures net.Neighbour(q[k], q[k + 1]) {
        assert net.Neighbour(p[k + 1], p[k + 2]);
      }
      OwnIsLowerBound(net, q, j, d);
      assert t.dv[j] == net.OwnRow(j);
      assert t.Usable(j, d) && t.Via(j, d) <= WalkCost(net, p);
      assert net.OwnIsMinimal(i);
      assert t.Chosen(d, t.MinDV(d).0, t.MinDV(d).1);
    }
  }

  /** Each own entry is the cost of some walk: positive link costs make the descent end. */
  lemma {:induction false} OwnIsAttained(net: Net, i: nat, d: nat) returns (p: seq<nat>)
    requires net.Inv() && InSync(net)
    requires i < |net.node| && d < |net.node| && net.OwnRow(i)[d] != NONE
    ensures WalkFromTo(net, p, i, d) && WalkCost(net, p) == net.OwnRow(i)[d]
    decreases net.OwnRow(i)[d]
  {
    if i == d {
      p := [i];
    } else {
      var t := net.node[i];
      assert net.OwnIsMinimal(i);
      var (cost, j) := t.MinDV(d);
      assert t.Usable(j, d) && net.Neighbour(i, j);
      assert t.dv[j] == net.OwnRow(j);
      var q := OwnIsAttained(net, j, d);
      p := [i] + q;
      assert p[1..] == q;
      assert forall k :: 1 <= k < |p| ==> p[k] == q[k - 1];
    }
  }

  /** Uniqueness of the fixed point: in-sync own rows are the exact cheapest costs. */
  lemma InSyncIsExact(net: Net, i: nat, d: nat)
    requires net.Inv() && InSync(net) && i < |net.node| && d < |net.node|
    ensures IsCheapest(net, i, d, net.OwnRow(i)[d])
  {
    var cost := net.OwnRow(i)[d];
    forall p | WalkFromTo(net, p, i, d)
      ensures cost == NONE ==> WalkCost(net, p) >= INFINITY
      ensures cost != NONE ==> WalkCost(net, p) >= cost
    {
      if WalkCost(net, p) < INFINITY {
        OwnIsLowerBound(net, p, i, d);
      }
    }
    if cost != NONE {
      var p := OwnIsAttained(net, i, d);
    }
  }

  /** The cheapest cost is a function of the links alone. */
  lemma CheapestIsUnique(net: Net, i: nat, d: nat, cost: int, cost': int)
    requires net.WellFormed() && i < |net.node| && d < |net.node|
    requires IsCheapest(net, i, d, cost) && IsCheapest(net, i, d, cost')
    ensures cost == cost'
  {
    if cost != NONE {
      var p :| WalkFromTo(net, p, i, d) && WalkCost(net, p) == cost;
    }
    if cost' != NONE {
      var p' :| WalkFromTo(net, p', i, d) && WalkCost(net, p') == cost';
    }
  }

  /** Announced news that has been delivered over symmetric links leaves all tables in sync. */
  lemma QuietIsInSync(net: Net)
    requires net.Inv() && Quiet(net) && SymmetricLinks(net) && AllAnnounced(net)
    ensures InSync(net)
  {
    forall i, j | 0 <= i < |net.node| && 0 <= j < |net.node| && net.Neighbour(i, j)
      ensures net.node[i].dv[j] == net.OwnRow(j)
    {
      assert net.Neighbour(j, i);
      assert net.NewsIsOut(j);
      assert net.LastSent(j, i) == net.OwnRow(j);
    }
  }

  /**
     Convergence, for every run of DV, UPDATE and DVMSG steps in any order: once every
     router has announced since its last UPDATE, links are symmetric and the channels are
     empty, every router knows the exact cheapest cost to every destination.
     */
  lemma QuietRunsAreExact(net: Net, i: nat, d: nat)
    requires Reachable(net) && net.WellFormed()
    requires Quiet(net) && SymmetricLinks(net) && AllAnnounced(net)
    requires i < |net.node| && d < |net.node|
    ensures IsCheapest(net, i, d, net.OwnRow(i)[d])
  {
    ReachableInv(net);
    QuietIsInSync(net);
    InSyncIsExact(net, i, d);
  }
}
