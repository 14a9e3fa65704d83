/**
 Forwarding in a static topology (runs without UPDATE). In every reachable state, and
 not only at rest, following next hops strictly decreases the cost to the destination.
 */
module RouterLoopFree {
  import opened RouterTables
  import opened RouterNet
  import opened RouterExact

  /** NONE counts as the largest distance. */
  ghost function Distance(x: int): int {
    if x == NONE then INFINITY else x
  }

  ghost predicate AtLeast(a: Row, b: Row)
    requires |a| == |b|
  {
    forall d :: 0 <= d < |a| ==> Distance(a[d]) >= Distance(b[d])
  }

  /** What `b` stores from `a`, what is in flight from `a` to `b`, and what `a` holds now. */
  ghost function Pipeline(net: Net, a: nat, b: nat): (rows: seq<Row>)
    requires net.WellFormed() && a < |net.node| && b < |net.node|
    ensures forall k :: 0 <= k < |rows| ==> |rows[k]| == |net.node|
  {
    [net.node[b].dv[a]] + net.queue[a][b] + [net.OwnRow(a)]
  }

  ghost predicate NonIncreasing(rows: seq<Row>, n: nat)
    requires forall k :: 0 <= k < |rows| ==> |rows[k]| == n
  {
    forall x, y :: 0 <= x < y < |rows| ==> AtLeast(rows[x], rows[y])
  }

  /** News only improves on its way. */
  ghost predicate Ordered(net: Net)
    requires net.WellFormed()
  {
    forall a, b :: 0 <= a < |net.node| && 0 <= b < |net.node| && a != b ==>
      NonIncreasing(Pipeline(net, a, b), |net.node|)
  }

  /** The routing entry of `d` names a neighbour whose stored row explains the own cost. */
  ghost predicate RouteAgrees(t: Tables, d: nat)
    requires t.WellFormed() && d < |t.linkCost|
  {
    && (t.available[d] <==> t.dv[t.own][d] != NONE)
    && (t.available[d] ==>
          && t.Usable(t.route[d].nextHop, d)
          && t.route[d].pathCost == t.dv[t.own][d] == t.Via(t.route[d].nextHop, d))
  }

  ghost predicate StaticInv(net: Net) {
    && net.Inv()
    && Ordered(net)
    && (forall i, d :: 0 <= i < |net.node| && 0 <= d < |net.node| && i != d ==> RouteAgrees(net.node[i], d))
  }

  ghost predicate IsStatic(steps: seq<Step>) {
    forall k :: 0 <= k < |steps| ==> !steps[k].Update?
  }

  ghost predicate ReachableStatically(net: Net) {
    exists nets, steps :: IsRun(nets, steps) && IsStatic(steps) && nets[|steps|] == net
  }

  lemma InitialStaticInv(net: Net)
    requires Initial(net)
    ensures StaticInv(net)
  {
    InitialInv(net);
    forall a, b | 0 <= a < |net.node| && 0 <= b < |net.node| && a != b
      ensures NonIncreasing(Pipeline(net, a, b), |net.node|)
    {
      assert net.node[b].IsInitial(net.node[b].linkCost) && net.node[a].IsInitial(net.node[a].linkCost);
      assert AtLeast(net.node[b].dv[a], net.OwnRow(a));
    }
  }

  /** Appending a copy of the current own row keeps every pipeline ordered. */
  lemma AnnounceStaticInv(net: Net, i: nat)
    requires net.WellFormed() && i < |net.node|
    requires net.Announce(i).Inv() && Ordered(net)
    requires forall j, d :: 0 <= j < |net.node| && 0 <= d < |net.node| && j != d ==> RouteAgrees(net.node[j], d)
    ensures StaticInv(net.Announce(i))
  {
    var net' := net.Announce(i);
    forall a, b | 0 <= a < |net.node| && 0 <= b < |net.node| && a != b
      ensures NonIncreasing(Pipeline(net', a, b), |net.node|)
    {
      var rows, rows' := Pipeline(net, a, b), Pipeline(net', a, b);
      assert NonIncreasing(rows, |net.node|);
      if rows' != rows {
        assert rows' == rows + [rows[|rows| - 1]];
      }
    }
  }

  /** A better stored row can only lower the minimum. */
  lemma BetterRowLowersMinimum(t: Tables, r: nat, row: Row, d: nat)
    requires t.WellFormed() && r < |t.linkCost| && r != t.own && ValidRow(row, |t.linkCost|)
    requires d < |t.linkCost| && d != t.own
    requires Distance(t.dv[r][d]) >= Distance(row[d])
    ensures Distance(t.WithRow(r, row).MinDV(d).0) <= Distance(t.MinDV(d).0)
  {
    var u := t.WithRow(r, row);
    var (cost, hop) := t.MinDV(d);
    if cost != NONE {
      assert u.Usable(hop, d) && u.Via(hop, d) <= t.Via(hop, d);
    }
  }

  /** The routing entry stays explained by the stored rows when a better row arrives. */
  lemma BetterRowKeepsRoute(t: Tables, r: nat, row: Row, d: nat)
    requires t.WellFormed() && r < |t.linkCost| && r != t.own && ValidRow(row, |t.linkCost|)
    requires d < |t.linkCost| && d != t.own
    requires Distance(t.dv[r][d]) >= Distance(row[d])
    requires t.dv[t.own][d] == t.MinDV(d).0 && RouteAgrees(t, d)
    ensures RouteAgrees(t.WithRow(r, row).Recomputed(), d)
    ensures Distance(t.WithRow(r, row).Recomputed().dv[t.own][d]) <= Distance(t.dv[t.own][d])
  {
    var u := t.WithRow(r, row);
    var v := u.Recomputed();
    assert v.EntryAt(d) == u.NewEntryAt(d);
    BetterRowLowersMinimum(t, r, row, d);
    var (cost, hop) := u.MinDV(d);
    assert forall x :: v.Usable(x, d) <==> u.Usable(x, d);
    assert forall x :: u.Usable(x, d) ==> v.Via(x, d) == u.Via(x, d);
    if cost == t.dv[t.own][d] && t.available[d] {
      var h := t.route[d].nextHop;
      assert u.Usable(h, d) && u.Via(h, d) <= t.Via(h, d);
      assert cost <= u.Via(h, d);
    }
  }

  /** Taking the oldest row out of a channel keeps every pipeline ordered. */
  lemma TakeStaticInv(net: Net, a: nat, b: nat)
    requires StaticInv(net) && a < |net.node| && b < |net.node| && a != b && net.queue[a][b] != []
    ensures Ordered(net.Take(a, b))
    ensures AtLeast(net.OwnRow(b), net.Take(a, b).OwnRow(b))
    ensures forall j, d :: 0 <= j < |net.node| && 0 <= d < |net.node| && j != d ==>
            RouteAgrees(net.Take(a, b).node[j], d)
  {
    var net' := net.Take(a, b);
    var t, row := net.node[b], net.queue[a][b][0];
    var rows := Pipeline(net, a, b);
    assert NonIncreasing(rows, |net.node|) && rows[0] == t.dv[a] && rows[1] == row;
    assert net.OwnIsMinimal(b);
    forall d | 0 <= d < |net.node| && d != b
      ensures RouteAgrees(net'.node[b], d)
      ensures Distance(net'.OwnRow(b)[d]) <= Distance(net.OwnRow(b)[d])
    {
      assert AtLeast(rows[0], rows[1]);
      BetterRowKeepsRoute(t, a, row, d);
    }
    forall x, y | 0 <= x < |net.node| && 0 <= y < |net.node| && x != y
      ensures NonIncreasing(Pipeline(net', x, y), |net.node|)
    {
      TakeKeepsOrder(net, a, b, x, y);
    }
  }

  lemma BetterLastKeepsOrder(rows: seq<Row>, row: Row, n: nat)
    requires rows != [] && |row| == n && forall k :: 0 <= k < |rows| ==> |rows[k]| == n
    requires NonIncreasing(rows, n) && AtLeast(rows[|rows| - 1], row)
    ensures NonIncreasing(rows[..|rows| - 1] + [row], n)
  {
    var rows' := rows[..|rows| - 1] + [row];
    forall x, y | 0 <= x < y < |rows'| ensures AtLeast(rows'[x], rows'[y]) {
      assert AtLeast(rows[x], rows[y]);
    }
  }

  lemma TakeKeepsOrder(net: Net, a: nat, b: nat, x: nat, y: nat)
    requires net.WellFormed() && Ordered(net)
    requires a < |net.node| && b < |net.node| && a != b && net.queue[a][b] != []
    requires AtLeast(net.OwnRow(b), net.Take(a, b).OwnRow(b))
    requires x < |net.node| && y < |net.node| && x != y
    ensures NonIncreasing(Pipeline(net.Take(a, b), x, y), |net.node|)
  {
    var net' := net.Take(a, b);
    var rows, rows' := Pipeline(net, x, y), Pipeline(net', x, y);
    assert NonIncreasing(rows, |net.node|);
    if x == a && y == b {
      assert rows' == rows[1..];
    } else if x == b {
      assert rows' == rows[..|rows| - 1] + [net'.OwnRow(b)];
      BetterLastKeepsOrder(rows, net'.OwnRow(b), |net.node|);
    } else {
      assert rows' == rows;
    }
  }

  lemma NextStaticInv(net: Net, step: Step)
    requires StaticInv(net) && Enabled(net, step) && !step.Update?
    ensures StaticInv(Next(net, step))
  {
    NextInv(net, step);
    match step
    case Dv(i) => AnnounceStaticInv(net, i);
    case DvMsg(a, b) =>
      TakeStaticInv(net, a, b);
      if net.Take(a, b).OwnRow(b) != net.OwnRow(b) {
        AnnounceStaticInv(net.Take(a, b), b);
      }
  }

  lemma {:induction false} ExecutionStaticInv(nets: seq<Net>, steps: seq<Step>, k: nat)
    requires IsExecution(nets, steps) && IsStatic(steps) && StaticInv(nets[0]) && k <= |steps|
    ensures StaticInv(nets[k])
  {
    if k > 0 {
      ExecutionStaticInv(nets, steps, k - 1);
      NextStaticInv(nets[k - 1], steps[k - 1]);
    }
  }

  lemma ReachableStaticInv(net: Net)
    requires ReachableStatically(net)
    ensures StaticInv(net)
  {
    var nets, steps :| IsRun(nets, steps) && IsStatic(steps) && nets[|steps|] == net;
    InitialStaticInv(nets[0]);
    ExecutionStaticInv(nets, steps, |steps|);
  }

  /** Router `x` forwards packets for `d` to `y`, which is strictly closer. */
  ghost predicate Forwards(net: Net, x: nat, y: nat, d: nat)
    requires net.WellFormed() && x < |net.node| && y < |net.node| && d < |net.node|
  {
    && x != d
    && net.node[x].available[d]
    && net.node[x].route[d].nextHop == y
    && net.OwnRow(y)[d] != NONE
    && net.OwnRow(y)[d] < net.OwnRow(x)[d]
  }

  /** `p` is the way a packet for `d` takes from `i`: each router forwards to its next hop. */
  ghost predicate IsForwardingPath(net: Net, p: seq<nat>, i: nat, d: nat)
    requires net.WellFormed() && d < |net.node|
  {
    && WalkFromTo(net, p, i, d)
    && forall k :: 0 <= k < |p| - 1 ==> Forwards(net, p[k], p[k + 1], d)
  }

  /** One forwarding step: the next hop knows a strictly cheaper way. */
  lemma NextHopIsCloser(net: Net, i: nat, d: nat)
    requires StaticInv(net) && i < |net.node| && d < |net.node| && i != d && net.node[i].available[d]
    ensures var entry := net.node[i].route[d];
            && 0 <= entry.nextHop < |net.node| && net.Neighbour(i, entry.nextHop) && entry.nextHop != i
            && net.OwnRow(entry.nextHop)[d] != NONE
            && net.node[i].linkCost[entry.nextHop] + net.OwnRow(entry.nextHop)[d] <= entry.pathCost == net.OwnRow(i)[d]
  {
    var h := net.node[i].route[d].nextHop;
    assert RouteAgrees(net.node[i], d);
    var rows := Pipeline(net, h, i);
    assert NonIncreasing(rows, |net.node|);
    assert AtLeast(rows[0], rows[|rows| - 1]);
  }

  lemma ForwardFirst(net: Net, p: seq<nat>, q: seq<nat>, i: nat, d: nat)
    requires net.WellFormed() && i < |net.node| && d < |net.node|
    requires q != [] && IsForwardingPath(net, q, q[0], d)
    requires net.Neighbour(i, q[0]) && Forwards(net, i, q[0], d)
    requires p == [i] + q
    ensures IsForwardingPath(net, p, i, d)
    ensures WalkCost(net, p) == net.node[i].linkCost[q[0]] + WalkCost(net, q)
  {
    assert p[1..] == q;
    forall k | 0 <= k < |p| - 1 ensures net.Neighbour(p[k], p[k + 1]) && Forwards(net, p[k], p[k + 1], d) {
      if k > 0 {
        assert p[k] == q[k - 1] && p[k + 1] == q[k - 1 + 1];
      }
    }
  }

  lemma {:induction false} FollowRoutes(net: Net, i: nat, d: nat) returns (p: seq<nat>)
    requires StaticInv(net) && i < |net.node| && d < |net.node| && net.OwnRow(i)[d] != NONE
    ensures IsForwardingPath(net, p, i, d) && WalkCost(net, p) <= net.OwnRow(i)[d]
    decreases net.OwnRow(i)[d]
  {
    if i == d {
      p := [i];
    } else {
      assert RouteAgrees(net.node[i], d);
      NextHopIsCloser(net, i, d);
      var q := FollowRoutes(net, net.node[i].route[d].nextHop, d);
      p := [i] + q;
      ForwardFirst(net, p, q, i, d);
    }
  }

  lemma {:induction false} CostsFallAlong(net: Net, p: seq<nat>, i: nat, d: nat, x: nat, y: nat)
    requires net.WellFormed() && d < |net.node| && IsForwardingPath(net, p, i, d)
    requires x < y < |p|
    ensures net.OwnRow(p[y])[d] < net.OwnRow(p[x])[d]
    decreases y - x
  {
    assert Forwards(net, p[x], p[x + 1], d);
    if x + 1 < y {
      CostsFallAlong(net, p, i, d, x + 1, y);
    }
  }

  /**
     Loop freedom in every reachable state of a static topology: whenever router i has an
     entry for d, forwarding reaches d, visits no router twice, and its real link cost is
     at most the path cost in the entry.
     */
  lemma ForwardingIsLoopFree(net: Net, i: nat, d: nat)
    requires ReachableStatically(net) && net.WellFormed()
    requires i < |net.node| && d < |net.node| && i != d && net.node[i].available[d]
    ensures exists p ::
              && IsForwardingPath(net, p, i, d)
              && (forall x, y :: 0 <= x < y < |p| ==> p[x] != p[y])
              && WalkCost(net, p) <= net.node[i].route[d].pathCost
  {
    ReachableStaticInv(net);
    assert RouteAgrees(net.node[i], d);
    var p := FollowRoutes(net, i, d);
    forall x, y | 0 <= x < y < |p| ensures p[x] != p[y] {
      CostsFallAlong(net, p, i, d, x, y);
    }
  }

  /** `u` is `t` with other links or other rows of neighbours, not yet recomputed. */
  ghost predicate OnlyInputsDiffer(t: Tables, u: Tables) {
    && t.WellFormed() && u.WellFormed()
    && u.own == t.own && |u.linkCost| == |t.linkCost|
    && u.dv[u.own] == t.dv[t.own] && u.available == t.available && u.route == t.route
  }

  /**
     Whatever changed, a link or a stored row, recomputing leaves the routing entry of `d` right
     if and only if there was none, or a path is left and either its cost changed or the old next
     hop still offers it at the old cost.
     */
  lemma RecomputeKeepsRouteIff(t: Tables, u: Tables, d: nat)
    requires OnlyInputsDiffer(t, u) && d < |t.linkCost| && d != t.own && RouteAgrees(t, d)
    ensures var cost, hop := u.MinDV(d).0, t.route[d].nextHop;
            RouteAgrees(u.Recomputed(), d) <==>
              || !t.available[d]
              || (cost != NONE && (|| cost != t.dv[t.own][d]
                                   || (u.Usable(hop, d) && u.Via(hop, d) == t.Via(hop, d))))
  {
    var v := u.Recomputed();
    assert v.EntryAt(d) == u.NewEntryAt(d);
    assert forall x :: v.Usable(x, d) <==> u.Usable(x, d);
    assert forall x :: u.Usable(x, d) ==> v.Via(x, d) == u.Via(x, d);
  }

  /** After UPDATE of link `j`: the old offer stands unless the entry goes through `j` at another cost. */
  lemma UpdateKeepsRouteIff(t: Tables, j: nat, weight: int, d: nat)
    requires t.WellFormed() && j < |t.linkCost| && j != t.own && ValidCost(Tables.EffectiveWeight(weight))
    requires d < |t.linkCost| && d != t.own && RouteAgrees(t, d)
    ensures var cost := t.WithLink(j, weight).MinDV(d).0;
            RouteAgrees(t.WithLink(j, weight).Recomputed(), d) <==>
              || !t.available[d]
              || (cost != NONE && (|| cost != t.dv[t.own][d]
                                   || t.route[d].nextHop != j
                                   || Tables.EffectiveWeight(weight) == t.linkCost[j]))
  {
    RecomputeKeepsRouteIff(t, t.WithLink(j, weight), d);
  }

  /** After DVMSG with the row of `r`: unless the entry goes through `r` and the row says another distance. */
  lemma RowKeepsRouteIff(t: Tables, r: nat, row: Row, d: nat)
    requires t.WellFormed() && r < |t.linkCost| && r != t.own && ValidRow(row, |t.linkCost|)
    requires d < |t.linkCost| && d != t.own && RouteAgrees(t, d)
    ensures var cost := t.WithRow(r, row).MinDV(d).0;
            RouteAgrees(t.WithRow(r, row).Recomputed(), d) <==>
              || !t.available[d]
              || (cost != NONE && (|| cost != t.dv[t.own][d]
                                   || t.route[d].nextHop != r
                                   || row[d] == t.dv[r][d]))
  {
    RecomputeKeepsRouteIff(t, t.WithRow(r, row), d);
  }

  /** A concrete stale entry: the only link goes down, the entry through it stays available. */
  lemma StaleRouteExample()
    ensures var t := Tables(0, [NONE, 5], [[0, 5], [NONE, 0]], [false, true], [Entry(NONE, NONE), Entry(1, 5)]);
            && t.WellFormed() && RouteAgrees(t, 1)
            && var u := t.WithLink(1, 1000).Recomputed();
               u.dv[0][1] == NONE && u.available[1] && u.route[1] == Entry(1, 5)
  {
    var t := Tables(0, [NONE, 5], [[0, 5], [NONE, 0]], [false, true], [Entry(NONE, NONE), Entry(1, 5)]);
    assert t.WellFormed();
    assert t.Usable(1, 1);
    var w := t.WithLink(1, 1000);
    assert w.linkCost == [NONE, NONE];
    assert w.Chosen(1, NONE, NONE);
    ChosenIsUnique(w, 1, NONE, NONE, w.MinDV(1).0, w.MinDV(1).1);
    assert w.Recomputed().EntryAt(1) == w.NewEntryAt(1);
  }
}
