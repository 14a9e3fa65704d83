/**
 Every storm of DVMSG steps ends, from every state: also after link failures, where
 distances count up towards infinity, and whatever rows are still in flight.

 Each channel with the sender's current row at its end is a chain of values per
 destination. A value that differs from the one before it weighs more the smaller it is,
 so much more that one consumed value pays for all the larger ones it can cause.
 */
module RouterStorm {
  import opened Sums
  import opened Wrappers
  import opened RouterTables
  import opened RouterNet
  import opened RouterExact
  import opened RouterLoopFree

  ghost function Pow(b: nat, k: nat): (p: nat)
    ensures b > 0 ==> p > 0
  {
    if k == 0 then 1 else b * Pow(b, k - 1)
  }

  ghost function Clamp(v: int): (k: nat) {
    if Distance(v) <= INFINITY then INFINITY - Distance(v) else 0
  }

  /** Weight of a value in a network of `n` routers. */
  ghost function Weight(n: nat, v: int): (w: nat)
    ensures n <= w
  {
    var p := Pow(2 * n + 1, Clamp(v));
    assert n * 1 <= n * p by { MulMonotone(n, 1, p); }
    n * p
  }

  lemma {:induction false} PowGrows(b: nat, j: nat, k: nat)
    requires b > 0 && j < k
    ensures Pow(b, k) >= b * Pow(b, j)
    decreases k
  {
    if j + 1 < k {
      PowGrows(b, j, k - 1);
      assert Pow(b, k) == b * Pow(b, k - 1);
      MulMonotone(Pow(b, k - 1), 1, b);
    }
  }

  /** A smaller value outweighs 2n + 1 larger ones. */
  lemma SmallerWeighsMore(n: nat, v: int, v': int)
    requires NONE <= v < INFINITY && NONE <= v' < INFINITY && Distance(v) < Distance(v')
    ensures Weight(n, v) >= (2 * n + 1) * Weight(n, v')
  {
    var b := 2 * n + 1;
    var p, p' := Pow(b, Clamp(v)), Pow(b, Clamp(v'));
    PowGrows(b, Clamp(v'), Clamp(v));
    MulMonotone(n, b * p', p);
    assert n * (b * p') == b * (n * p') by { MulSwap(n, b, p'); }
  }

  lemma MulSwap(a: int, b: int, c: int)
    ensures a * (b * c) == b * (a * c)
  {
  }

  /** Weight of one chain after the value `last`: queued rows, then the sender's own value. */
  ghost function ChainFrom(n: nat, last: int, q: seq<Row>, d: nat, own: int): (w: nat)
    requires forall k :: 0 <= k < |q| ==> |q[k]| == n
    requires d < n
    decreases |q|
  {
    if q == [] then (if own == last then 0 else 2 * Weight(n, own))
    else (if q[0][d] == last then 0 else 2 * Weight(n, q[0][d])) + ChainFrom(n, q[0][d], q[1..], d, own)
  }

  ghost function Chain(n: nat, stored: int, q: seq<Row>, d: nat, own: int): (w: nat)
    requires forall k :: 0 <= k < |q| ==> |q[k]| == n
    requires d < n
  {
    Weight(n, stored) + ChainFrom(n, stored, q, d, own)
  }

  /** Consuming the head of a chain releases the old stored value, if it differs. */
  lemma ChainPop(n: nat, stored: int, q: seq<Row>, d: nat, own: int)
    requires forall k :: 0 <= k < |q| ==> |q[k]| == n
    requires d < n && q != []
    ensures var head := q[0][d];
            Chain(n, stored, q, d, own) - Chain(n, head, q[1..], d, own)
            == if head == stored then 0 else Weight(n, stored) + Weight(n, head)
  {
  }

  lemma {:induction false} ChainNewOwn(n: nat, last: int, q: seq<Row>, d: nat, own: int, own': int)
    requires forall k :: 0 <= k < |q| ==> |q[k]| == n
    requires d < n
    decreases |q|
    ensures ChainFrom(n, last, q, d, own') <= ChainFrom(n, last, q, d, own) + 2 * Weight(n, own')
  {
    if q != [] {
      ChainNewOwn(n, q[0][d], q[1..], d, own, own');
    }
  }

  /** Announcing a value that the chain already ends with costs nothing. */
  lemma {:induction false} ChainAnnounce(n: nat, last: int, q: seq<Row>, d: nat, row: Row)
    requires forall k :: 0 <= k < |q| ==> |q[k]| == n
    requires d < n && |row| == n
    decreases |q|
    ensures ChainFrom(n, last, q + [row], d, row[d]) == ChainFrom(n, last, q, d, row[d])
  {
    if q == [] {
      assert q + [row] == [row];
      assert [row][1..] == [];
    } else {
      assert (q + [row])[1..] == q[1..] + [row];
      ChainAnnounce(n, q[0][d], q[1..], d, row);
    }
  }

  /** Chain of the channel from `a` to `b` at destination `d`; a router has no channel to itself. */
  ghost function ChainAt(net: Net, a: int, b: int, d: int): (w: nat)
    requires net.WellFormed()
  {
    if 0 <= a < |net.node| && 0 <= b < |net.node| && 0 <= d < |net.node| && a != b then
      Chain(|net.node|, net.node[b].dv[a][d], net.queue[a][b], d, net.OwnRow(a)[d])
    else 0
  }

  ghost function InFlight(net: Net, a: int, b: int): (count: nat)
    requires net.WellFormed()
  {
    if 0 <= a < |net.node| && 0 <= b < |net.node| then |net.queue[a][b]| else 0
  }

  ghost function WeightFrom(net: Net, d: int, a: int): (w: int)
    requires net.WellFormed()
  {
    Sum(|net.node|, b => ChainAt(net, a, b, d))
  }

  ghost function WeightAt(net: Net, d: int): (w: int)
    requires net.WellFormed()
  {
    Sum(|net.node|, a => WeightFrom(net, d, a))
  }

  ghost function MessagesFrom(net: Net, a: int): (count: int)
    requires net.WellFormed()
  {
    Sum(|net.node|, b => InFlight(net, a, b))
  }

  ghost function Messages(net: Net): (count: int)
    requires net.WellFormed()
  {
    Sum(|net.node|, a => MessagesFrom(net, a))
  }

  /** The termination measure of a storm. */
  ghost function Energy(net: Net): (e: int)
    requires net.WellFormed()
  {
    Messages(net) + Sum(|net.node|, d => WeightAt(net, d))
  }

  lemma EnergyNonNegative(net: Net)
    requires net.WellFormed()
    ensures 0 <= Messages(net) <= Energy(net)
  {
    var n := |net.node|;
    forall a | 0 <= a < n ensures 0 <= MessagesFrom(net, a) {
      SumNonNegative(n, b => InFlight(net, a, b));
    }
    SumNonNegative(n, a => MessagesFrom(net, a));
    forall d | 0 <= d < n ensures 0 <= WeightAt(net, d) {
      forall a | 0 <= a < n ensures 0 <= WeightFrom(net, d, a) {
        SumNonNegative(n, b => ChainAt(net, a, b, d));
      }
      SumNonNegative(n, a => WeightFrom(net, d, a));
    }
    SumNonNegative(n, d => WeightAt(net, d));
  }

  /** An own entry changes only because a smaller value was stored or replaced. */
  lemma ChangeHasCause(t: Tables, r: nat, row: Row, d: nat)
    requires t.WellFormed() && r < |t.linkCost| && r != t.own && ValidRow(row, |t.linkCost|)
    requires d < |t.linkCost| && d != t.own
    requires t.dv[t.own][d] == t.MinDV(d).0
    ensures var changed := t.WithRow(r, row).Recomputed().dv[t.own][d];
            changed != t.dv[t.own][d] ==>
              && row[d] != t.dv[r][d]
              && (Distance(row[d]) < Distance(changed) || Distance(t.dv[r][d]) < Distance(changed))
  {
    var u := t.WithRow(r, row);
    assert u.Recomputed().EntryAt(d) == u.NewEntryAt(d);
    var (cost, hop) := t.MinDV(d);
    var (cost', hop') := u.MinDV(d);
    assert forall x :: x != r ==> (u.Usable(x, d) <==> t.Usable(x, d));
    assert forall x :: x != r && t.Usable(x, d) ==> u.Via(x, d) == t.Via(x, d);
    if row[d] == t.dv[r][d] {
      assert u.dv[r][d] == t.dv[r][d];
      assert forall x :: u.Usable(x, d) <==> t.Usable(x, d);
      assert forall x :: t.Usable(x, d) ==> u.Via(x, d) == t.Via(x, d);
      assert u.Chosen(d, cost, hop);
      ChosenIsUnique(u, d, cost, hop, cost', hop');
    } else if Distance(cost') < Distance(cost) {
      assert u.Usable(hop', d);
      assert hop' == r;
    } else if Distance(cost) < Distance(cost') {
      assert t.Usable(hop, d);
      assert hop == r;
    }
  }

  lemma SumTwoMove(n: nat, f: int -> int, g: int -> int, x: nat, dx: int, y: nat, dy: int)
    requires x < n && y < n && x != y
    requires forall k :: 0 <= k < n && k != x && k != y ==> g(k) <= f(k)
    requires g(x) <= f(x) + dx && g(y) <= f(y) + dy
    ensures Sum(n, g) <= Sum(n, f) + dx + dy
  {
    var h := k => if k == x then g(x) else f(k);
    SumOneMoves(n, f, h, x, dx, 0);
    SumOneMoves(n, h, g, y, dy, 0);
  }

  /** What consuming the oldest row from `a` to `b` releases at destination `d`. */
  ghost function Released(net: Net, a: nat, b: nat, d: nat): (w: nat)
    requires net.WellFormed() && a < |net.node| && b < |net.node| && a != b && net.queue[a][b] != [] && d < |net.node|
  {
    var stored, head := net.node[b].dv[a][d], net.queue[a][b][0][d];
    if head == stored then 0 else Weight(|net.node|, stored) + Weight(|net.node|, head)
  }

  /** What each channel from `b` may gain at destination `d` by that. */
  ghost function Gained(net: Net, a: nat, b: nat, d: nat): (w: nat)
    requires net.WellFormed() && a < |net.node| && b < |net.node| && a != b && net.queue[a][b] != [] && d < |net.node|
  {
    var v' := net.Take(a, b).OwnRow(b)[d];
    if v' == net.OwnRow(b)[d] then 0 else 2 * Weight(|net.node|, v')
  }

  lemma TakeMovesChains(net: Net, a: nat, b: nat, d: nat, x: nat, y: nat)
    requires net.WellFormed() && a < |net.node| && b < |net.node| && a != b && net.queue[a][b] != []
    requires d < |net.node| && x < |net.node| && y < |net.node|
    ensures var chain, chain' := ChainAt(net, x, y, d), ChainAt(net.Take(a, b), x, y, d);
            && (x == a && y == b ==> chain' == chain - Released(net, a, b, d))
            && (x == b ==> chain' <= chain + Gained(net, a, b, d))
            && (x != b && !(x == a && y == b) ==> chain' == chain)
  {
    var n, net' := |net.node|, net.Take(a, b);
    if x == a && y == b {
      ChainPop(n, net.node[b].dv[a][d], net.queue[a][b], d, net.OwnRow(a)[d]);
    } else if x == b && y != b {
      ChainNewOwn(n, net.node[y].dv[b][d], net.queue[b][y], d, net.OwnRow(b)[d], net'.OwnRow(b)[d]);
    }
  }

  /** What taking a row does to the chains that start at one router. */
  lemma TakeMovesFrom(net: Net, a: nat, b: nat, d: nat, x: nat)
    requires net.WellFormed() && a < |net.node| && b < |net.node| && a != b && net.queue[a][b] != []
    requires d < |net.node| && x < |net.node|
    ensures var n, net' := |net.node|, net.Take(a, b);
            && |net'.node| == n
            && (x == a ==> WeightFrom(net', d, x) <= WeightFrom(net, d, x) - Released(net, a, b, d))
            && (x == b ==> WeightFrom(net', d, x) <= WeightFrom(net, d, x) + n * Gained(net, a, b, d))
            && (x != a && x != b ==> WeightFrom(net', d, x) <= WeightFrom(net, d, x))
  {
    var n, net' := |net.node|, net.Take(a, b);
    assert |net'.node| == n;
    hide ChainAt, Released, Gained, Net.Take;
    forall y | 0 <= y < n
      ensures x == a && y == b ==> ChainAt(net', x, y, d) == ChainAt(net, x, y, d) - Released(net, a, b, d)
      ensures x == b ==> ChainAt(net', x, y, d) <= ChainAt(net, x, y, d) + Gained(net, a, b, d)
      ensures x != b && !(x == a && y == b) ==> ChainAt(net', x, y, d) == ChainAt(net, x, y, d)
    {
      TakeMovesChains(net, a, b, d, x, y);
    }
    if x == a {
      var released: int := Released(net, a, b, d);
      SumOneMoves(n, y => ChainAt(net, a, y, d), y => ChainAt(net', a, y, d), b, -released, 0);
    } else if x == b {
      SumAllRise(n, y => ChainAt(net, b, y, d), y => ChainAt(net', b, y, d), Gained(net, a, b, d));
    } else {
      SumMonotone(n, y => ChainAt(net', x, y, d), y => ChainAt(net, x, y, d));
    }
  }

  lemma TakeMovesWeight(net: Net, a: nat, b: nat, d: nat)
    requires net.WellFormed() && a < |net.node| && b < |net.node| && a != b && net.queue[a][b] != []
    requires d < |net.node|
    ensures WeightAt(net.Take(a, b), d) <= WeightAt(net, d) - Released(net, a, b, d) + |net.node| * Gained(net, a, b, d)
  {
    hide ChainAt, Released, Gained, WeightFrom, Net.Take;
    var n, net' := |net.node|, net.Take(a, b);
    var released: int, rise: int := Released(net, a, b, d), n * Gained(net, a, b, d);
    TakeMovesFrom(net, a, b, d, a);
    TakeMovesFrom(net, a, b, d, b);
    forall x | 0 <= x < n && x != a && x != b ensures WeightFrom(net', d, x) <= WeightFrom(net, d, x) {
      TakeMovesFrom(net, a, b, d, x);
    }
    SumTwoMove(n, x => WeightFrom(net, d, x), x => WeightFrom(net', d, x), a, -released, b, rise);
  }

  lemma GainIsBounded(n: nat, w: nat)
    ensures n * (2 * w) + w == (2 * n + 1) * w
  {
  }

  lemma ReleasedIsEnough(net: Net, a: nat, b: nat, d: nat)
    requires net.Inv() && a < |net.node| && b < |net.node| && a != b && net.queue[a][b] != []
    requires d < |net.node| && net.Take(a, b).OwnRow(b)[d] != net.OwnRow(b)[d]
    ensures Released(net, a, b, d) >= |net.node| * Gained(net, a, b, d) + |net.node|
  {
    var n, v' := |net.node|, net.Take(a, b).OwnRow(b)[d];
    var t, row := net.node[b], net.queue[a][b][0];
    assert net.OwnIsMinimal(b);
    ChangeHasCause(t, a, row, d);
    GainIsBounded(n, Weight(n, v'));
    SmallerWeighsMore(n, if Distance(row[d]) < Distance(v') then row[d] else t.dv[a][d], v');
  }

  /** One consumed value pays for all the values it causes, at each destination. */
  lemma TakePays(net: Net, a: nat, b: nat, d: nat)
    requires net.Inv() && a < |net.node| && b < |net.node| && a != b && net.queue[a][b] != []
    requires d < |net.node|
    ensures var net' := net.Take(a, b);
            && WeightAt(net', d) <= WeightAt(net, d)
            && (net'.OwnRow(b)[d] != net.OwnRow(b)[d] ==> WeightAt(net', d) <= WeightAt(net, d) - |net.node|)
  {
    TakeMovesWeight(net, a, b, d);
    if net.Take(a, b).OwnRow(b)[d] == net.OwnRow(b)[d] {
      MulMonotone(|net.node|, Gained(net, a, b, d), 0);
    } else {
      ReleasedIsEnough(net, a, b, d);
    }
  }

  lemma AnnounceIsFree(net: Net, i: nat, d: nat)
    requires net.WellFormed() && i < |net.node| && d < |net.node|
    ensures WeightAt(net.Announce(i), d) == WeightAt(net, d)
  {
    var n, net' := |net.node|, net.Announce(i);
    forall x | 0 <= x < n ensures WeightFrom(net', d, x) == WeightFrom(net, d, x) {
      forall y | 0 <= y < n ensures ChainAt(net', x, y, d) == ChainAt(net, x, y, d) {
        if x == i && x != y {
          ChainAnnounce(n, net.node[y].dv[x][d], net.queue[x][y], d, net.OwnRow(x));
        }
      }
      SumSame(n, y => ChainAt(net', x, y, d), y => ChainAt(net, x, y, d));
    }
    SumSame(n, x => WeightFrom(net', d, x), x => WeightFrom(net, d, x));
  }

  lemma TakeRemovesOne(net: Net, a: nat, b: nat)
    requires net.WellFormed() && a < |net.node| && b < |net.node| && a != b && net.queue[a][b] != []
    ensures Messages(net.Take(a, b)) <= Messages(net) - 1
  {
    var n, net' := |net.node|, net.Take(a, b);
    SumOneMoves(n, y => InFlight(net, a, y), y => InFlight(net', a, y), b, -1, 0);
    forall x | 0 <= x < n && x != a ensures MessagesFrom(net', x) <= MessagesFrom(net, x) {
      SumMonotone(n, y => InFlight(net', x, y), y => InFlight(net, x, y));
    }
    SumOneMoves(n, x => MessagesFrom(net, x), x => MessagesFrom(net', x), a, -1, 0);
  }

  /** An announcement sends at most N - 1 messages. */
  lemma AnnounceAddsFew(net: Net, i: nat)
    requires net.WellFormed() && i < |net.node|
    ensures Messages(net.Announce(i)) <= Messages(net) + |net.node| - 1
  {
    var n, net' := |net.node|, net.Announce(i);
    SumOneMoves(n, y => InFlight(net, i, y), y => InFlight(net', i, y), i, 0, 1);
    forall x | 0 <= x < n && x != i ensures MessagesFrom(net', x) <= MessagesFrom(net, x) {
      SumMonotone(n, y => InFlight(net', x, y), y => InFlight(net, x, y));
    }
    SumOneMoves(n, x => MessagesFrom(net, x), x => MessagesFrom(net', x), i, n - 1, 0);
  }

  /** Every DVMSG step lowers the energy, although it may send up to N - 1 new messages. */
  lemma DeliverLosesEnergy(net: Net, a: nat, b: nat)
    requires net.Inv() && a < |net.node| && b < |net.node| && a != b && net.queue[a][b] != []
    ensures Energy(net.Deliver(a, b)) < Energy(net)
  {
    var n, net', net'' := |net.node|, net.Take(a, b), net.Deliver(a, b);
    var changed := net'.OwnRow(b) != net.OwnRow(b);
    TakeRemovesOne(net, a, b);
    forall d | 0 <= d < n
      ensures WeightAt(net'', d) <= WeightAt(net, d)
      ensures net'.OwnRow(b)[d] != net.OwnRow(b)[d] ==> WeightAt(net'', d) <= WeightAt(net, d) - n
    {
      TakePays(net, a, b, d);
      if changed {
        AnnounceIsFree(net', b, d);
      }
    }
    if changed {
      var d :| 0 <= d < n && net'.OwnRow(b)[d] != net.OwnRow(b)[d];
      AnnounceAddsFew(net', b);
      SumOneMoves(n, k => WeightAt(net, k), k => WeightAt(net'', k), d, -n, 0);
    } else {
      SumMonotone(n, k => WeightAt(net'', k), k => WeightAt(net, k));
    }
  }

  ghost predicate IsStorm(steps: seq<Step>) {
    forall k :: 0 <= k < |steps| ==> steps[k].DvMsg?
  }

  lemma {:induction false} StormLosesEnergy(nets: seq<Net>, steps: seq<Step>, k: nat)
    requires IsExecution(nets, steps) && IsStorm(steps) && nets[0].Inv() && k <= |steps|
    ensures nets[k].Inv() && Energy(nets[k]) <= Energy(nets[0]) - k
  {
    if k > 0 {
      StormLosesEnergy(nets, steps, k - 1);
      NextInv(nets[k - 1], steps[k - 1]);
      DeliverLosesEnergy(nets[k - 1], steps[k - 1].from, steps[k - 1].to);
    }
  }

  /**
     Termination: after any run whatsoever, with any mix of DV, UPDATE and DVMSG steps, a
     storm that handles messages in any order has at most as many steps as the energy of the
     state it starts from.
     */
  lemma StormsEnd(net: Net, nets: seq<Net>, steps: seq<Step>)
    requires Reachable(net) && IsExecution(nets, steps) && IsStorm(steps) && nets[0] == net
    ensures net.WellFormed() && |steps| <= Energy(net)
  {
    ReachableInv(net);
    StormLosesEnergy(nets, steps, |steps|);
    EnergyNonNegative(nets[|steps|]);
  }

  ghost predicate SameLinks(net: Net, net': Net)
    requires net.WellFormed() && net'.WellFormed()
  {
    && |net'.node| == |net.node|
    && forall i :: 0 <= i < |net.node| ==> net'.node[i].linkCost == net.node[i].linkCost
  }

  lemma DeliverKeepsLinks(net: Net, a: nat, b: nat)
    requires net.WellFormed() && a < |net.node| && b < |net.node| && a != b && net.queue[a][b] != []
    requires AllAnnounced(net)
    ensures SameLinks(net, net.Deliver(a, b)) && AllAnnounced(net.Deliver(a, b))
  {
  }

  lemma {:induction false} StormKeepsLinks(nets: seq<Net>, steps: seq<Step>, k: nat)
    requires IsExecution(nets, steps) && IsStorm(steps) && nets[0].Inv() && AllAnnounced(nets[0]) && k <= |steps|
    ensures nets[k].Inv() && SameLinks(nets[0], nets[k]) && AllAnnounced(nets[k])
  {
    if k > 0 {
      StormKeepsLinks(nets, steps, k - 1);
      NextInv(nets[k - 1], steps[k - 1]);
      DeliverKeepsLinks(nets[k - 1], steps[k - 1].from, steps[k - 1].to);
    }
  }

  /**
     Convergence: take any reachable state, however disturbed by UPDATEs, in which links are
     symmetric and every router has announced. Let the storm run until no message is left,
     in any order. Then every router holds the exact cheapest cost to every destination in
     the topology the storm started with.
     */
  lemma FinishedStormsAreExact(net: Net, nets: seq<Net>, steps: seq<Step>, i: nat, d: nat)
    requires Reachable(net) && IsExecution(nets, steps) && IsStorm(steps) && nets[0] == net
    requires net.WellFormed() && SymmetricLinks(net) && AllAnnounced(net)
    requires forall a, b :: !Enabled(nets[|steps|], DvMsg(a, b))
    requires i < |net.node| && d < |net.node|
    ensures nets[|steps|].WellFormed() && |nets[|steps|].node| == |net.node|
    ensures IsCheapest(net, i, d, nets[|steps|].OwnRow(i)[d])
  {
    ReachableInv(net);
    StormKeepsLinks(nets, steps, |steps|);
    var end := nets[|steps|];
    forall a, b | 0 <= a < |end.node| && 0 <= b < |end.node| ensures end.queue[a][b] == [] {
      assert !Enabled(end, DvMsg(a, b));
    }
    forall a, b | 0 <= a < |end.node| && 0 <= b < |end.node| && end.Neighbour(a, b) ensures end.Neighbour(b, a) {
      assert net.Neighbour(a, b);
    }
    QuietIsInSync(end);
    InSyncIsExact(end, i, d);
    CheapestDependsOnLinks(end, net, i, d, end.OwnRow(i)[d]);
  }

  lemma {:induction false} WalkDependsOnLinks(net: Net, net': Net, p: seq<nat>, i: nat, d: nat)
    requires net.WellFormed() && net'.WellFormed() && SameLinks(net, net') && WalkFromTo(net, p, i, d)
    ensures WalkFromTo(net', p, i, d) && WalkCost(net', p) == WalkCost(net, p)
    decreases |p|
  {
    forall k | 0 <= k < |p| - 1 ensures net'.Neighbour(p[k], p[k + 1]) {
      assert net.Neighbour(p[k], p[k + 1]);
    }
    if |p| > 1 {
      var q := p[1..];
      forall k | 0 <= k < |q| - 1 ensures net.Neighbour(q[k], q[k + 1]) {
        assert net.Neighbour(p[k + 1], p[k + 2]);
      }
      WalkDependsOnLinks(net, net', q, p[1], d);
    }
  }

  lemma CheapestDependsOnLinks(net: Net, net': Net, i: nat, d: nat, cost: int)
    requires net.WellFormed() && net'.WellFormed() && SameLinks(net, net')
    requires i < |net.node| && d < |net.node| && IsCheapest(net, i, d, cost)
    ensures IsCheapest(net', i, d, cost)
  {
    forall p | WalkFromTo(net', p, i, d) ensures WalkFromTo(net, p, i, d) && WalkCost(net, p) == WalkCost(net', p) {
      WalkDependsOnLinks(net', net, p, i, d);
    }
    if cost != NONE {
      var p :| WalkFromTo(net, p, i, d) && WalkCost(net, p) == cost;
      WalkDependsOnLinks(net, net', p, i, d);
    }
  }

  ghost function OwnDistance(net: Net, i: int, d: int): (distance: nat)
    requires net.WellFormed()
  {
    if 0 <= i < |net.node| && 0 <= d < |net.node| then Distance(net.OwnRow(i)[d]) else 0
  }

  ghost function OwnTotal(net: Net, i: int): (total: int)
    requires net.WellFormed()
  {
    Sum(|net.node|, d => OwnDistance(net, i, d))
  }

  ghost function OwnSum(net: Net): (total: int)
    requires net.WellFormed()
  {
    Sum(|net.node|, i => OwnTotal(net, i))
  }

  /** Messages in flight plus N times the sum of all own entries, NONE counted as infinity. */
  ghost function Potential(net: Net): (p: int)
    requires net.WellFormed()
  {
    Messages(net) + |net.node| * OwnSum(net)
  }

  lemma BetterRowLowersTotal(net: Net, net': Net, b: nat)
    requires net.WellFormed() && net'.WellFormed() && |net'.node| == |net.node| && b < |net.node|
    requires forall i :: 0 <= i < |net.node| && i != b ==> net'.OwnRow(i) == net.OwnRow(i)
    requires AtLeast(net.OwnRow(b), net'.OwnRow(b))
    ensures OwnSum(net') <= OwnSum(net) - if net'.OwnRow(b) == net.OwnRow(b) then 0 else 1
  {
    var n := |net.node|;
    var drop: int := if net'.OwnRow(b) == net.OwnRow(b) then 0 else 1;
    forall i | 0 <= i < n && i != b ensures OwnTotal(net', i) <= OwnTotal(net, i) {
      SumMonotone(n, d => OwnDistance(net', i, d), d => OwnDistance(net, i, d));
    }
    if drop == 1 {
      var d :| 0 <= d < n && net'.OwnRow(b)[d] != net.OwnRow(b)[d];
      SumOneMoves(n, k => OwnDistance(net, b, k), k => OwnDistance(net', b, k), d, -1, 0);
    } else {
      SumMonotone(n, k => OwnDistance(net', b, k), k => OwnDistance(net, b, k));
    }
    SumOneMoves(n, i => OwnTotal(net, i), i => OwnTotal(net', i), b, -drop, 0);
  }

  /** Only the receiver's own row changes, and only for the better. */
  lemma DeliverImproves(net: Net, a: nat, b: nat)
    requires StaticInv(net) && a < |net.node| && b < |net.node| && a != b && net.queue[a][b] != []
    ensures var net' := net.Deliver(a, b);
            && |net'.node| == |net.node|
            && (forall i :: 0 <= i < |net.node| && i != b ==> net'.OwnRow(i) == net.OwnRow(i))
            && AtLeast(net.OwnRow(b), net'.OwnRow(b))
            && Messages(net') <= Messages(net) - 1 + if net'.OwnRow(b) == net.OwnRow(b) then 0 else |net.node| - 1
  {
    TakeStaticInv(net, a, b);
    TakeRemovesOne(net, a, b);
    AnnounceAddsFew(net.Take(a, b), b);
  }

  /** In a static topology the polynomial potential falls too. */
  lemma DeliverLosesPotential(net: Net, a: nat, b: nat)
    requires StaticInv(net) && a < |net.node| && b < |net.node| && a != b && net.queue[a][b] != []
    ensures Potential(net.Deliver(a, b)) < Potential(net)
  {
    var net' := net.Deliver(a, b);
    DeliverImproves(net, a, b);
    BetterRowLowersTotal(net, net', b);
    hide *;
    PotentialArithmetic(|net.node|, Messages(net), Messages(net'), OwnSum(net), OwnSum(net'));
    assert Potential(net') < Potential(net) by { PotentialIs(net); PotentialIs(net'); }
  }

  lemma PotentialIs(net: Net)
    requires net.WellFormed()
    ensures Potential(net) == Messages(net) + |net.node| * OwnSum(net)
  {
  }

  lemma PotentialArithmetic(n: nat, m: int, m': int, s: int, s': int)
    requires (m' <= m - 1 && s' <= s) || (m' <= m + n - 2 && s' <= s - 1)
    ensures m' + n * s' < m + n * s
  {
    if s' <= s - 1 {
      MulMonotone(n, s', s - 1);
      assert n * (s - 1) == n * s - n;
    } else {
      MulMonotone(n, s', s);
    }
  }

  lemma {:induction false} StaticStormLosesPotential(nets: seq<Net>, steps: seq<Step>, k: nat)
    requires IsExecution(nets, steps) && IsStorm(steps) && StaticInv(nets[0]) && k <= |steps|
    ensures StaticInv(nets[k]) && Potential(nets[k]) <= Potential(nets[0]) - k
  {
    if k > 0 {
      StaticStormLosesPotential(nets, steps, k - 1);
      NextStaticInv(nets[k - 1], steps[k - 1]);
      DeliverLosesPotential(nets[k - 1], steps[k - 1].from, steps[k - 1].to);
    }
  }

  lemma PotentialNonNegative(net: Net)
    requires net.WellFormed()
    ensures 0 <= Potential(net)
  {
    var n := |net.node|;
    EnergyNonNegative(net);
    forall i | 0 <= i < n ensures 0 <= OwnTotal(net, i) {
      SumNonNegative(n, d => OwnDistance(net, i, d));
    }
    SumNonNegative(n, i => OwnTotal(net, i));
    MulMonotone(n, 0, OwnSum(net));
  }

  /** Without UPDATEs a storm ends within a polynomial number of steps. */
  lemma StaticStormsEndSoon(net: Net, nets: seq<Net>, steps: seq<Step>)
    requires ReachableStatically(net) && IsExecution(nets, steps) && IsStorm(steps) && nets[0] == net
    ensures net.WellFormed() && |steps| <= Potential(net)
  {
    ReachableStaticInv(net);
    StaticStormLosesPotential(nets, steps, |steps|);
    PotentialNonNegative(nets[|steps|]);
  }
}
