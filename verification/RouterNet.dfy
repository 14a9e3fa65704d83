/**
 N routers joined by FIFO channels. A step is one handled message: the handler runs
 under one mutex, so its reads and writes are atomic.
 */
module RouterNet {
  import opened RouterTables

  datatype Net = Net(
    node: seq<Tables>,
    queue: seq<seq<seq<Row>>>,  // queue[a][b]: rows sent by a to b and not yet handled
    announced: seq<bool>)       // history: announced since its last UPDATE
  {
    ghost predicate WellFormed() {
      && var n := |node|;
      && |queue| == |announced| == n
      && (forall i :: 0 <= i < n ==> node[i].WellFormed() && node[i].own == i && |node[i].linkCost| == n)
      && (forall a :: 0 <= a < n ==> |queue[a]| == n && queue[a][a] == [])
      && (forall a, b, k :: 0 <= a < n && 0 <= b < n && 0 <= k < |queue[a][b]| ==> ValidRow(queue[a][b][k], n))
    }

    ghost function OwnRow(i: nat): (row: Row)
      requires WellFormed() && i < |node|
      ensures ValidRow(row, |node|) && row[i] == 0
    {
      node[i].dv[i]
    }

    ghost predicate Neighbour(i: nat, j: nat)
      requires WellFormed() && i < |node| && j < |node|
    {
      node[i].linkCost[j] != NONE
    }

    /** Every own entry is the minimum over the neighbours' stored rows. */
    ghost predicate OwnIsMinimal(i: nat)
      requires WellFormed() && i < |node|
    {
      forall d :: 0 <= d < |node| && d != i ==> OwnRow(i)[d] == node[i].MinDV(d).0
    }

    /** The newest row that `a` sent to `b`, or the stored one when none is in flight. */
    ghost function LastSent(a: nat, b: nat): Row
      requires WellFormed() && a < |node| && b < |node|
    {
      if queue[a][b] == [] then node[b].dv[a] else queue[a][b][|queue[a][b]| - 1]
    }

    /** A router that announced since its last UPDATE has told its neighbours its current row. */
    ghost predicate NewsIsOut(i: nat)
      requires WellFormed() && i < |node|
    {
      announced[i] ==>
        forall j :: 0 <= j < |node| && Neighbour(i, j) ==> LastSent(i, j) == OwnRow(i)
    }

    ghost predicate Inv() {
      && WellFormed()
      && (forall i :: 0 <= i < |node| ==> OwnIsMinimal(i))
      && (forall i :: 0 <= i < |node| ==> NewsIsOut(i))
    }

    ghost function QueuesAfterAnnounce(i: nat): (q: seq<seq<seq<Row>>>)
      requires WellFormed() && i < |node|
      ensures |q| == |node|
      ensures forall a :: 0 <= a < |node| ==> |q[a]| == |node|
    {
      seq(|node|, a requires 0 <= a < |node| =>
        seq(|node|, b requires 0 <= b < |node| =>
          if a == i && node[i].linkCost[b] != NONE then queue[a][b] + [OwnRow(i)] else queue[a][b]))
    }

    /** DV: send the own row to every current neighbour. */
    ghost function Announce(i: nat): (net: Net)
      requires WellFormed() && i < |node|
      ensures net.WellFormed()
    {
      this.(queue := QueuesAfterAnnounce(i), announced := announced[i := true])
    }

    /** UPDATE: change one link at one end, recompute, tell nobody. */
    ghost function ChangeLink(i: nat, j: nat, weight: int): (net: Net)
      requires WellFormed() && i < |node| && j < |node| && i != j
      requires ValidCost(Tables.EffectiveWeight(weight))
      ensures net.WellFormed()
    {
      this.(node := node[i := node[i].WithLink(j, weight).Recomputed()], announced := announced[i := false])
    }

    /** Take the oldest row from `a` out of the channel to `b`, store it and recompute. */
    ghost function Take(a: nat, b: nat): (net: Net)
      requires WellFormed() && a < |node| && b < |node| && a != b && queue[a][b] != []
      ensures net.WellFormed()
    {
      this.(node := node[b := node[b].WithRow(a, queue[a][b][0]).Recomputed()],
            queue := queue[a := queue[a][b := queue[a][b][1..]]])
    }

    /** DVMSG: take a row, and announce if the own row changed. */
    ghost function Deliver(a: nat, b: nat): (net: Net)
      requires WellFormed() && a < |node| && b < |node| && a != b && queue[a][b] != []
      ensures net.WellFormed()
    {
      var net := Take(a, b);
      if net.OwnRow(b) != OwnRow(b) then net.Announce(b) else net
    }
  }

  datatype Step =
    | Dv(who: nat)
    | Update(who: nat, to: nat, weight: int)
    | DvMsg(from: nat, to: nat)

  ghost predicate Enabled(net: Net, step: Step) {
    && net.WellFormed()
    && match step
       case Dv(i) => i < |net.node|
       case Update(i, j, weight) =>
         i < |net.node| && j < |net.node| && i != j && ValidCost(Tables.EffectiveWeight(weight))
       case DvMsg(a, b) => a < |net.node| && b < |net.node| && a != b && net.queue[a][b] != []
  }

  ghost function Next(net: Net, step: Step): (net': Net)
    requires Enabled(net, step)
    ensures net'.WellFormed()
  {
    match step
    case Dv(i) => net.Announce(i)
    case Update(i, j, weight) => net.ChangeLink(i, j, weight)
    case DvMsg(a, b) => net.Deliver(a, b)
  }

  ghost predicate Initial(net: Net) {
    && net.WellFormed()
    && (forall i :: 0 <= i < |net.node| ==> net.node[i].IsInitial(net.node[i].linkCost))
    && (forall a, b :: 0 <= a < |net.node| && 0 <= b < |net.node| ==> net.queue[a][b] == [])
    && (forall i :: 0 <= i < |net.node| ==> !net.announced[i])
  }

  /** `nets` are the states passed through when `steps` are executed from `nets[0]`. */
  ghost predicate IsExecution(nets: seq<Net>, steps: seq<Step>) {
    && |nets| == |steps| + 1
    && forall k :: 0 <= k < |steps| ==> Enabled(nets[k], steps[k]) && nets[k + 1] == Next(nets[k], steps[k])
  }

  ghost predicate IsRun(nets: seq<Net>, steps: seq<Step>) {
    IsExecution(nets, steps) && Initial(nets[0])
  }

  ghost predicate Reachable(net: Net) {
    exists nets, steps :: IsRun(nets, steps) && nets[|steps|] == net
  }

  lemma InitialTablesAreMinimal(t: Tables, d: nat)
    requires t.IsInitial(t.linkCost) && d < |t.linkCost| && d != t.own
    ensures t.dv[t.own][d] == t.MinDV(d).0
  {
    var hop := if t.linkCost[d] == NONE then NONE else d;
    assert forall r :: t.Usable(r, d) ==> r == d;
    assert t.Chosen(d, t.linkCost[d], hop);
    ChosenIsUnique(t, d, t.linkCost[d], hop, t.MinDV(d).0, t.MinDV(d).1);
  }

  lemma RecomputedIsMinimal(t: Tables, d: nat)
    requires t.WellFormed() && d < |t.linkCost| && d != t.own
    ensures t.Recomputed().dv[t.own][d] == t.Recomputed().MinDV(d).0 == t.MinDV(d).0
  {
    var u := t.Recomputed();
    assert u.EntryAt(d) == t.NewEntryAt(d);
    MinDVIgnoresOwnRow(t, u, d);
  }

  lemma InitialInv(net: Net)
    requires Initial(net)
    ensures net.Inv()
  {
    forall i, d | 0 <= i < |net.node| && 0 <= d < |net.node| && d != i
      ensures net.OwnRow(i)[d] == net.node[i].MinDV(d).0
    {
      InitialTablesAreMinimal(net.node[i], d);
    }
  }

  lemma AnnounceInv(net: Net, i: nat)
    requires net.WellFormed() && i < |net.node|
    requires forall k :: 0 <= k < |net.node| ==> net.OwnIsMinimal(k)
    requires forall k :: 0 <= k < |net.node| && k != i ==> net.NewsIsOut(k)
    ensures net.Announce(i).Inv()
  {
    var net' := net.Announce(i);
    forall k | 0 <= k < |net.node| ensures net'.NewsIsOut(k) && net'.OwnIsMinimal(k) {
      assert net.OwnIsMinimal(k);
      assert k != i ==> net.NewsIsOut(k);
      assert forall j :: 0 <= j < |net.node| && k != i ==> net'.LastSent(k, j) == net.LastSent(k, j);
    }
  }

  lemma ChangeLinkInv(net: Net, i: nat, j: nat, weight: int)
    requires net.Inv() && i < |net.node| && j < |net.node| && i != j
    requires ValidCost(Tables.EffectiveWeight(weight))
    ensures net.ChangeLink(i, j, weight).Inv()
  {
    var net' := net.ChangeLink(i, j, weight);
    forall k | 0 <= k < |net.node| ensures net'.OwnIsMinimal(k) && net'.NewsIsOut(k) {
      assert net.OwnIsMinimal(k) && net.NewsIsOut(k);
      if k == i {
        forall d | 0 <= d < |net.node| && d != i ensures net'.OwnRow(i)[d] == net'.node[i].MinDV(d).0 {
          RecomputedIsMinimal(net.node[i].WithLink(j, weight), d);
        }
      } else {
        assert forall b :: 0 <= b < |net.node| ==> net'.LastSent(k, b) == net.LastSent(k, b);
      }
    }
  }

  lemma TakeInv(net: Net, a: nat, b: nat)
    requires net.Inv() && a < |net.node| && b < |net.node| && a != b && net.queue[a][b] != []
    ensures var net' := net.Take(a, b);
            && (forall k :: 0 <= k < |net.node| ==> net'.OwnIsMinimal(k))
            && (forall k :: 0 <= k < |net.node| && (k != b || net'.OwnRow(b) == net.OwnRow(b)) ==> net'.NewsIsOut(k))
  {
    var net' := net.Take(a, b);
    forall k | 0 <= k < |net.node|
      ensures net'.OwnIsMinimal(k)
      ensures k != b || net'.OwnRow(b) == net.OwnRow(b) ==> net'.NewsIsOut(k)
    {
      assert net.OwnIsMinimal(k) && net.NewsIsOut(k);
      if k == b {
        forall d | 0 <= d < |net.node| && d != b ensures net'.OwnRow(b)[d] == net'.node[b].MinDV(d).0 {
          RecomputedIsMinimal(net.node[b].WithRow(a, net.queue[a][b][0]), d);
        }
      }
      forall j | 0 <= j < |net.node| && j != k ensures net'.LastSent(k, j) == net.LastSent(k, j) {
      }
    }
  }

  /** Every step keeps the invariant. */
  lemma NextInv(net: Net, step: Step)
    requires net.Inv() && Enabled(net, step)
    ensures Next(net, step).Inv()
  {
    match step
    case Dv(i) => AnnounceInv(net, i);
    case Update(i, j, weight) => ChangeLinkInv(net, i, j, weight);
    case DvMsg(a, b) =>
      TakeInv(net, a, b);
      if net.Take(a, b).OwnRow(b) != net.OwnRow(b) {
        AnnounceInv(net.Take(a, b), b);
      }
  }

  /** Safety over whole runs: the invariant holds in every state of every execution that starts with it. */
  lemma {:induction false} ExecutionInv(nets: seq<Net>, steps: seq<Step>, k: nat)
    requires IsExecution(nets, steps) && nets[0].Inv() && k <= |steps|
    ensures nets[k].Inv() && |nets[k].node| == |nets[0].node|
  {
    if k > 0 {
      ExecutionInv(nets, steps, k - 1);
      NextInv(nets[k - 1], steps[k - 1]);
    }
  }

  lemma ReachableInv(net: Net)
    requires Reachable(net)
    ensures net.Inv()
  {
    var nets, steps :| IsRun(nets, steps) && nets[|steps|] == net;
    InitialInv(nets[0]);
    ExecutionInv(nets, steps, |steps|);
  }

  // ---- what an UPDATE of a link does to the sender's own entry

  /** Every row says 0 for its sender, wherever it is stored or under way. */
  ghost predicate SelfIsZero(net: Net)
    requires net.WellFormed()
  {
    && (forall i, a :: 0 <= i < |net.node| && 0 <= a < |net.node| ==> net.node[i].dv[a][a] == 0)
    && (forall a, b, k :: 0 <= a < |net.node| && 0 <= b < |net.node| && 0 <= k < |net.queue[a][b]| ==>
          net.queue[a][b][k][a] == 0)
  }

  lemma AnnounceSelfIsZero(net: Net, i: nat)
    requires net.WellFormed() && SelfIsZero(net) && i < |net.node|
    ensures SelfIsZero(net.Announce(i))
  {
  }

  lemma TakeSelfIsZero(net: Net, a: nat, b: nat)
    requires net.WellFormed() && SelfIsZero(net)
    requires a < |net.node| && b < |net.node| && a != b && net.queue[a][b] != []
    ensures SelfIsZero(net.Take(a, b))
  {
    var net' := net.Take(a, b);
    forall i, c | 0 <= i < |net.node| && 0 <= c < |net.node| ensures net'.node[i].dv[c][c] == 0 {
      if i == b && c != b {
        assert net'.node[b].dv[c] == net.node[b].WithRow(a, net.queue[a][b][0]).dv[c];
      }
    }
  }

  lemma NextSelfIsZero(net: Net, step: Step)
    requires Enabled(net, step) && SelfIsZero(net)
    ensures SelfIsZero(Next(net, step))
  {
    match step
    case Dv(i) => AnnounceSelfIsZero(net, i);
    case Update(i, j, weight) =>
      forall k, c | 0 <= k < |net.node| && 0 <= c < |net.node| ensures Next(net, step).node[k].dv[c][c] == 0 {
        if k == i && c != i {
          assert Next(net, step).node[i].dv[c] == net.node[i].dv[c];
        }
      }
    case DvMsg(a, b) =>
      TakeSelfIsZero(net, a, b);
      if net.Take(a, b).OwnRow(b) != net.OwnRow(b) {
        AnnounceSelfIsZero(net.Take(a, b), b);
      }
  }

  lemma {:induction false} ExecutionSelfIsZero(nets: seq<Net>, steps: seq<Step>, k: nat)
    requires IsRun(nets, steps) && k <= |steps|
    ensures nets[k].WellFormed() && SelfIsZero(nets[k])
  {
    if k > 0 {
      hide Enabled, Next;
      ExecutionSelfIsZero(nets, steps, k - 1);
      NextSelfIsZero(nets[k - 1], steps[k - 1]);
    }
  }

  /**
     In every reachable network: UPDATE with a weight below 10000 other than 1000 opens the link at
     that cost, and the router knows a way to the neighbour that costs no more; 1000 closes the
     link. No other link, no other router and no channel changes.
     */
  lemma UpdateOpensOrCloses(net: Net, i: nat, j: nat, weight: int)
    requires Reachable(net) && Enabled(net, Update(i, j, weight))
    ensures var net' := Next(net, Update(i, j, weight));
            && net'.node[i].linkCost == net.node[i].linkCost[j := if weight == 1000 then -1 else weight]
            && net'.queue == net.queue && net'.node == net.node[i := net'.node[i]]
            && (1 <= weight < 10000 && weight != 1000 ==>
                  net'.Neighbour(i, j) && 1 <= net'.OwnRow(i)[j] <= weight)
            && (weight == 1000 ==> !net'.Neighbour(i, j))
  {
    var nets, steps :| IsRun(nets, steps) && nets[|steps|] == net;
    ExecutionSelfIsZero(nets, steps, |steps|);
    var u := net.node[i].WithLink(j, weight);
    assert u.Recomputed().EntryAt(j) == u.NewEntryAt(j);
    if 1 <= weight < 10000 && weight != 1000 {
      assert net.node[i].dv[j][j] == 0;
      assert u.Usable(j, j) && u.Via(j, j) == weight;
    }
  }

  // ---- the steps in full

  /** DV moves nothing but the rows it sends. */
  lemma Announced(net: Net, i: nat, j: nat)
    requires net.WellFormed() && i < |net.node| && j < |net.node|
    ensures var net' := net.Announce(i);
            && net'.node == net.node
            && net'.queue[i][j] == (if net.node[i].linkCost[j] != NONE then net.queue[i][j] + [net.OwnRow(i)]
                                    else net.queue[i][j])
            && forall a :: 0 <= a < |net.node| && a != i ==> net'.queue[a] == net.queue[a]
  {
    forall a | 0 <= a < |net.node| && a != i ensures net.Announce(i).queue[a] == net.queue[a] {
      assert forall b :: 0 <= b < |net.node| ==> net.Announce(i).queue[a][b] == net.queue[a][b];
    }
  }

  /** DVMSG stores the row and recomputes; exactly when that changes the own row, it is sent to every neighbour. */
  lemma DeliveredInFull(net: Net, a: nat, b: nat, j: nat)
    requires Enabled(net, DvMsg(a, b)) && j < |net.node|
    ensures var net', u := net.Deliver(a, b), net.node[b].WithRow(a, net.queue[a][b][0]).Recomputed();
            && net'.node == net.node[b := u]
            && net'.queue[a][b] == net.queue[a][b][1..]
            && (j != b ==> net'.queue[a][j] == net.queue[a][j])
            && net'.queue[b][j] == (if u.dv[b] != net.node[b].dv[b] && u.linkCost[j] != -1
                                    then net.queue[b][j] + [u.dv[b]] else net.queue[b][j])
            && forall x :: 0 <= x < |net.node| && x != a && x != b ==> net'.queue[x] == net.queue[x]
  {
    Announced(net.Take(a, b), b, j);
  }
}
