/**
 A run that leaves a stale routing entry at a router which never had an UPDATE. Routers 1 and 2
 both join router 0 to router 3 at the same cost; when the link from 1 to 3 gets worse, the tie
 through 2 keeps the cost at 0, whose entry goes on naming 1.
 */
module RouterStaleRun {
  import opened RouterTables
  import opened RouterNet
  import opened RouterLoopFree

  /** The tables of router `i` after start-up with these links. */
  function Start(i: nat, cost: seq<int>): (t: Tables)
    requires i < |cost|
  {
    var n := |cost|;
    Tables(i, cost,
           seq(n, r requires 0 <= r < n =>
             seq(n, d requires 0 <= d < n => if r == d then 0 else if r == i then cost[d] else NONE)),
           seq(n, d requires 0 <= d < n => cost[d] != NONE),
           seq(n, d requires 0 <= d < n => Entry(d, cost[d])))
  }

  function Diamond(): (net: Net) {
    Net([Start(0, [NONE, 1, 1, NONE]), Start(1, [1, NONE, NONE, 1]), Start(2, [1, NONE, NONE, 1]),
         Start(3, [NONE, 1, 1, NONE])],
        seq(4, _ => seq(4, _ => [])),
        seq(4, _ => false))
  }

  lemma StartIsInitial(i: nat, cost: seq<int>)
    requires i < |cost| && cost[i] == NONE
    requires forall r :: 0 <= r < |cost| ==> cost[r] == NONE || 1 <= cost[r] < INFINITY
    ensures Start(i, cost).IsInitial(cost) && Start(i, cost).own == i && Start(i, cost).linkCost == cost
  {
  }

  lemma DiamondIsInitial()
    ensures Initial(Diamond())
  {
    hide Start, Tables.IsInitial;
    StartIsInitial(0, [NONE, 1, 1, NONE]);
    StartIsInitial(1, [1, NONE, NONE, 1]);
    StartIsInitial(2, [1, NONE, NONE, 1]);
    StartIsInitial(3, [NONE, 1, 1, NONE]);
    var net := Diamond();
    forall i | 0 <= i < 4 ensures net.node[i].IsInitial(net.node[i].linkCost) && net.node[i].own == i {
    }
    InitialIsWellFormed(net);
  }

  lemma InitialIsWellFormed(net: Net)
    requires |net.node| == |net.queue| == |net.announced| == 4
    requires net.queue == seq(4, _ => seq(4, _ => [])) && net.announced == seq(4, _ => false)
    requires forall i :: 0 <= i < 4 ==>
               net.node[i].IsInitial(net.node[i].linkCost) && net.node[i].own == i && |net.node[i].linkCost| == 4
    ensures Initial(net)
  {
  }

  /** The tables after a recomputation whose choice for `d` is known. */
  lemma RecomputedAtKnown(u: Tables, d: nat, cost: int, hop: int)
    requires u.WellFormed() && d < |u.linkCost| && d != u.own && u.Chosen(d, cost, hop)
    ensures var v := u.Recomputed();
            v.EntryAt(d) == if cost != u.dv[u.own][d] && cost != NONE then (cost, true, Entry(hop, cost))
                            else (cost, u.available[d], u.route[d])
  {
    ChosenIsUnique(u, d, cost, hop, u.MinDV(d).0, u.MinDV(d).1);
    assert u.Recomputed().EntryAt(d) == u.NewEntryAt(d);
  }

  /** DVMSG changes the tables of the receiver, takes the row, and may send the receiver's row on. */
  lemma Delivered(net: Net, a: nat, b: nat)
    requires Enabled(net, DvMsg(a, b))
    ensures var net', u := net.Deliver(a, b), net.node[b].WithRow(a, net.queue[a][b][0]);
            && net'.node == net.node[b := u.Recomputed()]
            && net'.queue[a][b] == net.queue[a][b][1..]
            && forall x :: 0 <= x < |net.node| && x != a && x != b ==> net'.queue[x] == net.queue[x]
  {
    Announced(net.Take(a, b), b, b);
  }

  /** What router 0 knows about destination 3: its entry, and the distances its two neighbours told. */
  ghost predicate Knows(t: Tables, entry: (int, bool, Entry), viaOne: int, viaTwo: int) {
    && t.WellFormed() && t.own == 0 && t.linkCost == [NONE, 1, 1, NONE]
    && t.EntryAt(3) == entry && t.dv[1][3] == viaOne && t.dv[2][3] == viaTwo
  }

  lemma KnowsAfterRow(t: Tables, entry: (int, bool, Entry), viaOne: int, viaTwo: int, r: nat, row: Row, cost: int,
                      hop: int)
    requires Knows(t, entry, viaOne, viaTwo) && (r == 1 || r == 2) && ValidRow(row, 4)
    requires var one, two := if r == 1 then row[3] else viaOne, if r == 2 then row[3] else viaTwo;
             && one != NONE && (two != NONE ==> two >= 1)
             && (if two == NONE || one <= two then cost == 1 + one && hop == 1 else cost == 1 + two && hop == 2)
             && cost < INFINITY
    ensures Knows(t.WithRow(r, row).Recomputed(), if cost != entry.0 then (cost, true, Entry(hop, cost)) else entry,
                  if r == 1 then row[3] else viaOne, if r == 2 then row[3] else viaTwo)
  {
    var u := t.WithRow(r, row);
    assert forall x :: u.Usable(x, 3) ==> x == 1 || x == 2;
    assert u.Chosen(3, cost, hop);
    RecomputedAtKnown(u, 3, cost, hop);
  }

  /** A phase of the run: what router 0 knows, the tables of 1 and 2, and the rows they have under way to 0. */
  ghost predicate Phase(net: Net, entry: (int, bool, Entry), viaOne: int, viaTwo: int, one: Tables, two: Tables,
                        fromOne: seq<Row>, fromTwo: seq<Row>)
  {
    && net.WellFormed() && |net.node| == 4
    && Knows(net.node[0], entry, viaOne, viaTwo)
    && net.node[1] == one && net.node[2] == two
    && net.queue[1][0] == fromOne && net.queue[2][0] == fromTwo
  }

  lemma Sends(net: Net, i: nat, entry: (int, bool, Entry), viaOne: int, viaTwo: int, one: Tables, two: Tables,
              fromOne: seq<Row>, fromTwo: seq<Row>)
    returns (row: Row, net': Net)
    requires Phase(net, entry, viaOne, viaTwo, one, two, fromOne, fromTwo)
    requires ((i == 1 && fromOne == []) || (i == 2 && fromTwo == [])) && net.node[i].linkCost[0] != NONE
    ensures Enabled(net, Dv(i)) && net' == Next(net, Dv(i)) && ValidRow(row, 4)
    ensures row == if i == 1 then one.dv[1] else two.dv[2]
    ensures Phase(net', entry, viaOne, viaTwo, one, two, if i == 1 then [row] else fromOne,
                  if i == 2 then [row] else fromTwo)
  {
    hide Knows;
    row, net' := net.OwnRow(i), net.Announce(i);
    Announced(net, i, 0);
  }

  lemma Receives(net: Net, r: nat, entry: (int, bool, Entry), viaOne: int, viaTwo: int, one: Tables, two: Tables,
                 fromOne: seq<Row>, fromTwo: seq<Row>, row: Row, cost: int, hop: int)
    returns (net': Net)
    requires Phase(net, entry, viaOne, viaTwo, one, two, fromOne, fromTwo)
    requires (r == 1 && fromOne == [row]) || (r == 2 && fromTwo == [row])
    requires ValidRow(row, 4)
    requires var one, two := if r == 1 then row[3] else viaOne, if r == 2 then row[3] else viaTwo;
             && one != NONE && (two != NONE ==> two >= 1)
             && (if two == NONE || one <= two then cost == 1 + one && hop == 1 else cost == 1 + two && hop == 2)
             && cost < INFINITY
    ensures Enabled(net, DvMsg(r, 0)) && net' == Next(net, DvMsg(r, 0))
    ensures Phase(net', if cost != entry.0 then (cost, true, Entry(hop, cost)) else entry,
                  if r == 1 then row[3] else viaOne, if r == 2 then row[3] else viaTwo, one, two,
                  if r == 1 then [] else fromOne, if r == 2 then [] else fromTwo)
  {
    KnowsAfterRow(net.node[0], entry, viaOne, viaTwo, r, row, cost, hop);
    hide Knows;
    net' := net.Deliver(r, 0);
    Delivered(net, r, 0);
  }

  const STEPS: seq<Step> :=
    [Dv(1), DvMsg(1, 0), Dv(2), DvMsg(2, 0), Update(1, 3, 5), Dv(1), DvMsg(1, 0)]

  lemma DiamondPhase(one: Tables, two: Tables)
    requires one == Start(1, [1, NONE, NONE, 1]) && two == Start(2, [1, NONE, NONE, 1])
    ensures Phase(Diamond(), (NONE, false, Entry(3, NONE)), NONE, NONE, one, two, [], [])
    ensures one.dv[1][3] == two.dv[2][3] == 1 && one.linkCost[0] == two.linkCost[0] == 1
  {
    DiamondIsInitial();
  }

  /** Router 0 learns both equal ways to 3 and keeps the one through 1. */
  lemma LearnsBothWays(one: Tables, two: Tables) returns (nets: seq<Net>)
    requires one == Start(1, [1, NONE, NONE, 1]) && two == Start(2, [1, NONE, NONE, 1])
    ensures IsRun(nets, STEPS[..4]) && |nets| == 5
    ensures Phase(nets[4], (2, true, Entry(1, 2)), 1, 1, one, two, [], [])
  {
    hide Phase, Initial, Diamond, Start, Next, Enabled, IsRun;
    DiamondIsInitial();
    DiamondPhase(one, two);
    var n0, none := Diamond(), (NONE, false, Entry(3, NONE));
    PhaseLinks(n0, none, NONE, NONE, one, two, [], []);
    var row, n1 := Sends(n0, 1, none, NONE, NONE, one, two, [], []);
    var n2 := Receives(n1, 1, none, NONE, NONE, one, two, [row], [], row, 2, 1);
    PhaseLinks(n2, (2, true, Entry(1, 2)), 1, NONE, one, two, [], []);
    var row', n3 := Sends(n2, 2, (2, true, Entry(1, 2)), 1, NONE, one, two, [], []);
    var n4 := Receives(n3, 2, (2, true, Entry(1, 2)), 1, NONE, one, two, [], [row'], row', 2, 1);
    nets := [n0, n1, n2, n3, n4];
    FourSteps(n0, n1, n2, n3, n4);
  }

  lemma FourSteps(n0: Net, n1: Net, n2: Net, n3: Net, n4: Net)
    requires Initial(n0)
    requires Enabled(n0, Dv(1)) && n1 == Next(n0, Dv(1))
    requires Enabled(n1, DvMsg(1, 0)) && n2 == Next(n1, DvMsg(1, 0))
    requires Enabled(n2, Dv(2)) && n3 == Next(n2, Dv(2))
    requires Enabled(n3, DvMsg(2, 0)) && n4 == Next(n3, DvMsg(2, 0))
    ensures IsRun([n0, n1, n2, n3, n4], STEPS[..4])
  {
    hide Next, Initial;
  }

  lemma PhaseLinks(net: Net, entry: (int, bool, Entry), viaOne: int, viaTwo: int, one: Tables, two: Tables,
                   fromOne: seq<Row>, fromTwo: seq<Row>)
    requires Phase(net, entry, viaOne, viaTwo, one, two, fromOne, fromTwo)
    ensures |net.node| == 4 && net.node[1] == one && net.node[2] == two
  {
  }

  /** The UPDATE at router 1 makes it 5 away from router 3. */
  lemma Worsens(net: Net, entry: (int, bool, Entry), one: Tables, two: Tables) returns (net': Net, one': Tables)
    requires one == Start(1, [1, NONE, NONE, 1]) && Phase(net, entry, 1, 1, one, two, [], [])
    ensures Enabled(net, Update(1, 3, 5)) && net' == Next(net, Update(1, 3, 5))
    ensures Phase(net', entry, 1, 1, one', two, [], [])
    ensures one'.WellFormed() && |one'.linkCost| == 4 && one'.dv[1][3] == 5 && one'.linkCost[0] == 1
  {
    var u := one.WithLink(3, 5);
    assert forall x :: u.Usable(x, 3) ==> x == 3;
    assert u.Chosen(3, 5, 3);
    RecomputedAtKnown(u, 3, 5, 3);
    hide Knows;
    net', one' := net.ChangeLink(1, 3, 5), u.Recomputed();
  }

  /** Router 0 still forwards to 1, at cost 2, although 1 has told it that it is 5 away from router 3. */
  ghost predicate StaleAtZero(t: Tables) {
    && t.WellFormed() && |t.linkCost| == 4 && t.own == 0
    && t.available[3] && t.route[3] == Entry(1, 2) && t.linkCost[1] == 1 && t.dv[1][3] == 5
    && !RouteAgrees(t, 3)
  }

  /** After the UPDATE at router 1 its new row leaves the entry of router 0 as it is. */
  lemma StaleWithoutUpdate()
    ensures exists nets: seq<Net> :: IsRun(nets, STEPS) && nets[7].node != [] && StaleAtZero(nets[7].node[0])
    ensures forall k :: 0 <= k < |STEPS| && STEPS[k].Update? ==> STEPS[k].who != 0
  {
    hide Start, Phase, IsRun, Next, Enabled, StaleAtZero;
    var one, two := Start(1, [1, NONE, NONE, 1]), Start(2, [1, NONE, NONE, 1]);
    var entry := (2, true, Entry(1, 2));
    var nets := LearnsBothWays(one, two);
    var n5, one' := Worsens(nets[4], entry, one, two);
    PhaseLinks(n5, entry, 1, 1, one', two, [], []);
    var row, n6 := Sends(n5, 1, entry, 1, 1, one', two, [], []);
    var n7 := Receives(n6, 1, entry, 1, 1, one', two, [row], [], row, 2, 2);
    RunContinues(nets, n5, n6, n7);
    PhaseIsStale(n7, one', two);
  }

  lemma PhaseIsStale(net: Net, one: Tables, two: Tables)
    requires Phase(net, (2, true, Entry(1, 2)), 5, 1, one, two, [], [])
    ensures net.node != [] && StaleAtZero(net.node[0])
  {
  }

  lemma RunContinues(nets: seq<Net>, n5: Net, n6: Net, n7: Net)
    requires IsRun(nets, STEPS[..4])
    requires Enabled(nets[4], STEPS[4]) && n5 == Next(nets[4], STEPS[4])
    requires Enabled(n5, STEPS[5]) && n6 == Next(n5, STEPS[5])
    requires Enabled(n6, STEPS[6]) && n7 == Next(n6, STEPS[6])
    ensures IsRun(nets + [n5, n6, n7], STEPS) && (nets + [n5, n6, n7])[7] == n7
  {
    hide Next, Initial;
    var all := nets + [n5, n6, n7];
    forall k | 0 <= k < |STEPS| ensures Enabled(all[k], STEPS[k]) && all[k + 1] == Next(all[k], STEPS[k]) {
      if k < 4 {
        assert STEPS[..4][k] == STEPS[k];
      }
    }
  }
}
