/** The router process: its tables as arrays, updated in place by the message handlers. */
module RouterProcess {
  import opened RouterTables

  class Router {
    const numRouter: nat
    const ownIndex: nat
    const linkCost: array<int>
    const dvTable: array2<int>
    const available: array<bool>
    const routingTable: array<Entry>

    ghost predicate Shaped() {
      && ownIndex < numRouter
      && linkCost.Length == available.Length == routingTable.Length == numRouter
      && dvTable.Length0 == dvTable.Length1 == numRouter
    }

    ghost function RowOf(r: int): (row: Row)
      requires Shaped() && 0 <= r < numRouter
      reads dvTable
      ensures |row| == numRouter
    {
      seq(numRouter, c requires 0 <= c < numRouter reads dvTable => dvTable[r, c])
    }

    /** The tables as a value. */
    ghost function Snapshot(): (t: Tables)
      requires Shaped()
      reads linkCost, dvTable, available, routingTable
    {
      Tables(ownIndex, linkCost[..],
             seq(numRouter, r requires 0 <= r < numRouter reads dvTable => RowOf(r)),
             available[..], routingTable[..])
    }

    ghost predicate Valid()
      reads linkCost, dvTable, available, routingTable
    {
      Shaped() && Snapshot().WellFormed()
    }

    /** Start-up: no link, every distance unknown except each router's distance to itself. */
    constructor (numRouter: nat, ownIndex: nat)
      requires ownIndex < numRouter
      ensures Valid()
      ensures fresh(linkCost) && fresh(dvTable) && fresh(available) && fresh(routingTable)
      ensures this.numRouter == numRouter && this.ownIndex == ownIndex
      ensures forall i :: 0 <= i < numRouter ==> linkCost[i] == NONE && !available[i]
      ensures forall i, j :: 0 <= i < numRouter && 0 <= j < numRouter ==>
                dvTable[i, j] == if i == j then 0 else NONE
    {
      this.numRouter, this.ownIndex := numRouter, ownIndex;
      linkCost := new int[numRouter](_ => NONE);
      dvTable := new int[numRouter, numRouter]((i, j) => if i == j then 0 else NONE);
      available := new bool[numRouter](_ => false);
      routingTable := new Entry[numRouter](_ => Entry(NONE, NONE));
    }

    method SetNextHop(d: nat, nextHop: nat, pathCost: int)
      requires Shaped() && d < numRouter && nextHop < numRouter
      modifies available, routingTable
      ensures available[..] == old(available[..])[d := true]
      ensures routingTable[..] == old(routingTable[..])[d := Entry(nextHop, pathCost)]
    {
      available[d] := true;
      routingTable[d] := Entry(nextHop, pathCost);
    }

    method MinDV(d: nat) returns (min: int, hop: int)
      requires Valid() && d < numRouter
      ensures min == -1 || 1 <= min < 10000
      ensures min == -1 <==> hop == -1
      ensures min == -1 <==> forall r :: 0 <= r < numRouter && r != ownIndex && linkCost[r] != -1 && dvTable[r, d] != -1
                                ==> linkCost[r] + dvTable[r, d] >= 10000
      ensures min != -1 ==>
                && 0 <= hop < numRouter && hop != ownIndex && linkCost[hop] != -1 && dvTable[hop, d] != -1
                && min == linkCost[hop] + dvTable[hop, d]
                && forall r :: 0 <= r < numRouter && r != ownIndex && linkCost[r] != -1 && dvTable[r, d] != -1 ==>
                     min <= linkCost[r] + dvTable[r, d] && (r < hop ==> min < linkCost[r] + dvTable[r, d])
      ensures Snapshot().Chosen(d, min, hop)
      ensures (min, hop) == Snapshot().MinDV(d)
    {
      ghost var t := Snapshot();
      min, hop := NONE, NONE;
      var once := false;
      for nextHop := 0 to numRouter
        invariant t.BestBelow(d, nextHop, min, hop)
        invariant once <==> hop != NONE
      {
        assert t.dv[nextHop][d] == dvTable[nextHop, d];
        if nextHop != ownIndex && linkCost[nextHop] != NONE && dvTable[nextHop, d] != NONE {
          assert t.Usable(nextHop, d);
          var cost := linkCost[nextHop] + dvTable[nextHop, d];
          assert cost == t.Via(nextHop, d);
          if !once {
            min, hop, once := cost, nextHop, true;
          } else if cost < min {
            min, hop := cost, nextHop;
          }
        }
      }
      if min >= INFINITY {
        min := NONE;
      }
      if min == NONE {
        hop := NONE;
      }
      ChosenIsUnique(t, d, min, hop, t.MinDV(d).0, t.MinDV(d).1);
      forall r | 0 <= r < numRouter && r != ownIndex && linkCost[r] != -1 && dvTable[r, d] != -1
        ensures t.Usable(r, d) && t.Via(r, d) == linkCost[r] + dvTable[r, d]
      {
        assert t.dv[r][d] == dvTable[r, d];
      }
      assert forall r :: t.Usable(r, d) ==> t.dv[r][d] == dvTable[r, d];
    }

    /** One destination of the recomputation. */
    method RecomputeEntry(d: nat) returns (changed: bool)
      requires Valid() && d < numRouter && d != ownIndex
      modifies dvTable, available, routingTable
      ensures Valid() && Snapshot() == old(Snapshot()).RecomputedAt(d)
      ensures changed <==> dvTable[ownIndex, d] != old(dvTable[ownIndex, d])
      ensures forall r, c :: 0 <= r < numRouter && 0 <= c < numRouter && (r != ownIndex || c != d) ==>
                dvTable[r, c] == old(dvTable[r, c])
      ensures if changed && dvTable[ownIndex, d] != -1 then
                && available[..] == old(available[..])[d := true]
                && 0 <= routingTable[d].nextHop < numRouter
                && routingTable[..] == old(routingTable[..])[d := Entry(routingTable[d].nextHop, dvTable[ownIndex, d])]
              else available[..] == old(available[..]) && routingTable[..] == old(routingTable[..])
    {
      ghost var s := Snapshot();
      var min, nextHop := MinDV(d);
      changed := min != dvTable[ownIndex, d];
      if changed {
        dvTable[ownIndex, d] := min;
        if nextHop != NONE {
          SetNextHop(d, nextHop, min);
        }
      }
      ghost var u := s.RecomputedAt(d);
      forall r | 0 <= r < numRouter ensures RowOf(r) == u.dv[r] {
        assert s.dv[r] == old(RowOf(r));
      }
      assert Snapshot().dv == u.dv;
      assert Snapshot() == u;
    }

    /** Recomputes the own row in place; reports whether some entry changed. */
    method Recompute() returns (isChange: bool)
      requires Valid()
      modifies dvTable, available, routingTable
      ensures Valid() && Snapshot() == old(Snapshot()).Recomputed()
      ensures isChange <==> RowOf(ownIndex) != old(RowOf(ownIndex))
    {
      ghost var t := Snapshot();
      ghost var s := t;
      isChange := false;
      for d := 0 to numRouter
        invariant Valid() && Snapshot() == s == t.RecomputedBelow(d)
        invariant isChange <==> s.dv[ownIndex] != t.dv[ownIndex]
      {
        if d != ownIndex {
          s := s.RecomputedAt(d);
          RecomputedEntryShows(t, d);
          var changed := RecomputeEntry(d);
          isChange := isChange || changed;
        }
      }
      RecomputedBelowAll(t);
      assert t.dv[ownIndex] == old(RowOf(ownIndex));
    }

    /** UPDATE: change one link and recompute, without announcing. */
    method UpdateFunc(d: nat, weight: int)
      requires Valid() && d < numRouter && d != ownIndex && ValidCost(Tables.EffectiveWeight(weight))
      modifies linkCost, dvTable, available, routingTable
      ensures Valid() && Snapshot() == old(Snapshot()).WithLink(d, weight).Recomputed()
      ensures linkCost[..] == old(linkCost[..])[d := if weight == 1000 then -1 else weight]
      ensures forall r :: 0 <= r < numRouter && r != ownIndex ==> RowOf(r) == old(RowOf(r))
    {
      ghost var t := Snapshot();
      linkCost[d] := if weight == 1000 then NONE else weight;
      assert Snapshot() == t.WithLink(d, weight);
      var _ := Recompute();
      forall r | 0 <= r < numRouter && r != ownIndex ensures RowOf(r) == old(RowOf(r)) {
        assert Snapshot().dv[r] == t.dv[r] == old(RowOf(r));
      }
    }

    /** DV: the own row goes to every current neighbour, in list order. */
    method DvFunc() returns (sent: seq<(nat, Row)>)
      requires Valid()
      ensures forall k :: 0 <= k < |sent| ==>
                sent[k].0 < numRouter && linkCost[sent[k].0] != NONE && sent[k].1 == RowOf(ownIndex)
      ensures forall i :: 0 <= i < numRouter && linkCost[i] != NONE ==> exists k :: 0 <= k < |sent| && sent[k].0 == i
      ensures forall k, l :: 0 <= k < l < |sent| ==> sent[k].0 < sent[l].0
    {
      var row := seq(numRouter, c requires 0 <= c < numRouter reads dvTable => dvTable[ownIndex, c]);
      sent := [];
      for i := 0 to numRouter
        invariant forall k :: 0 <= k < |sent| ==>
                    sent[k].0 < i && linkCost[sent[k].0] != NONE && sent[k].1 == RowOf(ownIndex)
        invariant forall j :: 0 <= j < i && linkCost[j] != NONE ==> exists k :: 0 <= k < |sent| && sent[k].0 == j
        invariant forall k, l :: 0 <= k < l < |sent| ==> sent[k].0 < sent[l].0
      {
        if linkCost[i] != NONE {
          ghost var before := sent;
          sent := sent + [(i, row)];
          assert sent[|before|].0 == i;
          assert forall k :: 0 <= k < |before| ==> sent[k] == before[k];
        }
      }
    }

    /** DVMSG: store the neighbour's row, recompute, and announce if the own row changed. */
    method Routing(dvRow: Row, from: nat) returns (announced: bool, sent: seq<(nat, Row)>)
      requires Valid() && from < numRouter && from != ownIndex && ValidRow(dvRow, numRouter)
      modifies dvTable, available, routingTable
      ensures Valid() && Snapshot() == old(Snapshot()).WithRow(from, dvRow).Recomputed()
      ensures RowOf(from) == dvRow && linkCost[..] == old(linkCost[..])
      ensures forall r :: 0 <= r < numRouter && r != ownIndex && r != from ==> RowOf(r) == old(RowOf(r))
      ensures announced <==> RowOf(ownIndex) != old(RowOf(ownIndex))
      ensures !announced ==> sent == []
      ensures forall k :: 0 <= k < |sent| ==>
                sent[k].0 < numRouter && linkCost[sent[k].0] != NONE && sent[k].1 == RowOf(ownIndex)
      ensures announced ==>
                forall i :: 0 <= i < numRouter && linkCost[i] != NONE ==> exists k :: 0 <= k < |sent| && sent[k].0 == i
      ensures forall k, l :: 0 <= k < l < |sent| ==> sent[k].0 < sent[l].0
    {
      ghost var t := Snapshot();
      for i := 0 to numRouter
        modifies dvTable
        invariant forall r, c :: 0 <= r < numRouter && 0 <= c < numRouter ==>
                    dvTable[r, c] == if r == from && c < i then dvRow[c] else t.dv[r][c]
      {
        dvTable[from, i] := dvRow[i];
      }
      forall r | 0 <= r < numRouter ensures RowOf(r) == t.WithRow(from, dvRow).dv[r] {
      }
      assert Snapshot().dv == t.WithRow(from, dvRow).dv;
      assert Snapshot() == t.WithRow(from, dvRow);
      assert RowOf(ownIndex) == old(RowOf(ownIndex)) by {
        assert t.dv[ownIndex] == old(RowOf(ownIndex));
      }
      announced := Recompute();
      forall r | 0 <= r < numRouter && r != ownIndex
        ensures RowOf(r) == if r == from then dvRow else old(RowOf(r))
      {
        assert Snapshot().dv[r] == t.WithRow(from, dvRow).dv[r];
      }
      sent := [];
      if announced {
        sent := DvFunc();
      }
    }

    /** The topology lines that start at this router become links, distances and routes. */
    method MapTopology(edges: seq<(nat, nat, int)>)
      requires Valid()
      requires forall e :: 0 <= e < |edges| ==> edges[e].0 < numRouter && edges[e].1 < numRouter
      requires forall e :: 0 <= e < |edges| && edges[e].0 == ownIndex ==>
                 edges[e].1 != ownIndex && (edges[e].2 == NONE || 1 <= edges[e].2 < INFINITY)
      requires forall e, f :: 0 <= e < f < |edges| && edges[e].0 == edges[f].0 == ownIndex ==> edges[e].1 != edges[f].1
      requires forall i :: 0 <= i < numRouter ==> linkCost[i] == NONE && !available[i]
      requires forall i, j :: 0 <= i < numRouter && 0 <= j < numRouter ==>
                 dvTable[i, j] == if i == j then 0 else NONE
      modifies linkCost, dvTable, available, routingTable
      ensures Valid() && Snapshot().IsInitial(linkCost[..])
      ensures forall e :: 0 <= e < |edges| && edges[e].0 == ownIndex ==> linkCost[edges[e].1] == edges[e].2
      ensures forall i :: 0 <= i < numRouter && linkCost[i] != NONE ==> (ownIndex, i, linkCost[i]) in edges
    {
      for e := 0 to |edges|
        invariant forall r, c :: 0 <= r < numRouter && 0 <= c < numRouter ==>
                    dvTable[r, c] == if r == c then 0 else if r == ownIndex then linkCost[c] else NONE
        invariant linkCost[ownIndex] == NONE
        invariant forall c :: 0 <= c < numRouter ==> linkCost[c] == NONE || 1 <= linkCost[c] < INFINITY
        invariant forall c :: 0 <= c < numRouter ==> (available[c] <==> linkCost[c] != NONE)
        invariant forall c :: 0 <= c < numRouter && available[c] ==> routingTable[c] == Entry(c, linkCost[c])
        invariant forall f :: 0 <= f < e && edges[f].0 == ownIndex ==> linkCost[edges[f].1] == edges[f].2
        invariant forall c :: 0 <= c < numRouter && linkCost[c] != NONE ==> (ownIndex, c, linkCost[c]) in edges[..e]
      {
        var (s, d, cost) := edges[e];
        ghost var before := linkCost[..];
        assert edges[..e + 1] == edges[..e] + [edges[e]];
        if s == ownIndex {
          assert linkCost[d] == NONE;
          dvTable[s, d] := cost;
          if cost != NONE {
            SetNextHop(d, d, cost);
          }
          linkCost[d] := cost;
        }
      }
      var t := Snapshot();
      forall r | 0 <= r < numRouter ensures ValidRow(t.dv[r], numRouter) {
        assert t.dv[r] == RowOf(r);
      }
      assert edges[..|edges|] == edges;
    }
  }
}
