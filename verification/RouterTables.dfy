/**
 One router of the distance-vector protocol: its tables, the values its
 functions compute, and the imperative code that updates the tables in place.
 Routers are named by their position in the shared router list.
 */
module RouterTables {

  const NONE: int := -1
  const INFINITY: int := 10000

  // Largest link cost for which cost + distance still fits in a 32-bit int.
  const MAX_LINK_COST: int := 0x7fff_ffff - INFINITY

  type Row = seq<int>

  datatype Entry = Entry(nextHop: int, pathCost: int)

  ghost predicate ValidCost(w: int) {
    w == NONE || 1 <= w <= MAX_LINK_COST
  }

  ghost predicate ValidRow(row: Row, n: nat) {
    |row| == n && forall c :: 0 <= c < n ==> NONE <= row[c] < INFINITY
  }

  /** The global variables of one router process. */
  datatype Tables = Tables(
    own: nat,
    linkCost: seq<int>,     // NONE: not a neighbour
    dv: seq<Row>,           // dv[r][d]: distance from r to d, NONE: no path known
    available: seq<bool>,
    route: seq<Entry>)
  {
    ghost predicate WellFormed() {
      && var n := |linkCost|;
      && own < n
      && |dv| == |available| == |route| == n
      && linkCost[own] == NONE
      && (forall r :: 0 <= r < n ==> ValidCost(linkCost[r]))
      && (forall r :: 0 <= r < n ==> ValidRow(dv[r], n))
      && dv[own][own] == 0
    }

    /** Neighbour `r` offers a path to `d`. */
    ghost predicate Usable(r: int, d: int)
      requires WellFormed() && 0 <= d < |linkCost|
    {
      0 <= r < |linkCost| && r != own && linkCost[r] != NONE && dv[r][d] != NONE
    }

    ghost function Via(r: int, d: int): (cost: int)
      requires WellFormed() && 0 <= d < |linkCost|
      requires Usable(r, d)
      ensures 0 < cost <= 0x7fff_ffff
    {
      linkCost[r] + dv[r][d]
    }

    /**
     What a correct minimum is: the least cost offered when it is below infinity,
     with the first neighbour that offers it, and NONE otherwise.
     */
    ghost predicate Chosen(d: nat, cost: int, hop: int)
      requires WellFormed() && d < |linkCost|
    {
      && (cost == NONE <==> hop == NONE)
      && (cost == NONE ==> forall r :: Usable(r, d) ==> Via(r, d) >= INFINITY)
      && (cost != NONE ==>
            && Usable(hop, d)
            && cost == Via(hop, d) < INFINITY
            && (forall r :: Usable(r, d) ==> cost <= Via(r, d))
            && (forall r :: Usable(r, d) && r < hop ==> cost < Via(r, d)))
    }

    ghost predicate BestBelow(d: nat, k: nat, cost: int, hop: int)
      requires WellFormed() && d < |linkCost| && k <= |linkCost|
    {
      && (hop == NONE ==> cost == NONE && forall r :: 0 <= r < k ==> !Usable(r, d))
      && (hop != NONE ==>
            && 0 <= hop < k && Usable(hop, d) && cost == Via(hop, d)
            && (forall r :: 0 <= r < k && Usable(r, d) ==> cost <= Via(r, d))
            && (forall r :: 0 <= r < hop && Usable(r, d) ==> cost < Via(r, d)))
    }

    lemma {:induction false} BestExists(d: nat, k: nat) returns (cost: int, hop: int)
      requires WellFormed() && d < |linkCost| && k <= |linkCost|
      ensures BestBelow(d, k, cost, hop)
    {
      if k == 0 {
        cost, hop := NONE, NONE;
      } else {
        cost, hop := BestExists(d, k - 1);
        if Usable(k - 1, d) && (hop == NONE || Via(k - 1, d) < cost) {
          cost, hop := Via(k - 1, d), k - 1;
        }
      }
    }

    lemma ChosenExists(d: nat)
      requires WellFormed() && d < |linkCost|
      ensures exists choice: (int, int) :: Chosen(d, choice.0, choice.1)
    {
      var cost, hop := BestExists(d, |linkCost|);
      var choice := if cost >= INFINITY then (NONE, NONE) else (cost, hop);
      assert Chosen(d, choice.0, choice.1);
    }

    ghost function MinDV(d: nat): (choice: (int, int))
      requires WellFormed() && d < |linkCost|
      ensures Chosen(d, choice.0, choice.1)
    {
      ChosenExists(d);
      var choice: (int, int) :| Chosen(d, choice.0, choice.1);
      choice
    }

    /** What the tables hold about destination `d`: own distance, availability, route. */
    ghost function EntryAt(d: nat): (int, bool, Entry)
      requires WellFormed() && d < |linkCost|
    {
      (dv[own][d], available[d], route[d])
    }

    /**
     What recomputing makes of destination `d`. The routing entry is rewritten only
     when the cost changes to a real cost.
     */
    ghost function NewEntryAt(d: nat): (entry: (int, bool, Entry))
      requires WellFormed() && d < |linkCost|
      ensures NONE <= entry.0 < INFINITY && (d == own ==> entry.0 == 0)
    {
      if d == own then EntryAt(d)
      else
        var (cost, hop) := MinDV(d);
        if cost != dv[own][d] && cost != NONE then (cost, true, Entry(hop, cost))
        else (cost, available[d], route[d])
    }

    ghost function Recomputed(): (t: Tables)
      requires WellFormed()
      ensures t.WellFormed() && t.own == own && t.linkCost == linkCost
      ensures forall r :: 0 <= r < |linkCost| && r != own ==> t.dv[r] == dv[r]
      ensures forall d :: 0 <= d < |linkCost| ==> t.EntryAt(d) == NewEntryAt(d)
    {
      this.(dv := dv[own := seq(|linkCost|, d requires 0 <= d < |linkCost| => NewEntryAt(d).0)],
            available := seq(|linkCost|, d requires 0 <= d < |linkCost| => NewEntryAt(d).1),
            route := seq(|linkCost|, d requires 0 <= d < |linkCost| => NewEntryAt(d).2))
    }

    /** One destination of the recomputation, in place. */
    ghost function RecomputedAt(d: nat): (t: Tables)
      requires WellFormed() && d < |linkCost| && d != own
      ensures t.WellFormed() && t.own == own && t.linkCost == linkCost
      ensures forall r :: 0 <= r < |linkCost| && r != own ==> t.dv[r] == dv[r]
      ensures forall c :: 0 <= c < |linkCost| ==> t.EntryAt(c) == if c == d then NewEntryAt(d) else EntryAt(c)
    {
      var (cost, up, entry) := NewEntryAt(d);
      this.(dv := dv[own := dv[own][d := cost]], available := available[d := up], route := route[d := entry])
    }

    /** The recomputation after its first `k` destinations. */
    ghost function RecomputedBelow(k: nat): (t: Tables)
      requires WellFormed() && k <= |linkCost|
      ensures t.WellFormed() && t.own == own && t.linkCost == linkCost
      ensures forall r :: 0 <= r < |linkCost| && r != own ==> t.dv[r] == dv[r]
    {
      if k == 0 then this
      else if k - 1 == own then RecomputedBelow(k - 1)
      else RecomputedBelow(k - 1).RecomputedAt(k - 1)
    }

    /** The value the link cost takes for a weight given to UPDATE: 1000 means disconnected. */
    static function EffectiveWeight(weight: int): int {
      if weight == 1000 then NONE else weight
    }

    ghost function WithLink(r: nat, weight: int): (t: Tables)
      requires WellFormed() && r < |linkCost| && r != own && ValidCost(EffectiveWeight(weight))
      ensures t.WellFormed()
    {
      this.(linkCost := linkCost[r := EffectiveWeight(weight)])
    }

    /** The tables after start-up with the given links: only the links themselves are known. */
    ghost predicate IsInitial(cost: seq<int>)
    {
      && WellFormed()
      && linkCost == cost
      && (forall r :: 0 <= r < |cost| ==> cost[r] < INFINITY)
      && (forall r, d {:trigger dv[r][d]} :: 0 <= r < |cost| && 0 <= d < |cost| ==>
            dv[r][d] == if r == d then 0 else if r == own then cost[d] else NONE)
      && (forall d :: 0 <= d < |cost| ==> (available[d] <==> cost[d] != NONE))
      && (forall d :: 0 <= d < |cost| && available[d] ==> route[d] == Entry(d, cost[d]))
    }

    ghost function WithRow(r: nat, row: Row): (t: Tables)
      requires WellFormed() && r < |linkCost| && r != own && ValidRow(row, |linkCost|)
      ensures t.WellFormed()
    {
      this.(dv := dv[r := row])
    }
  }

  lemma ChosenIsUnique(t: Tables, d: nat, cost: int, hop: int, cost': int, hop': int)
    requires t.WellFormed() && d < |t.linkCost|
    requires t.Chosen(d, cost, hop) && t.Chosen(d, cost', hop')
    ensures cost == cost' && hop == hop'
  {
    if cost != NONE && cost' != NONE {
      assert cost <= cost' && cost' <= cost;
    }
  }

  /** The minimum does not read the own row, so it survives in-place updates of that row. */
  lemma MinDVIgnoresOwnRow(t: Tables, u: Tables, d: nat)
    requires t.WellFormed() && u.WellFormed() && d < |t.linkCost|
    requires u.own == t.own && u.linkCost == t.linkCost
    requires forall r :: 0 <= r < |t.linkCost| && r != t.own ==> u.dv[r] == t.dv[r]
    ensures u.MinDV(d) == t.MinDV(d)
  {
    var (cost, hop) := t.MinDV(d);
    assert forall r :: u.Usable(r, d) <==> t.Usable(r, d);
    assert forall r :: t.Usable(r, d) ==> u.Via(r, d) == t.Via(r, d);
    assert u.Chosen(d, cost, hop);
    ChosenIsUnique(u, d, cost, hop, u.MinDV(d).0, u.MinDV(d).1);
  }

  lemma TablesAreTheirEntries(t: Tables, u: Tables)
    requires t.WellFormed() && u.WellFormed() && t.own == u.own && t.linkCost == u.linkCost
    requires forall r :: 0 <= r < |t.linkCost| && r != t.own ==> t.dv[r] == u.dv[r]
    requires forall d :: 0 <= d < |t.linkCost| ==> t.EntryAt(d) == u.EntryAt(d)
    ensures t == u
  {
    assert forall d :: 0 <= d < |t.linkCost| ==> t.dv[t.own][d] == t.EntryAt(d).0 == u.dv[t.own][d];
    assert t.dv[t.own] == u.dv[t.own];
    assert t.dv == u.dv;
    assert forall d :: 0 <= d < |t.linkCost| ==> t.available[d] == t.EntryAt(d).1 == u.available[d];
    assert forall d :: 0 <= d < |t.linkCost| ==> t.route[d] == t.EntryAt(d).2 == u.route[d];
    assert t.available == u.available && t.route == u.route;
  }

  /** After `k` destinations, those below `k` have their final value and the others are untouched. */
  lemma {:induction false} RecomputedBelowIsPartial(t: Tables, k: nat, d: nat)
    requires t.WellFormed() && k <= |t.linkCost| && d < |t.linkCost|
    ensures t.RecomputedBelow(k).EntryAt(d) == if d < k then t.NewEntryAt(d) else t.EntryAt(d)
  {
    if k > 0 {
      RecomputedBelowIsPartial(t, k - 1, d);
      if k - 1 != t.own {
        MinDVIgnoresOwnRow(t, t.RecomputedBelow(k - 1), d);
      }
    }
  }

  /** A change at one destination is never undone by a later one. */
  lemma RecomputedEntryShows(t: Tables, d: nat)
    requires t.WellFormed() && d < |t.linkCost| && d != t.own
    ensures var s, s' := t.RecomputedBelow(d), t.RecomputedBelow(d + 1);
            s'.dv[t.own] != t.dv[t.own] <==> (s.dv[t.own] != t.dv[t.own] || s'.dv[t.own][d] != s.dv[t.own][d])
  {
    var s, s' := t.RecomputedBelow(d), t.RecomputedBelow(d + 1);
    RecomputedBelowIsPartial(t, d, d);
    assert s.EntryAt(d) == t.EntryAt(d);
    assert forall c :: 0 <= c < |t.linkCost| && c != d ==> s'.EntryAt(c) == s.EntryAt(c);
    assert s'.dv[t.own] == s.dv[t.own][d := s'.dv[t.own][d]];
    if s.dv[t.own] != t.dv[t.own] {
      var c :| 0 <= c < |t.linkCost| && s.dv[t.own][c] != t.dv[t.own][c];
      assert s'.dv[t.own][c] != t.dv[t.own][c];
    }
  }

  /** The in-place loop computes every entry from the tables as they were before it. */
  lemma RecomputedBelowAll(t: Tables)
    requires t.WellFormed()
    ensures t.RecomputedBelow(|t.linkCost|) == t.Recomputed()
  {
    forall d | 0 <= d < |t.linkCost|
      ensures t.RecomputedBelow(|t.linkCost|).EntryAt(d) == t.Recomputed().EntryAt(d)
    {
      RecomputedBelowIsPartial(t, |t.linkCost|, d);
    }
    TablesAreTheirEntries(t.RecomputedBelow(|t.linkCost|), t.Recomputed());
  }

  /** Recomputing twice is the same as recomputing once. */
  lemma RecomputeIsIdempotent(t: Tables)
    requires t.WellFormed()
    ensures t.Recomputed().Recomputed() == t.Recomputed()
  {
    var u := t.Recomputed();
    forall d | 0 <= d < |t.linkCost| ensures u.NewEntryAt(d) == u.EntryAt(d) {
      MinDVIgnoresOwnRow(t, u, d);
      assert u.EntryAt(d) == t.NewEntryAt(d);
    }
    TablesAreTheirEntries(u.Recomputed(), u);
  }
}
