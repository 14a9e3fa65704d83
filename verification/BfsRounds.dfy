/** Records, the map and reduce of one round, and what any run of rounds computes. */
module BfsRounds {
  import opened BfsGraph

  const INFINITE := 100000

  datatype Color = WHITE | GRAY | BLACK

  function ColorIndex(c: Color): (i: int)
    ensures 0 <= i <= 2
  {
    match c
    case WHITE => 0
    case GRAY => 1
    case BLACK => 2
  }

  datatype Node = Node(nid: int, list: seq<int>, distance: int, color: Color)

  /** The list that stands for having none. */
  const NOLIST := [-1]

  predicate HasList(n: Node)
    requires n.list != []
  {
    n.list[0] != -1
  }

  // ---- map

  /** A record that expands: grey, or the source in every round. */
  predicate Expands(source: int, n: Node) {
    n.nid == source || n.color == GRAY
  }

  /** The record that a mapper emits for the node itself. */
  function Own(source: int, n: Node): (own: Node) {
    if Expands(source, n) then n.(color := BLACK) else n
  }

  function Message(n: Node, to: int): (m: Node) {
    Node(to, NOLIST, if n.distance == INFINITE then INFINITE else n.distance + 1, GRAY)
  }

  function Messages(n: Node, to: seq<int>): (ms: seq<Node>) {
    seq(|to|, k requires 0 <= k < |to| => Message(n, to[k]))
  }

  /** Everything that a mapper emits for a record. */
  function Emitted(source: int, n: Node): (out: seq<Node>)
    requires n.list != []
  {
    [Own(source, n)] + if Expands(source, n) && HasList(n) then Messages(n, n.list) else []
  }

  predicate Listy(records: seq<Node>) {
    forall k :: 0 <= k < |records| ==> records[k].list != []
  }

  function AllEmitted(source: int, records: seq<Node>): (out: seq<Node>)
    requires Listy(records)
    ensures Listy(out)
  {
    if records == [] then []
    else AllEmitted(source, records[..|records| - 1]) + Emitted(source, records[|records| - 1])
  }

  lemma {:induction false} EmittedByOne(source: int, records: seq<Node>, x: Node)
    requires Listy(records)
    ensures x in AllEmitted(source, records) <==> exists n :: n in records && n.list != [] && x in Emitted(source, n)
    decreases |records|
  {
    if records != [] {
      var front, last := records[..|records| - 1], records[|records| - 1];
      assert records == front + [last];
      EmittedByOne(source, front, x);
      hide Emitted, AllEmitted;
      assert x in AllEmitted(source, records) <==> x in AllEmitted(source, front) || x in Emitted(source, last) by {
        AllEmittedLast(source, records);
      }
      assert forall n :: n in records <==> n in front || n == last;
    }
  }

  lemma AllEmittedLast(source: int, records: seq<Node>)
    requires Listy(records) && records != []
    ensures AllEmitted(source, records)
         == AllEmitted(source, records[..|records| - 1]) + Emitted(source, records[|records| - 1])
  {
  }

  ghost function Elements(values: seq<Node>): (s: set<Node>) {
    set x | x in values
  }

  /** The distinct values emitted for a key. */
  ghost function ValuesOf(emitted: seq<Node>, key: int): (s: set<Node>) {
    set x | x in emitted && x.nid == key
  }

  // ---- reduce

  /** One value merged into the output record. */
  function Absorb(o: Node, x: Node): (merged: Node)
    requires x.list != []
  {
    Node(o.nid,
         if HasList(x) then x.list else o.list,
         if x.distance < o.distance then x.distance else o.distance,
         if ColorIndex(x.color) > ColorIndex(o.color) then x.color else o.color)
  }

  function Reduced(key: int, values: seq<Node>): (o: Node)
    requires Listy(values)
  {
    if values == [] then Node(key, NOLIST, INFINITE, WHITE)
    else Absorb(Reduced(key, values[..|values| - 1]), values[|values| - 1])
  }

  /** `o` is the merge of a set of values: least distance, greatest colour, the list of one of them. */
  ghost predicate IsMerge(key: int, values: set<Node>, o: Node) {
    && o.nid == key
    && o.distance <= INFINITE
    && (forall x :: x in values ==> o.distance <= x.distance)
    && (o.distance == INFINITE || exists x :: x in values && x.distance == o.distance)
    && (forall x :: x in values ==> ColorIndex(x.color) <= ColorIndex(o.color))
    && (o.color == WHITE || exists x :: x in values && x.color == o.color)
    && (o.list == NOLIST || exists x :: x in values && x.list == o.list)
    && (o.list == NOLIST ==> forall x :: x in values ==> x.list != [] && !HasList(x))
  }

  lemma {:induction false} ReducedIsMerge(key: int, values: seq<Node>)
    requires Listy(values)
    ensures IsMerge(key, Elements(values), Reduced(key, values))
    decreases |values|
  {
    if values != [] {
      var front, last := values[..|values| - 1], values[|values| - 1];
      ReducedIsMerge(key, front);
      assert values == front + [last];
      MergeOne(key, Elements(front), Reduced(key, front), last);
      assert Elements(values) == Elements(front) + {last};
    }
  }

  lemma MergeOne(key: int, values: set<Node>, o: Node, x: Node)
    requires IsMerge(key, values, o) && x.list != []
    ensures IsMerge(key, values + {x}, Absorb(o, x))
  {
    var all, m := values + {x}, Absorb(o, x);
    if m.distance != INFINITE && m.distance != x.distance {
      var y :| y in values && y.distance == o.distance;
      assert y in all && y.distance == m.distance;
    }
    if m.color != WHITE && m.color != x.color {
      var y :| y in values && y.color == o.color;
      assert y in all && y.color == m.color;
    }
    if m.list != NOLIST && m.list != x.list {
      var y :| y in values && y.list == o.list;
      assert y in all && y.list == m.list;
    }
  }

  /** Among the values of a key at most one real adjacency list occurs. */
  ghost predicate OneList(values: set<Node>) {
    forall x, y :: x in values && y in values && x.list != [] && y.list != [] && HasList(x) && HasList(y)
      ==> x.list == y.list
  }

  lemma MergeIsUnique(key: int, values: set<Node>, o: Node, o': Node)
    requires IsMerge(key, values, o) && IsMerge(key, values, o')
    requires OneList(values) && forall x :: x in values ==> x.list != [] && (HasList(x) || x.list == NOLIST)
    ensures o == o'
  {
    assert ColorIndex(o.color) == ColorIndex(o'.color);
  }

  /** Any two orders of a key's values reduce to the same record. */
  lemma ReduceIgnoresOrder(key: int, a: seq<Node>, b: seq<Node>)
    requires Listy(a) && Listy(b) && multiset(a) == multiset(b)
    requires OneList(Elements(a)) && forall x :: x in a ==> x.list != [] && (HasList(x) || x.list == NOLIST)
    ensures Reduced(key, a) == Reduced(key, b)
  {
    ReducedIsMerge(key, a);
    ReducedIsMerge(key, b);
    assert forall x :: x in a <==> x in multiset(a);
    assert forall x :: x in b <==> x in multiset(b);
    assert Elements(a) == Elements(b);
    hide Reduced;
    MergeIsUnique(key, Elements(a), Reduced(key, a), Reduced(key, b));
  }

  // ---- one round with any shuffle

  /** The values of a key as the shuffle delivers them: all of them, in some order. */
  ghost predicate Delivered(emitted: seq<Node>, key: int, values: seq<Node>) {
    forall x :: multiset(values)[x] == if x.nid == key then multiset(emitted)[x] else 0
  }

  ghost predicate NoRepeat(records: seq<Node>) {
    forall i, j :: 0 <= i < j < |records| ==> records[i].nid != records[j].nid
  }

  ghost predicate HasKey(records: seq<Node>, key: int) {
    exists k :: 0 <= k < |records| && records[k].nid == key
  }

  /** A reducer's record for its key, from the values delivered in some order. */
  ghost predicate ReducerOutput(emitted: seq<Node>, o: Node) {
    exists values :: Listy(values) && Delivered(emitted, o.nid, values) && o == Reduced(o.nid, values)
  }

  /** One round: records in any order and split, shuffled values in any order, results in any order. */
  ghost predicate Round(source: int, records: seq<Node>, out: seq<Node>)
    requires Listy(records)
  {
    var emitted := AllEmitted(source, records);
    && NoRepeat(out)
    && (forall key :: HasKey(out, key) <==> HasKey(emitted, key))
    && (forall k :: 0 <= k < |out| ==> ReducerOutput(emitted, out[k]))
  }

  lemma OutputIsMerge(emitted: seq<Node>, o: Node)
    requires ReducerOutput(emitted, o)
    ensures IsMerge(o.nid, ValuesOf(emitted, o.nid), o)
  {
    var values :| Listy(values) && Delivered(emitted, o.nid, values) && o == Reduced(o.nid, values);
    ReducedIsMerge(o.nid, values);
    hide Reduced, IsMerge, Elements, Listy, ReducerOutput;
    SameElements(emitted, o.nid, values);
  }

  lemma SameElements(emitted: seq<Node>, key: int, values: seq<Node>)
    requires Delivered(emitted, key, values)
    ensures Elements(values) == ValuesOf(emitted, key)
  {
    assert forall x :: x in values <==> multiset(values)[x] > 0;
    assert forall x :: x in emitted <==> multiset(emitted)[x] > 0;
  }

  // ---- the initial records

  /** The adjacency lists of the input, each in the order in which its values arrived. */
  type Lists = map<int, seq<int>>

  /** `adj` groups the edges by their start. */
  ghost predicate Groups(edges: Edges, adj: Lists) {
    && (forall e :: e in edges ==> e.0 in adj && e.1 in adj[e.0])
    && (forall v :: v in adj ==> adj[v] != [] && forall w :: w in adj[v] ==> (v, w) in edges)
  }

  ghost predicate NonNegative(edges: Edges) {
    forall e :: e in edges ==> e.0 >= 0 && e.1 >= 0
  }

  /** The record of a node after `k` rounds. */
  ghost function RecordAt(edges: Edges, adj: Lists, s: int, k: nat, v: int): (n: Node) {
    Node(v, ListOf(adj, v), DistanceAt(edges, s, k, v), ColorAt(edges, s, k, v))
  }

  ghost function ListOf(adj: Lists, v: int): (list: seq<int>) {
    if v in adj then adj[v] else NOLIST
  }

  /** The hop distance, saturated; infinite outside the ball. */
  ghost function DistanceAt(edges: Edges, s: int, k: nat, v: int): (d: int) {
    if v in Ball(edges, s, k) then Saturated(Level(edges, s, v, k)) else INFINITE
  }

  function Saturated(d: nat): (r: int)
    ensures r <= d && r <= 100000 && (r == d || r == 100000)
  {
    if d < INFINITE then d else INFINITE
  }

  ghost function ColorAt(edges: Edges, s: int, k: nat, v: int): (c: Color) {
    if k == 0 then WHITE
    else if v in Ball(edges, s, k - 1) then BLACK
    else if v in Ball(edges, s, k) then GRAY
    else WHITE
  }

  /** The records after `k` rounds, in some order. */
  ghost predicate Stage(edges: Edges, adj: Lists, s: int, k: nat, records: seq<Node>) {
    && NoRepeat(records)
    && (forall v :: HasKey(records, v) <==> v in adj || v in Ball(edges, s, k))
    && (forall i :: 0 <= i < |records| ==> records[i] == RecordAt(edges, adj, s, k, records[i].nid))
  }

  ghost predicate Setting(edges: Edges, adj: Lists, s: int) {
    Groups(edges, adj) && NonNegative(edges) && s in adj
  }

  lemma RecordHasList(edges: Edges, adj: Lists, s: int, k: nat, v: int)
    requires Setting(edges, adj, s)
    ensures var n := RecordAt(edges, adj, s, k, v);
            n.list != [] && (HasList(n) <==> v in adj) && (v !in adj ==> n.list == NOLIST)
  {
    if v in adj {
      var w := adj[v][0];
      assert w in adj[v];
      assert (v, w) in edges;
    }
  }

  /** The node's own value in the next round. */
  ghost function OwnAt(edges: Edges, adj: Lists, s: int, k: nat, v: int): (n: Node) {
    Node(v, ListOf(adj, v), DistanceAt(edges, s, k, v), if v in Ball(edges, s, k) then BLACK else WHITE)
  }

  ghost function MessageAt(edges: Edges, s: int, k: nat, v: int, w: int): (n: Node)
    requires v in Ball(edges, s, k)
  {
    Node(w, NOLIST, Saturated(Level(edges, s, v, k) + 1), GRAY)
  }

  /** The nodes that expand in round `k + 1`. */
  ghost predicate ExpandsAt(edges: Edges, s: int, k: nat, v: int) {
    v == s || (v in Ball(edges, s, k) && Level(edges, s, v, k) == k)
  }

  lemma SourceInBall(edges: Edges, s: int, k: nat)
    ensures s in Ball(edges, s, k)
  {
    BallGrows(edges, s, s, 0, k);
  }

  lemma RecordExpands(edges: Edges, adj: Lists, s: int, k: nat, v: int)
    requires Setting(edges, adj, s)
    ensures var n := RecordAt(edges, adj, s, k, v);
            && (Expands(s, n) <==> ExpandsAt(edges, s, k, v))
            && Own(s, n) == OwnAt(edges, adj, s, k, v)
            && (ExpandsAt(edges, s, k, v) ==>
                  v in Ball(edges, s, k) && forall w :: Message(n, w) == MessageAt(edges, s, k, v, w))
  {
    SourceInBall(edges, s, k);
    if k > 0 {
      SourceInBall(edges, s, k - 1);
      BallGrows(edges, s, v, k - 1, k);
    }
  }

  /** The values that node `w` can receive in round `k + 1`. */
  ghost predicate IsValue(edges: Edges, adj: Lists, s: int, k: nat, w: int, x: Node) {
    || (x == OwnAt(edges, adj, s, k, w) && (w in adj || w in Ball(edges, s, k)))
    || exists v :: v in Ball(edges, s, k) && ExpandsAt(edges, s, k, v) && (v, w) in edges
        && x == MessageAt(edges, s, k, v, w)
  }

  lemma EmittedByRecord(edges: Edges, adj: Lists, s: int, k: nat, v: int, x: Node)
    requires Setting(edges, adj, s)
    ensures RecordAt(edges, adj, s, k, v).list != []
    ensures x in Emitted(s, RecordAt(edges, adj, s, k, v)) <==>
              || x == OwnAt(edges, adj, s, k, v)
              || (ExpandsAt(edges, s, k, v) && v in Ball(edges, s, k) && (v, x.nid) in edges
                  && x == MessageAt(edges, s, k, v, x.nid))
  {
    var n := RecordAt(edges, adj, s, k, v);
    RecordHasList(edges, adj, s, k, v);
    RecordExpands(edges, adj, s, k, v);
    hide RecordAt, OwnAt, MessageAt, ExpandsAt, Expands, Own, Message, Ball;
    MessagesTo(n, n.list, x);
    assert v in adj ==> n.list == adj[v];
  }

  lemma MessagesTo(n: Node, to: seq<int>, x: Node)
    ensures x in Messages(n, to) <==> x.nid in to && x == Message(n, x.nid)
  {
    if x.nid in to && x == Message(n, x.nid) {
      var k :| 0 <= k < |to| && to[k] == x.nid;
      assert Messages(n, to)[k] == x;
    }
  }

  /** What the mappers emit for a key, in terms of balls. */
  lemma StageEmits(edges: Edges, adj: Lists, s: int, k: nat, records: seq<Node>, x: Node)
    requires Setting(edges, adj, s) && Stage(edges, adj, s, k, records) && Listy(records)
    ensures x in AllEmitted(s, records) <==> IsValue(edges, adj, s, k, x.nid, x)
  {
    EmittedByOne(s, records, x);
    hide AllEmitted, Emitted, Setting, Groups, NonNegative, RecordAt, OwnAt, MessageAt, ExpandsAt, Ball;
    if x in AllEmitted(s, records) {
      var n :| n in records && n.list != [] && x in Emitted(s, n);
      assert n == RecordAt(edges, adj, s, k, n.nid);
      EmittedByRecord(edges, adj, s, k, n.nid, x);
      StageHas(edges, adj, s, k, records, n.nid);
      OwnKey(edges, adj, s, k, n.nid);
    }
    if IsValue(edges, adj, s, k, x.nid, x) {
      var v: int;
      if x == OwnAt(edges, adj, s, k, x.nid) && (x.nid in adj || x.nid in Ball(edges, s, k)) {
        v := x.nid;
      } else {
        v :| v in Ball(edges, s, k) && ExpandsAt(edges, s, k, v) && (v, x.nid) in edges
            && x == MessageAt(edges, s, k, v, x.nid);
      }
      StageHas(edges, adj, s, k, records, v);
      EmittedByRecord(edges, adj, s, k, v, x);
    }
  }

  lemma OwnKey(edges: Edges, adj: Lists, s: int, k: nat, v: int)
    ensures OwnAt(edges, adj, s, k, v).nid == v
  {
  }

  lemma StageHas(edges: Edges, adj: Lists, s: int, k: nat, records: seq<Node>, v: int)
    requires Stage(edges, adj, s, k, records)
    ensures RecordAt(edges, adj, s, k, v) in records <==> v in adj || v in Ball(edges, s, k)
  {
    hide Ball, DistanceAt, ColorAt, ListOf;
    if RecordAt(edges, adj, s, k, v) in records {
      assert HasKey(records, v);
    }
    if v in adj || v in Ball(edges, s, k) {
      assert HasKey(records, v);
    }
  }

  /** A value's distance is no less than the distance after the round, and its colour no darker. */
  lemma {:induction false} ValueBounds(edges: Edges, adj: Lists, s: int, k: nat, w: int, x: Node)
    requires Setting(edges, adj, s) && IsValue(edges, adj, s, k, w, x)
    ensures x.distance >= DistanceAt(edges, s, k + 1, w)
    ensures ColorIndex(x.color) <= ColorIndex(ColorAt(edges, s, k + 1, w))
    ensures x.list != [] && (HasList(x) ==> x.list == ListOf(adj, w)) && (!HasList(x) ==> x.list == NOLIST)
    ensures w in adj || w in Ball(edges, s, k + 1)
  {
    BallGrows(edges, s, w, k, k + 1);
    RecordHasList(edges, adj, s, k, w);
    if x != OwnAt(edges, adj, s, k, w) {
      var v :| v in Ball(edges, s, k) && ExpandsAt(edges, s, k, v) && (v, w) in edges
          && x == MessageAt(edges, s, k, v, w);
      EdgeLevel(edges, s, v, w, k);
    }
  }

  /** Some value attains the distance, and the colour, after the round. */
  lemma ValueAttains(edges: Edges, adj: Lists, s: int, k: nat, w: int) returns (x: Node)
    requires Setting(edges, adj, s) && (w in adj || w in Ball(edges, s, k + 1))
    ensures x.nid == w && IsValue(edges, adj, s, k, w, x)
    ensures x.distance == DistanceAt(edges, s, k + 1, w) && x.color == ColorAt(edges, s, k + 1, w)
  {
    BallGrows(edges, s, w, k, k + 1);
    if w in Ball(edges, s, k) || w !in Ball(edges, s, k + 1) {
      x := OwnAt(edges, adj, s, k, w);
    } else {
      var v := NewInBall(edges, s, w, k);
      x := MessageAt(edges, s, k, v, w);
      assert ExpandsAt(edges, s, k, v);
    }
  }

  /** Merging a key's values yields its record after the round. */
  lemma MergeIsRecord(edges: Edges, adj: Lists, s: int, k: nat, values: set<Node>, o: Node)
    requires Setting(edges, adj, s) && (o.nid in adj || o.nid in Ball(edges, s, k + 1))
    requires forall x :: x in values <==> x.nid == o.nid && IsValue(edges, adj, s, k, o.nid, x)
    requires IsMerge(o.nid, values, o)
    ensures o == RecordAt(edges, adj, s, k + 1, o.nid)
  {
    var w := o.nid;
    forall x | x in values
      ensures x.distance >= DistanceAt(edges, s, k + 1, w)
      ensures ColorIndex(x.color) <= ColorIndex(ColorAt(edges, s, k + 1, w))
      ensures x.list != [] && (HasList(x) ==> x.list == ListOf(adj, w)) && (!HasList(x) ==> x.list == NOLIST)
    {
      ValueBounds(edges, adj, s, k, w, x);
    }
    var best := ValueAttains(edges, adj, s, k, w);
    OwnIsValue(edges, adj, s, k, w);
    RecordHasList(edges, adj, s, k, w);
    assert w in adj ==> OwnAt(edges, adj, s, k, w) in values;
    hide Ball, DistanceAt, ColorAt, IsValue, Setting;
    assert best in values;
    assert o.distance == DistanceAt(edges, s, k + 1, w);
    assert o.color == ColorAt(edges, s, k + 1, w);
    assert o.list == ListOf(adj, w);
  }

  lemma OwnIsValue(edges: Edges, adj: Lists, s: int, k: nat, w: int)
    ensures w in adj ==> IsValue(edges, adj, s, k, w, OwnAt(edges, adj, s, k, w))
    ensures OwnAt(edges, adj, s, k, w).nid == w && OwnAt(edges, adj, s, k, w).list == ListOf(adj, w)
  {
  }

  /** The emitted values are exactly the ones expected in round `k + 1`. */
  ghost predicate EmitsValues(edges: Edges, adj: Lists, s: int, k: nat, emitted: seq<Node>) {
    forall x :: x in emitted <==> IsValue(edges, adj, s, k, x.nid, x)
  }

  lemma StageEmitsValues(edges: Edges, adj: Lists, s: int, k: nat, records: seq<Node>)
    requires Setting(edges, adj, s) && Stage(edges, adj, s, k, records) && Listy(records)
    ensures EmitsValues(edges, adj, s, k, AllEmitted(s, records))
  {
    forall x ensures x in AllEmitted(s, records) <==> IsValue(edges, adj, s, k, x.nid, x) {
      StageEmits(edges, adj, s, k, records, x);
    }
  }

  /** One round with any shuffle takes the records of `k` rounds to those of `k + 1`. */
  lemma RoundAdvances(edges: Edges, adj: Lists, s: int, k: nat, records: seq<Node>, out: seq<Node>)
    requires Setting(edges, adj, s) && Stage(edges, adj, s, k, records)
    requires Listy(records) && Round(s, records, out)
    ensures Stage(edges, adj, s, k + 1, out)
  {
    var emitted := AllEmitted(s, records);
    StageEmitsValues(edges, adj, s, k, records);
    hide AllEmitted, Setting, EmitsValues, Ball, RecordAt, ReducerOutput, HasKey;
    forall w ensures HasKey(out, w) <==> w in adj || w in Ball(edges, s, k + 1) {
      EmittedKeys(edges, adj, s, k, emitted, w);
    }
    forall i | 0 <= i < |out| ensures out[i] == RecordAt(edges, adj, s, k + 1, out[i].nid) {
      KeyOf(out, i);
      OutputIsRecord(edges, adj, s, k, emitted, out[i]);
    }
  }

  lemma KeyOf(records: seq<Node>, i: nat)
    requires i < |records|
    ensures HasKey(records, records[i].nid)
  {
  }

  lemma OutputIsRecord(edges: Edges, adj: Lists, s: int, k: nat, emitted: seq<Node>, o: Node)
    requires Setting(edges, adj, s) && (o.nid in adj || o.nid in Ball(edges, s, k + 1))
    requires EmitsValues(edges, adj, s, k, emitted)
    requires ReducerOutput(emitted, o)
    ensures o == RecordAt(edges, adj, s, k + 1, o.nid)
  {
    OutputIsMerge(emitted, o);
    hide Setting, IsValue, Ball, RecordAt, IsMerge, ReducerOutput;
    MergeIsRecord(edges, adj, s, k, ValuesOf(emitted, o.nid), o);
  }

  lemma EmittedKeys(edges: Edges, adj: Lists, s: int, k: nat, emitted: seq<Node>, w: int)
    requires Setting(edges, adj, s)
    requires EmitsValues(edges, adj, s, k, emitted)
    ensures HasKey(emitted, w) <==> w in adj || w in Ball(edges, s, k + 1)
  {
    hide Ball, IsValue, Setting;
    if HasKey(emitted, w) {
      var j :| 0 <= j < |emitted| && emitted[j].nid == w;
      assert emitted[j] in emitted;
      ValueBounds(edges, adj, s, k, w, emitted[j]);
    }
    if w in adj || w in Ball(edges, s, k + 1) {
      var x := ValueAttains(edges, adj, s, k, w);
      assert x in emitted;
    }
  }

  /** In every round the values of a key hold at most one real list, so their order is irrelevant. */
  lemma ShuffleIsIrrelevant(edges: Edges, adj: Lists, s: int, k: nat, records: seq<Node>, key: int, a: seq<Node>,
                            b: seq<Node>)
    requires Setting(edges, adj, s) && Stage(edges, adj, s, k, records) && Listy(records) && Listy(a) && Listy(b)
    requires Delivered(AllEmitted(s, records), key, a) && Delivered(AllEmitted(s, records), key, b)
    ensures OneList(Elements(a)) && Reduced(key, a) == Reduced(key, b)
  {
    var emitted := AllEmitted(s, records);
    StageEmitsValues(edges, adj, s, k, records);
    hide Setting, Stage, AllEmitted, Reduced;
    SameElements(emitted, key, a);
    SameElements(emitted, key, b);
    forall x | x in a
      ensures x.list != [] && (HasList(x) ==> x.list == ListOf(adj, key)) && (!HasList(x) ==> x.list == NOLIST)
    {
      assert x in Elements(a) && x in ValuesOf(emitted, key);
      hide IsValue;
      ValueBounds(edges, adj, s, k, key, x);
    }
    hide IsValue, EmitsValues;
    assert multiset(a) == multiset(b);
    ReduceIgnoresOrder(key, a, b);
  }
}
