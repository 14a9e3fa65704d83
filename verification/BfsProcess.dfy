/** The jobs as they run: parsing, rounds of map, shuffle and reduce, and the output. */
module BfsProcess {
  import opened BfsGraph
  import opened BfsRounds
  import opened BfsRuns

  /** The elements of a bag in an order that the platform chooses. */
  method AnyOrder<T(==)>(bag: multiset<T>) returns (list: seq<T>)
    ensures multiset(list) == bag
  {
    list := [];
    var left := bag;
    while left != multiset{}
      invariant multiset(list) + left == bag
      decreases |left|
    {
      var x :| x in left;
      list, left := list + [x], left - multiset{x};
    }
  }

  /** Reduce_parser, for one start and its ends. */
  method ReduceParser(source: int, key: int, values: seq<int>) returns (n: Node)
    ensures n == Node(key, values, if key == source then 0 else INFINITE, WHITE)
  {
    var list := [];
    for i := 0 to |values|
      invariant list == values[..i]
    {
      list := list + [values[i]];
    }
    assert values[..|values|] == values;
    if key == source {
      n := Node(key, list, 0, WHITE);
    } else {
      n := Node(key, list, INFINITE, WHITE);
    }
  }

  /** The ends of the edges that start at `key`. */
  method CollectEnds(edges: Edges, key: int) returns (ends: multiset<int>)
    ensures forall w :: ends[w] == multiset(edges)[(key, w)]
    ensures forall w :: w in ends <==> (key, w) in edges
  {
    ends := multiset{};
    for i := 0 to |edges|
      invariant forall w :: ends[w] == multiset(edges[..i])[(key, w)]
    {
      assert edges[..i + 1] == edges[..i] + [edges[i]];
      if edges[i].0 == key {
        ends := ends + multiset{edges[i].1};
      }
    }
    assert edges[..|edges|] == edges;
    assert forall w :: (key, w) in multiset(edges) <==> (key, w) in edges;
  }

  /** The grouping so far, with the starts in `keys` still to come. */
  ghost predicate GroupsBut(edges: Edges, adj: Lists, keys: set<int>) {
    && (forall e :: e in edges ==> e.0 in keys || (e.0 in adj && e.1 in adj[e.0]))
    && (forall v :: v in adj ==> v !in keys && adj[v] != [] && forall w :: w in adj[v] ==> (v, w) in edges)
  }

  lemma GroupsMore(edges: Edges, adj: Lists, keys: set<int>, key: int, values: seq<int>)
    requires GroupsBut(edges, adj, keys) && key in keys && values != []
    requires forall w :: w in values <==> (key, w) in edges
    ensures GroupsBut(edges, adj[key := values], keys - {key})
  {
    forall e | e in edges && e.0 == key ensures e.1 in values {
      var w := e.1;
      assert e == (key, w) && (key, w) in edges;
    }
  }

  /** The parsing job. */
  method Parse(edges: Edges, source: int) returns (records: seq<Node>, ghost adj: Lists)
    ensures Groups(edges, adj) && Parsed(adj, source, records) && Listy(records)
    ensures forall v, w :: v in adj ==> multiset(adj[v])[w] == multiset(edges)[(v, w)]
  {
    records, adj := [], map[];
    var keys := set e | e in edges :: e.0;
    while keys != {}
      invariant GroupsBut(edges, adj, keys)
      invariant forall v :: v in keys ==> v !in adj && exists e :: e in edges && e.0 == v
      invariant Parsed(adj, source, records) && Listy(records)
      invariant forall v, w :: v in adj ==> multiset(adj[v])[w] == multiset(edges)[(v, w)]
    {
      var key :| key in keys;
      var ends := CollectEnds(edges, key);
      var values := AnyOrder(ends);
      SomeEnd(edges, key, ends, values);
      var n := ReduceParser(source, key, values);
      ParsedMore(adj, source, records, n);
      GroupsMore(edges, adj, keys, key, values);
      hide Parsed, GroupsBut;
      records, adj := records + [n], adj[key := values];
      keys := keys - {key};
    }
  }

  lemma SomeEnd(edges: Edges, key: int, ends: multiset<int>, values: seq<int>)
    requires multiset(values) == ends && (forall w :: w in ends <==> (key, w) in edges)
    requires exists e :: e in edges && e.0 == key
    ensures values != [] && forall w :: w in values <==> (key, w) in edges
  {
    var e :| e in edges && e.0 == key;
    var w := e.1;
    assert e == (key, w);
    assert (key, w) in edges;
    assert w in ends;
    assert forall w :: w in values <==> w in multiset(values);
  }

  lemma ParsedMore(adj: Lists, s: int, records: seq<Node>, n: Node)
    requires Parsed(adj, s, records) && n.nid !in adj
    requires n == Node(n.nid, n.list, if n.nid == s then 0 else INFINITE, WHITE)
    ensures Parsed(adj[n.nid := n.list], s, records + [n])
  {
    forall v ensures HasKey(records + [n], v) <==> HasKey(records, v) || v == n.nid {
      KeysMore(records, n, v);
    }
    forall i | 0 <= i < |records| ensures records[i].nid != n.nid {
      KeyOf(records, i);
    }
    hide HasKey;
  }

  lemma KeysMore(records: seq<Node>, n: Node, v: int)
    ensures HasKey(records + [n], v) <==> HasKey(records, v) || v == n.nid
  {
    var all := records + [n];
    if HasKey(records, v) {
      var i :| 0 <= i < |records| && records[i].nid == v;
      assert all[i].nid == v;
    }
    assert all[|records|] == n;
  }

  /** Map_Iteration, for one record. */
  method MapIteration(source: int, record: Node) returns (out: seq<Node>)
    requires record.list != []
    ensures out == Emitted(source, record)
  {
    var n := record;
    if n.nid == source {
      n := n.(color := GRAY);
    }
    match n.color {
      case BLACK => out := [n];
      case WHITE => out := [n];
      case GRAY =>
        n := n.(color := BLACK);
        out := [n];
        if !(n.list[0] == -1) {
          for i := 0 to |n.list|
            invariant out == [n] + Messages(record, n.list[..i])
          {
            var d;
            if n.distance == INFINITE {
              d := INFINITE;
            } else {
              d := n.distance + 1;
            }
            assert Messages(record, n.list[..i + 1]) == Messages(record, n.list[..i]) + [Message(record, n.list[i])];
            out := out + [Node(n.list[i], NOLIST, d, GRAY)];
          }
          assert n.list[..|n.list|] == n.list;
        }
    }
  }

  /** Reduce_Iteration, for one key; the counter rises when the record is grey. */
  method ReduceIteration(key: int, values: seq<Node>) returns (outNode: Node, count: nat)
    requires Listy(values)
    ensures outNode == Reduced(key, values)
    ensures count == if outNode.color == GRAY then 1 else 0
  {
    var min, cMin := INFINITE, ColorIndex(WHITE);
    outNode := Node(key, NOLIST, INFINITE, WHITE);
    for i := 0 to |values|
      invariant outNode == Reduced(key, values[..i])
      invariant min == outNode.distance && cMin == ColorIndex(outNode.color)
    {
      var tmp := values[i];
      assert values[..i + 1][..i] == values[..i];
      if tmp.list[0] != -1 {
        outNode := outNode.(list := tmp.list);
      }
      if tmp.distance < min {
        min := tmp.distance;
        outNode := outNode.(distance := min);
      }
      if ColorIndex(tmp.color) > cMin {
        cMin := ColorIndex(tmp.color);
        outNode := outNode.(color := tmp.color);
      }
    }
    assert values[..|values|] == values;
    count := if outNode.color == GRAY then 1 else 0;
  }

  /** The shuffle, for one key. */
  method Shuffle(emitted: seq<Node>, key: int) returns (values: seq<Node>)
    requires Listy(emitted)
    ensures Delivered(emitted, key, values) && Listy(values)
  {
    var bag: multiset<Node> := multiset{};
    for i := 0 to |emitted|
      invariant forall x :: bag[x] == if x.nid == key then multiset(emitted[..i])[x] else 0
    {
      assert emitted[..i + 1] == emitted[..i] + [emitted[i]];
      if emitted[i].nid == key {
        bag := bag + multiset{emitted[i]};
      }
    }
    assert emitted[..|emitted|] == emitted;
    values := AnyOrder(bag);
    forall k | 0 <= k < |values| ensures values[k].list != [] {
      assert values[k] in multiset(values);
      assert values[k] in multiset(emitted);
    }
  }

  /** All mappers of one round. */
  method MapAll(source: int, records: seq<Node>) returns (emitted: seq<Node>)
    requires Listy(records)
    ensures emitted == AllEmitted(source, records)
  {
    emitted := [];
    for i := 0 to |records|
      invariant emitted == AllEmitted(source, records[..i])
    {
      assert records[..i + 1][..i] == records[..i];
      var out := MapIteration(source, records[i]);
      emitted := emitted + out;
    }
    assert records[..|records|] == records;
  }

  /** The reducers that have run, with `keys` still to come. */
  ghost predicate RoundBut(emitted: seq<Node>, keys: set<int>, out: seq<Node>) {
    && NoRepeat(out)
    && (forall key :: HasKey(emitted, key) <==> key in keys || HasKey(out, key))
    && (forall key :: key in keys ==> !HasKey(out, key))
    && (forall k :: 0 <= k < |out| ==> ReducerOutput(emitted, out[k]))
  }

  lemma RoundMore(emitted: seq<Node>, keys: set<int>, out: seq<Node>, o: Node)
    requires RoundBut(emitted, keys, out) && o.nid in keys && ReducerOutput(emitted, o)
    ensures RoundBut(emitted, keys - {o.nid}, out + [o])
  {
    OutputMore(out, o);
    hide ReducerOutput, HasKey, NoRepeat;
  }

  lemma RoundStarts(emitted: seq<Node>, keys: set<int>)
    requires keys == set n | n in emitted :: n.nid
    ensures RoundBut(emitted, keys, [])
  {
    forall key ensures HasKey(emitted, key) <==> key in keys {
      if key in keys {
        var n :| n in emitted && n.nid == key;
      }
      if HasKey(emitted, key) {
        var i :| 0 <= i < |emitted| && emitted[i].nid == key;
        assert emitted[i] in emitted;
      }
    }
  }

  lemma ReducerDone(emitted: seq<Node>, key: int, values: seq<Node>, o: Node)
    requires Listy(values) && Delivered(emitted, key, values) && o == Reduced(key, values)
    ensures o.nid == key && o.list != [] && ReducerOutput(emitted, o)
  {
    ReducedIsMerge(key, values);
    hide Reduced;
    if o.list != NOLIST {
      var x :| x in Elements(values) && x.list == o.list;
    }
  }

  /** One job of map, shuffle and reduce; `track` counts the grey records. */
  method Iteration(source: int, records: seq<Node>) returns (out: seq<Node>, track: nat)
    requires Listy(records)
    ensures Round(source, records, out) && Listy(out)
    ensures track == GrayRecords(out)
    ensures track == 0 <==> !HasGray(out)
  {
    var emitted := MapAll(source, records);
    out, track := [], 0;
    assert Listy(out) && !HasGray(out) && GrayRecords(out) == 0;
    var keys := set n | n in emitted :: n.nid;
    RoundStarts(emitted, keys);
    hide *;
    while keys != {}
      invariant RoundBut(emitted, keys, out)
      invariant Listy(out)
      invariant track == GrayRecords(out)
      invariant track == 0 <==> !HasGray(out)
    {
      var key :| key in keys;
      var values := Shuffle(emitted, key);
      var o, count := ReduceIteration(key, values);
      ReducerDone(emitted, key, values, o);
      RoundMore(emitted, keys, out, o);
      GrayMore(out, o);
      GrayRecordsMore(out, o);
      ListyMore(out, o);
      out, track, keys := out + [o], track + count, keys - {key};
    }
    RoundEnds(source, records, out);
  }

  lemma RoundEnds(source: int, records: seq<Node>, out: seq<Node>)
    requires Listy(records) && RoundBut(AllEmitted(source, records), {}, out)
    ensures Round(source, records, out)
  {
    hide AllEmitted, ReducerOutput, HasKey, NoRepeat;
  }

  lemma ListyMore(out: seq<Node>, o: Node)
    requires Listy(out) && o.list != []
    ensures Listy(out + [o])
  {
  }

  lemma GrayMore(out: seq<Node>, o: Node)
    ensures HasGray(out + [o]) <==> HasGray(out) || o.color == GRAY
  {
    var all := out + [o];
    assert all[|out|] == o;
    if HasGray(out) {
      var i :| 0 <= i < |out| && out[i].color == GRAY;
      assert all[i].color == GRAY;
    }
  }

  lemma OutputMore(out: seq<Node>, o: Node)
    requires NoRepeat(out) && !HasKey(out, o.nid)
    ensures NoRepeat(out + [o])
    ensures forall v :: HasKey(out + [o], v) <==> HasKey(out, v) || v == o.nid
  {
    forall v ensures HasKey(out + [o], v) <==> HasKey(out, v) || v == o.nid {
      KeysMore(out, o, v);
    }
    forall i | 0 <= i < |out| ensures out[i].nid != o.nid {
      KeyOf(out, i);
    }
  }

  ghost function GrayRecords(records: seq<Node>): (n: nat) {
    |set i | 0 <= i < |records| && records[i].color == GRAY|
  }

  lemma GrayRecordsMore(out: seq<Node>, o: Node)
    ensures GrayRecords(out + [o]) == GrayRecords(out) + if o.color == GRAY then 1 else 0
  {
    var longer := out + [o];
    var more := set i | 0 <= i < |longer| && longer[i].color == GRAY;
    var less := set i | 0 <= i < |out| && out[i].color == GRAY;
    assert more == less + if o.color == GRAY then {|out|} else {};
  }

  ghost predicate ListsOutputs(pairs: seq<(int, int)>, records: seq<Node>) {
    forall v, d :: (v, d) in pairs <==> Outputs(records, v, d)
  }

  ghost predicate IsBlackAt(n: Node, v: int, d: int) {
    n.color == BLACK && n.nid == v && n.distance == d
  }

  /** How many black records have this id and distance. */
  ghost function BlackRecords(records: seq<Node>, v: int, d: int): (n: nat) {
    |set i | 0 <= i < |records| && IsBlackAt(records[i], v, d)|
  }

  lemma OneMoreRecord(records: seq<Node>, i: nat, v: int, d: int)
    requires i < |records|
    ensures BlackRecords(records[..i + 1], v, d) == BlackRecords(records[..i], v, d)
              + if IsBlackAt(records[i], v, d) then 1 else 0
  {
    hide IsBlackAt;
    var longer, shorter := records[..i + 1], records[..i];
    var more := set j | 0 <= j < |longer| && IsBlackAt(longer[j], v, d);
    var less := set j | 0 <= j < |shorter| && IsBlackAt(shorter[j], v, d);
    assert more == less + if IsBlackAt(records[i], v, d) then {i} else {};
  }

  /** The output job: one pair for each black record. */
  method Output(records: seq<Node>) returns (pairs: seq<(int, int)>)
    ensures ListsOutputs(pairs, records)
    ensures forall v, d :: multiset(pairs)[(v, d)] == BlackRecords(records, v, d)
    ensures NoRepeat(records) ==> forall i, j :: 0 <= i < j < |pairs| ==> pairs[i].0 != pairs[j].0
  {
    pairs := [];
    hide *;
    NothingWritten(records);
    for i := 0 to |records|
      invariant Written(pairs, records[..i])
    {
      WrittenMore(pairs, records, i);
      if records[i].color == BLACK {
        pairs := pairs + [(records[i].nid, records[i].distance)];
      }
    }
    assert records[..|records|] == records;
    WrittenMeans(pairs, records);
  }

  /** The pairs written for the records so far. */
  ghost predicate Written(pairs: seq<(int, int)>, records: seq<Node>) {
    && ListsOutputs(pairs, records)
    && (forall v, d :: multiset(pairs)[(v, d)] == BlackRecords(records, v, d))
    && (forall p :: 0 <= p < |pairs| ==> exists k :: 0 <= k < |records| && records[k].nid == pairs[p].0)
    && (NoRepeat(records) ==> forall p, q :: 0 <= p < q < |pairs| ==> pairs[p].0 != pairs[q].0)
  }

  lemma NothingWritten(records: seq<Node>)
    ensures Written([], records[..0])
  {
    NoRecords(records);
  }

  lemma WrittenMeans(pairs: seq<(int, int)>, records: seq<Node>)
    requires Written(pairs, records)
    ensures ListsOutputs(pairs, records)
    ensures forall v, d :: multiset(pairs)[(v, d)] == BlackRecords(records, v, d)
    ensures NoRepeat(records) ==> forall i, j :: 0 <= i < j < |pairs| ==> pairs[i].0 != pairs[j].0
  {
  }

  lemma WrittenMore(pairs: seq<(int, int)>, records: seq<Node>, i: nat)
    requires i < |records| && Written(pairs, records[..i])
    ensures Written(if records[i].color == BLACK then pairs + [(records[i].nid, records[i].distance)] else pairs,
                    records[..i + 1])
  {
    hide ListsOutputs, BlackRecords, NoRepeat;
    var pairs' := if records[i].color == BLACK then pairs + [(records[i].nid, records[i].distance)] else pairs;
    ListedMore(pairs, records, i);
    DistinctMore(pairs, records, i);
    forall v, d ensures multiset(pairs')[(v, d)] == BlackRecords(records[..i + 1], v, d) {
      CountedMore(pairs, records, i, v, d);
    }
  }

  lemma ListedMore(pairs: seq<(int, int)>, records: seq<Node>, i: nat)
    requires i < |records| && ListsOutputs(pairs, records[..i])
    ensures ListsOutputs(if records[i].color == BLACK then pairs + [(records[i].nid, records[i].distance)] else pairs,
                         records[..i + 1])
  {
    OutputsMore(records, i);
    hide Outputs;
  }

  lemma CountedMore(pairs: seq<(int, int)>, records: seq<Node>, i: nat, v: int, d: int)
    requires i < |records| && multiset(pairs)[(v, d)] == BlackRecords(records[..i], v, d)
    ensures var pairs' := if records[i].color == BLACK then pairs + [(records[i].nid, records[i].distance)] else pairs;
            multiset(pairs')[(v, d)] == BlackRecords(records[..i + 1], v, d)
  {
    OneMoreRecord(records, i, v, d);
    hide BlackRecords;
  }

  lemma DistinctMore(pairs: seq<(int, int)>, records: seq<Node>, i: nat)
    requires i < |records|
    requires forall p :: 0 <= p < |pairs| ==> exists k :: 0 <= k < |records[..i]| && records[..i][k].nid == pairs[p].0
    requires NoRepeat(records[..i]) ==> forall p, q :: 0 <= p < q < |pairs| ==> pairs[p].0 != pairs[q].0
    ensures var longer := records[..i + 1];
            var pairs' := if records[i].color == BLACK then pairs + [(records[i].nid, records[i].distance)] else pairs;
            && (forall p :: 0 <= p < |pairs'| ==> exists k :: 0 <= k < |longer| && longer[k].nid == pairs'[p].0)
            && (NoRepeat(longer) ==> forall p, q :: 0 <= p < q < |pairs'| ==> pairs'[p].0 != pairs'[q].0)
  {
    var longer, shorter := records[..i + 1], records[..i];
    var pairs' := if records[i].color == BLACK then pairs + [(records[i].nid, records[i].distance)] else pairs;
    assert longer[i] == records[i] && forall k :: 0 <= k < i ==> longer[k] == shorter[k];
    forall p | 0 <= p < |pairs'| ensures exists k :: 0 <= k < |longer| && longer[k].nid == pairs'[p].0 {
      if p < |pairs| {
        var k :| 0 <= k < |shorter| && shorter[k].nid == pairs[p].0;
        assert longer[k].nid == pairs'[p].0;
      } else {
        assert longer[i].nid == pairs'[p].0;
      }
    }
    if NoRepeat(longer) {
      forall j, k | 0 <= j < k < |shorter| ensures shorter[j].nid != shorter[k].nid {
        assert longer[j].nid != longer[k].nid;
      }
      forall p, q | 0 <= p < q < |pairs'| ensures pairs'[p].0 != pairs'[q].0 {
        if q == |pairs| {
          var k :| 0 <= k < |shorter| && shorter[k].nid == pairs[p].0;
          assert longer[k].nid != longer[i].nid;
        }
      }
    }
  }

  lemma NoRecords(records: seq<Node>)
    ensures forall v, d :: BlackRecords(records[..0], v, d) == 0
    ensures forall v, d :: !Outputs(records[..0], v, d)
  {
  }

  lemma OutputsMore(records: seq<Node>, i: nat)
    requires i < |records|
    ensures forall v, d :: Outputs(records[..i + 1], v, d) <==>
              Outputs(records[..i], v, d)
              || (records[i].color == BLACK && records[i].nid == v && records[i].distance == d)
  {
    forall v, d ensures Outputs(records[..i + 1], v, d) <==>
              Outputs(records[..i], v, d)
              || (records[i].color == BLACK && records[i].nid == v && records[i].distance == d)
    {
      var more, less := records[..i + 1], records[..i];
      if Outputs(less, v, d) {
        var j :| 0 <= j < |less| && less[j].color == BLACK && less[j].nid == v && less[j].distance == d;
        assert more[j] == less[j];
      }
      if Outputs(more, v, d) {
        var j :| 0 <= j < |more| && more[j].color == BLACK && more[j].nid == v && more[j].distance == d;
        assert j < i ==> less[j] == more[j];
      }
      assert more[i] == records[i];
    }
  }

  /** The jobs so far: every state but the first has grey records. */
  ghost predicate Running(adj: Lists, s: int, stages: seq<seq<Node>>) {
    && stages != []
    && Parsed(adj, s, stages[0])
    && (forall k :: 0 <= k < |stages| ==> Listy(stages[k]))
    && (forall k :: 0 <= k < |stages| - 1 ==> Round(s, stages[k], stages[k + 1]))
    && (forall k :: 1 <= k < |stages| ==> HasGray(stages[k]))
  }

  lemma RunningMore(adj: Lists, s: int, stages: seq<seq<Node>>, out: seq<Node>)
    requires Running(adj, s, stages) && Listy(out) && Round(s, stages[|stages| - 1], out)
    ensures if HasGray(out) then Running(adj, s, stages + [out]) else Run(adj, s, stages + [out])
  {
    hide Parsed, Listy, Round, HasGray;
  }

  lemma LastGray(adj: Lists, s: int, stages: seq<seq<Node>>)
    requires Running(adj, s, stages) && |stages| > 1
    ensures HasGray(stages[|stages| - 1])
  {
    hide Parsed, Listy, Round, HasGray;
  }

  lemma IdleRunning(edges: Edges, adj: Lists, s: int, stages: seq<seq<Node>>, out: seq<Node>)
    requires Input(edges, adj) && Running(adj, s, stages) && s !in adj && |stages| == 1
    requires Listy(out) && Round(s, stages[0], out)
    ensures !HasGray(out)
  {
    assert Idle(adj, stages[0]);
    IdleRound(edges, adj, s, stages[0], out);
  }

  ghost predicate Looping(edges: Edges, adj: Lists, s: int, stages: seq<seq<Node>>) {
    && Input(edges, adj) && Running(adj, s, stages)
    && if s in adj then Stage(edges, adj, s, |stages| - 1, stages[|stages| - 1]) else |stages| == 1
  }

  lemma LoopStarts(edges: Edges, adj: Lists, s: int, records: seq<Node>)
    requires Input(edges, adj) && Parsed(adj, s, records) && Listy(records)
    ensures Looping(edges, adj, s, [records])
  {
    hide Parsed, Stage, Listy;
    if s in adj {
      ParsedIsStage(edges, adj, s, records);
    }
  }

  /** One more job: the run goes on with fewer nodes left, or it is complete. */
  lemma LoopContinues(edges: Edges, adj: Lists, s: int, stages: seq<seq<Node>>, out: seq<Node>)
    requires Looping(edges, adj, s, stages) && stages != [] && Listy(out) && Listy(stages[|stages| - 1])
    requires Round(s, stages[|stages| - 1], out)
    ensures HasGray(out) ==> Looping(edges, adj, s, stages + [out])
    ensures HasGray(out) ==> Remaining(edges, s, |stages|) < Remaining(edges, s, |stages| - 1)
    ensures !HasGray(out) ==> Run(adj, s, stages + [out])
  {
    hide Stage, Round, HasGray, Remaining, Running, Run, Listy, Groups, NonNegative;
    var k, records := |stages| - 1, stages[|stages| - 1];
    if k >= 1 {
      LastGray(adj, s, stages);
    }
    RunningMore(adj, s, stages, out);
    assert (stages + [out])[k + 1] == out;
    if s in adj {
      RemainingFalls(edges, adj, s, k, records);
      RoundAdvances(edges, adj, s, k, records, out);
    } else {
      IdleRunning(edges, adj, s, stages, out);
    }
  }

  lemma LastListy(edges: Edges, adj: Lists, s: int, stages: seq<seq<Node>>)
    requires Looping(edges, adj, s, stages)
    ensures stages != [] && Listy(stages[|stages| - 1])
  {
    hide Listy, Round, Parsed, HasGray;
  }

  /** The pairs are the reachable nodes with their saturated hop distances, and no others. */
  ghost predicate IsShortestDistances(edges: Edges, s: int, pairs: seq<(int, int)>) {
    forall v, d :: (v, d) in pairs <==> Expected(edges, s, v, d)
  }

  /**
     The whole program. It stops after one round more than the greatest finite hop
     distance, and then its output is right exactly when the source has an outgoing edge.
     */
  method ParallelBfs(edges: Edges, source: int) returns (pairs: seq<(int, int)>, rounds: nat)
    requires NonNegative(edges)
    ensures HasEdgeFrom(edges, source) <==> IsShortestDistances(edges, source, pairs)
    ensures forall i, j :: 0 <= i < j < |pairs| ==> pairs[i].0 != pairs[j].0
    ensures !HasEdgeFrom(edges, source) ==> pairs == []
    ensures if HasEdgeFrom(edges, source) then rounds >= 1 && Eccentricity(edges, source, rounds - 1) else rounds == 1
  {
    ghost var adj;
    var records;
    records, adj := Parse(edges, source);
    ghost var stages := [records];
    rounds := 0;
    hide *;
    EdgeFrom(edges, adj, source);
    InputOf(edges, adj);
    LoopStarts(edges, adj, source, records);
    while true
      invariant |stages| == rounds + 1 && stages[|stages| - 1] == records
      invariant Looping(edges, adj, source, stages)
      decreases Remaining(edges, source, rounds)
    {
      LastListy(edges, adj, source, stages);
      var out, track := Iteration(source, records);
      LoopContinues(edges, adj, source, stages, out);
      records, rounds, stages := out, rounds + 1, stages + [out];
      if track == 0 {
        break;
      }
    }
    pairs := Output(records);
    PairsOfRun(edges, adj, source, stages, pairs);
    LastRecordsDiffer(adj, source, stages);
    NothingListed(edges, adj, source, stages, pairs);
    RunLength(edges, adj, source, stages);
  }

  lemma PairsOfRun(edges: Edges, adj: Lists, s: int, stages: seq<seq<Node>>, pairs: seq<(int, int)>)
    requires Input(edges, adj) && Run(adj, s, stages) && ListsOutputs(pairs, stages[|stages| - 1])
    ensures s in adj <==> IsShortestDistances(edges, s, pairs)
  {
    RunIsShortestDistances(edges, adj, s, stages);
    hide Outputs, Expected, Run, Input;
    var last := stages[|stages| - 1];
    assert forall v, d :: Outputs(last, v, d) <==> (v, d) in pairs;
  }

  lemma LastRecordsDiffer(adj: Lists, s: int, stages: seq<seq<Node>>)
    requires Run(adj, s, stages)
    ensures NoRepeat(stages[|stages| - 1])
  {
    hide AllEmitted, ReducerOutput, HasKey, HasGray;
    assert Round(s, stages[|stages| - 2], stages[|stages| - 2 + 1]);
  }

  lemma NothingListed(edges: Edges, adj: Lists, s: int, stages: seq<seq<Node>>, pairs: seq<(int, int)>)
    requires Input(edges, adj) && Run(adj, s, stages) && ListsOutputs(pairs, stages[|stages| - 1])
    ensures s !in adj ==> pairs == []
  {
    SomePair(pairs);
    if s !in adj {
      IdleRunIsShort(edges, adj, s, stages);
      hide Run, Input, HasKey;
      assert forall v, d :: !Outputs(stages[1], v, d);
    }
  }

  lemma SomePair(pairs: seq<(int, int)>)
    ensures pairs != [] ==> exists v, d :: (v, d) in pairs
  {
    if pairs != [] {
      var v, d := pairs[0].0, pairs[0].1;
      assert (v, d) == pairs[0];
      assert (v, d) in pairs;
    }
  }

  ghost predicate HasEdgeFrom(edges: Edges, s: int) {
    exists w :: (s, w) in edges
  }

  lemma EdgeFrom(edges: Edges, adj: Lists, s: int)
    requires Groups(edges, adj)
    ensures HasEdgeFrom(edges, s) <==> s in adj
  {
    if s in adj {
      var w := adj[s][0];
      assert w in adj[s];
      assert (s, w) in edges;
    }
    if w :| (s, w) in edges {
      assert (s, w).0 == s;
    }
  }

  lemma InputOf(edges: Edges, adj: Lists)
    requires Groups(edges, adj) && NonNegative(edges)
    ensures Input(edges, adj)
  {
  }
}
