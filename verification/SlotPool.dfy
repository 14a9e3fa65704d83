/**
 The connection slots of the server: the accept loop takes a vacant slot for each client,
 a finishing client gives its slot back. Every step runs under the mutex, or accepts.
 */
module SlotPool {
  import opened Wrappers

  /** Where the main thread stands in its loop. */
  datatype Main =
    | Checking                 // about to test for a vacancy
    | Waiting                  // blocked on the condition
    | Signalled                // woken, about to relock
    | Accepting                // past the test, before the scan
    | Placing(ind: nat)        // a slot is taken, its client not yet started

  /** `clients` maps each live client thread to the slot whose arguments it was given. */
  datatype Pool = Pool(available: seq<int>, m: int, main: Main, args: seq<int>, clients: map<nat, nat>) {
    predicate Shaped() {
      && available != [] && |args| == |available|
      && (forall c :: c in clients ==> clients[c] < |available|)
      && (main.Placing? ==> main.ind < |available|)
    }
  }

  datatype Step = Check | Resume | Scan | Start(client: nat) | Finish(client: nat)

  /** The first vacant slot, or the length if there is none. */
  function Vacancy(available: seq<int>): (i: nat)
    ensures i <= |available|
    ensures i < |available| ==> available[i] == 0
    ensures forall k :: 0 <= k < i ==> available[k] != 0
  {
    if available == [] || available[0] == 0 then 0 else 1 + Vacancy(available[1..])
  }

  predicate Enabled(s: Pool, step: Step) {
    && s.Shaped()
    && match step
       case Check => s.main == Checking
       case Resume => s.main == Signalled
       case Scan => s.main == Accepting
       case Start(c) => s.main.Placing? && c !in s.clients
       case Finish(c) => c in s.clients && 0 <= s.args[s.clients[c]] < |s.available|
  }

  /** When the scan finds nothing, `ind` keeps its old value; here it is arbitrary, given as `stale`. */
  function Apply(s: Pool, step: Step, stale: nat): (s': Pool)
    requires Enabled(s, step)
  {
    match step
    case Check => s.(main := if s.m >= |s.available| then Waiting else Accepting)
    case Resume => s.(main := Accepting)
    case Scan =>
      var i := Vacancy(s.available);
      if i < |s.available| then s.(available := s.available[i := 1], m := s.m + 1, main := Placing(i))
      else s.(main := Placing(stale))
    case Start(c) =>
      s.(available := s.available[s.main.ind := 1], args := s.args[s.main.ind := s.main.ind],
         clients := s.clients[c := s.main.ind], main := Checking)
    case Finish(c) =>
      s.(available := s.available[s.args[s.clients[c]] := 0], m := s.m - 1, clients := s.clients - {c},
         main := if s.m >= |s.available| && s.main == Waiting then Signalled else s.main)
  }

  ghost predicate Initial(s: Pool) {
    && s.Shaped() && s.main == Checking && s.m == 0 && s.clients == map[]
    && forall i :: 0 <= i < |s.available| ==> s.available[i] == 0
  }

  /** Any interleaving of the accept loop and the clients. */
  ghost predicate Run(states: seq<Pool>, steps: seq<Step>) {
    && |states| == |steps| + 1
    && Initial(states[0])
    && forall k :: 0 <= k < |steps| ==>
         Enabled(states[k], steps[k]) && exists stale :: states[k + 1] == Apply(states[k], steps[k], stale)
  }

  // ---- the invariant

  ghost function Taken(available: seq<int>): (slots: set<int>) {
    set i | 0 <= i < |available| && available[i] != 0
  }

  /** The slots in use: one per live client, and the one being placed. */
  ghost predicate InUse(s: Pool, i: int) {
    (exists c :: c in s.clients && s.clients[c] == i) || (s.main.Placing? && s.main.ind == i)
  }

  ghost predicate SlotsMatch(s: Pool) {
    forall i :: i in Taken(s.available) <==> InUse(s, i)
  }

  /** No slot is shared, and every live client's arguments name its own slot. */
  ghost predicate Separate(s: Pool)
    requires s.Shaped()
  {
    && (forall c, d :: c in s.clients && d in s.clients && s.clients[c] == s.clients[d] ==> c == d)
    && (s.main.Placing? ==> forall c :: c in s.clients ==> s.clients[c] != s.main.ind)
    && (forall c :: c in s.clients ==> s.args[s.clients[c]] == s.clients[c])
  }

  ghost predicate Inv(s: Pool) {
    && s.Shaped()
    && s.m == |Taken(s.available)|
    && s.m == |s.clients| + (if s.main.Placing? then 1 else 0)
    && SlotsMatch(s) && Separate(s)
    && (s.main == Waiting ==> s.m >= |s.available|)                           // so the next finish signals
    && (s.main == Signalled || s.main == Accepting ==> s.m < |s.available|)   // so the scan finds a vacancy
  }

  ghost function Range(n: nat): (all: set<int>)
    ensures forall i :: i in all <==> 0 <= i < n
    ensures |all| == n
  {
    if n == 0 then {} else Range(n - 1) + {n - 1}
  }

  /** No more slots are taken than there are; when fewer are, the scan finds one. */
  lemma SomeVacancy(available: seq<int>)
    ensures |Taken(available)| <= |available|
    ensures |Taken(available)| < |available| ==> Vacancy(available) < |available|
  {
    var all := Range(|available|);
    SubsetSize(Taken(available), all);
    if Vacancy(available) == |available| {
      assert Taken(available) == all;
    }
  }

  lemma TakenUpdate(available: seq<int>, i: nat)
    requires i < |available|
    ensures Taken(available[i := 1]) == Taken(available) + {i}
    ensures Taken(available[i := 0]) == Taken(available) - {i}
  {
  }

  /** The scan takes the vacancy. */
  lemma ScanIs(s: Pool, stale: nat)
    requires Inv(s) && Enabled(s, Scan)
    ensures var i := Vacancy(s.available);
            && i < |s.available| && i !in Taken(s.available)
            && Apply(s, Scan, stale) == Pool(s.available[i := 1], s.m + 1, Placing(i), s.args, s.clients)
            && Taken(s.available[i := 1]) == Taken(s.available) + {i}
  {
    SomeVacancy(s.available);
    hide Separate, SlotsMatch;
    TakenUpdate(s.available, Vacancy(s.available));
  }

  lemma ScanKeepsInv(s: Pool, stale: nat)
    requires Inv(s) && Enabled(s, Scan)
    ensures Inv(Apply(s, Scan, stale))
    ensures var i := Vacancy(s.available);
            i < |s.available| && !InUse(s, i) && Apply(s, Scan, stale).main == Placing(i)
  {
    hide Vacancy, Taken, Apply, InUse, Separate, SlotsMatch, Enabled;
    ScanIs(s, stale);
    assert s.main == Accepting by { ScanStands(s); }
    var i, s' := Vacancy(s.available), Apply(s, Scan, stale);
    NotInUse(s, i);
    assert s'.Shaped();
    ScanSeparate(s, s', i);
    ScanSlots(s, s', i);
  }

  lemma ScanStands(s: Pool)
    requires Enabled(s, Scan)
    ensures s.main == Accepting
  {
  }

  lemma NotInUse(s: Pool, i: nat)
    requires SlotsMatch(s) && i !in Taken(s.available)
    ensures !InUse(s, i)
  {
    hide Taken, InUse;
  }

  lemma ScanSlots(s: Pool, s': Pool, i: nat)
    requires SlotsMatch(s) && Taken(s'.available) == Taken(s.available) + {i}
    requires s.main == Accepting && s'.main == Placing(i) && s'.clients == s.clients
    ensures SlotsMatch(s')
  {
    hide Taken, InUse;
    forall j ensures j in Taken(s'.available) <==> InUse(s', j) {
      ScanInUse(s, s', i, j);
    }
  }

  lemma ScanInUse(s: Pool, s': Pool, i: nat, j: int)
    requires s.main == Accepting && s'.main == Placing(i) && s'.clients == s.clients
    ensures InUse(s', j) <==> InUse(s, j) || j == i
  {
  }

  lemma ScanSeparate(s: Pool, s': Pool, i: nat)
    requires s.Shaped() && s'.Shaped() && Separate(s) && !InUse(s, i)
    requires s'.main == Placing(i) && s'.clients == s.clients && s'.args == s.args
    ensures Separate(s')
  {
  }

  lemma StartIs(s: Pool, c: nat, stale: nat)
    requires Inv(s) && Enabled(s, Start(c))
    ensures var s', i := Apply(s, Start(c), stale), s.main.ind;
            && s' == Pool(s.available[i := 1], s.m, Checking, s.args[i := i], s.clients[c := i])
            && Taken(s'.available) == Taken(s.available)
            && |s'.clients| == |s.clients| + 1
  {
    var i := s.main.ind;
    TakenUpdate(s.available, i);
    assert InUse(s, i) && i in Taken(s.available);
    hide InUse, Taken, SlotsMatch, Separate;
    var s' := Apply(s, Start(c), stale);
    assert s'.clients.Keys == s.clients.Keys + {c};
    assert |s'.clients| == |s'.clients.Keys| && |s.clients| == |s.clients.Keys|;
  }

  /** Starting the client moves its slot from the main thread to it. */
  lemma StartInUse(s: Pool, s': Pool, c: nat, j: int)
    requires s.main.Placing? && c !in s.clients && s'.clients == s.clients[c := s.main.ind] && s'.main == Checking
    ensures InUse(s', j) <==> InUse(s, j)
  {
    if d :| d in s.clients && s.clients[d] == j {
      assert d in s'.clients && s'.clients[d] == j;
    }
    assert c in s'.clients && s'.clients[c] == s.main.ind;
  }

  lemma StartKeepsInv(s: Pool, c: nat, stale: nat)
    requires Inv(s) && Enabled(s, Start(c))
    ensures Inv(Apply(s, Start(c), stale))
  {
    StartIs(s, c, stale);
    var s' := Apply(s, Start(c), stale);
    hide Apply, Taken, InUse;
    assert Separate(s');
    hide Separate;
    forall j ensures j in Taken(s'.available) <==> InUse(s', j) {
      StartInUse(s, s', c, j);
    }
  }

  lemma FinishIs(s: Pool, c: nat, stale: nat)
    requires Inv(s) && Enabled(s, Finish(c))
    ensures var s', i := Apply(s, Finish(c), stale), s.clients[c];
            && s.args[i] == i && i in Taken(s.available)
            && s' == Pool(s.available[i := 0], s.m - 1,
                          if s.m >= |s.available| && s.main == Waiting then Signalled else s.main,
                          s.args, s.clients - {c})
            && Taken(s'.available) == Taken(s.available) - {i}
            && |s'.clients| == |s.clients| - 1
  {
    var i := s.clients[c];
    TakenUpdate(s.available, i);
    assert InUse(s, i) && i in Taken(s.available);
    assert s.args[i] == i;
    hide InUse, Taken, SlotsMatch, Separate;
    var s' := Apply(s, Finish(c), stale);
    assert s'.clients.Keys == s.clients.Keys - {c};
    assert |s'.clients| == |s'.clients.Keys| && |s.clients| == |s.clients.Keys|;
  }

  /** Finishing frees the client's slot and no other. */
  lemma FinishInUse(s: Pool, s': Pool, c: nat, j: int)
    requires s.Shaped() && Separate(s) && c in s.clients && s'.clients == s.clients - {c}
    requires s.main.Placing? || s'.main.Placing? ==> s'.main == s.main
    ensures InUse(s', j) <==> InUse(s, j) && j != s.clients[c]
  {
    if d :| d in s.clients && s.clients[d] == j && j != s.clients[c] {
      assert d in s'.clients && s'.clients[d] == j;
    }
  }

  lemma FinishKeepsInv(s: Pool, c: nat, stale: nat)
    requires Inv(s) && Enabled(s, Finish(c))
    ensures Inv(Apply(s, Finish(c), stale))
  {
    hide Apply, Taken, InUse, Vacancy, Separate, SlotsMatch;
    FinishIs(s, c, stale);
    SomeVacancy(s.available);
    var s' := Apply(s, Finish(c), stale);
    assert s'.Shaped();
    FinishSeparate(s, s', c);
    FinishSlots(s, s', c);
  }

  lemma FinishSlots(s: Pool, s': Pool, c: nat)
    requires s.Shaped() && SlotsMatch(s) && Separate(s) && c in s.clients && s'.clients == s.clients - {c}
    requires Taken(s'.available) == Taken(s.available) - {s.clients[c]}
    requires s.main.Placing? || s'.main.Placing? ==> s'.main == s.main
    ensures SlotsMatch(s')
  {
    hide Taken, InUse, Separate;
    forall j ensures j in Taken(s'.available) <==> InUse(s', j) {
      FinishInUse(s, s', c, j);
    }
  }

  lemma FinishSeparate(s: Pool, s': Pool, c: nat)
    requires s.Shaped() && s'.Shaped() && Separate(s) && (s'.main.Placing? ==> s'.main == s.main)
    requires s'.clients == s.clients - {c} && s'.args == s.args
    ensures Separate(s')
  {
  }

  lemma StepKeepsInv(s: Pool, step: Step, stale: nat)
    requires Inv(s) && Enabled(s, step)
    ensures Inv(Apply(s, step, stale))
  {
    match step
    case Scan => ScanKeepsInv(s, stale);
    case Start(c) => StartKeepsInv(s, c, stale);
    case Finish(c) => FinishKeepsInv(s, c, stale);
    case _ =>
      var s' := Apply(s, step, stale);
      forall j ensures InUse(s', j) <==> InUse(s, j) {
      }
  }

  lemma {:induction false} RunKeepsInv(states: seq<Pool>, steps: seq<Step>, k: nat)
    requires Run(states, steps) && k < |states|
    ensures Inv(states[k])
  {
    if k == 0 {
      assert Taken(states[0].available) == {};
    } else {
      RunKeepsInv(states, steps, k - 1);
      var stale :| states[k] == Apply(states[k - 1], steps[k - 1], stale);
      hide Inv, Apply;
      StepKeepsInv(states[k - 1], steps[k - 1], stale);
    }
  }

  /**
     In every interleaving: `m` counts the occupied slots and never exceeds their number,
     no two live clients share a slot, and the scan always finds a slot that nobody uses.
     */
  lemma EveryInterleaving(states: seq<Pool>, steps: seq<Step>, k: nat)
    requires Run(states, steps) && k < |states|
    ensures var s := states[k];
            && s.m == |Taken(s.available)| <= |s.available|
            && (forall i :: i in Taken(s.available) <==> InUse(s, i))
            && (forall c, d :: c in s.clients && d in s.clients && s.clients[c] == s.clients[d] ==> c == d)
            && (s.main == Accepting ==>
                  Vacancy(s.available) < |s.available| && !InUse(s, Vacancy(s.available)))
  {
    RunKeepsInv(states, steps, k);
    var s := states[k];
    SomeVacancy(s.available);
    if s.main == Accepting {
      ScanKeepsInv(s, 0);
    }
  }

  /** No lost wakeup: while the main thread waits some client is live, and whichever ends first wakes it. */
  lemma WaiterIsWoken(s: Pool, stale: nat)
    requires Inv(s) && s.main == Waiting
    ensures s.clients != map[]
    ensures forall c :: c in s.clients ==> Enabled(s, Finish(c)) && Apply(s, Finish(c), stale).main == Signalled
  {
    assert |s.clients| > 0;
  }

  // ---- the program's variables and routines

  lemma VacancyIff(available: seq<int>)
    ensures |Taken(available)| < |available| <==> exists i :: 0 <= i < |available| && available[i] == 0
  {
    if i :| 0 <= i < |available| && available[i] == 0 {
      var all := Range(|available|);
      assert i in all && Taken(available) <= all - {i};
      SubsetSize(Taken(available), all - {i});
    } else {
      assert Taken(available) == Range(|available|);
    }
  }

  class Server {
    const available: array<int>
    const args: array<int>         // the client_index of each slot's arguments
    var ind: nat
    var m: int
    var main: Main
    ghost var clients: map<nat, nat>

    ghost function Now(): (s: Pool)
      reads this, available, args
    {
      Pool(available[..], m, main, args[..], clients)
    }

    ghost predicate Valid()
      reads this, available, args
    {
      available != args && Inv(Now()) && (main.Placing? ==> main.ind == ind)
    }

    constructor (max: nat)
      requires max >= 1
      ensures Valid() && Initial(Now()) && available.Length == max
      ensures fresh(available) && fresh(args)
    {
      available := new int[max](_ => 0);
      args := new int[max](_ => 0);
      ind, m, main, clients := 0, 0, Checking, map[];
      new;
      assert Taken(available[..]) == {};
    }

    /** The test before accepting, and the wait. */
    method Check()
      requires Valid() && Enabled(Now(), Step.Check)
      modifies this`main
      ensures Valid() && Now() == Apply(old(Now()), Step.Check, 0)
      ensures main == if exists i :: 0 <= i < available.Length && available[i] == 0 then Accepting else Waiting
    {
      StepKeepsInv(Now(), Step.Check, 0);
      VacancyIff(available[..]);
      assert forall i :: 0 <= i < available.Length ==> available[i] == available[..][i];
      if m >= available.Length {
        main := Waiting;
      } else {
        main := Accepting;
      }
    }

    /** Waking up: there is no second test. */
    method Resume()
      requires Valid() && Enabled(Now(), Step.Resume)
      modifies this`main
      ensures Valid() && Now() == Apply(old(Now()), Step.Resume, 0)
      ensures main == Accepting
    {
      StepKeepsInv(Now(), Step.Resume, 0);
      main := Accepting;
    }

    /** The scan for a vacancy. */
    method Scan()
      requires Valid() && Enabled(Now(), Step.Scan)
      modifies this`ind, this`m, this`main, available
      ensures Valid() && Now() == Apply(old(Now()), Step.Scan, old(ind))
      ensures ind == Vacancy(old(available[..])) < available.Length && !InUse(old(Now()), ind)
      ensures available[..] == old(available[..])[ind := 1] && m == old(m) + 1 && main == Placing(ind)
    {
      hide Inv, InUse, Taken, Apply, Vacancy, SlotsMatch, Separate;
      ScanKeepsInv(Now(), ind);
      ScanIs(Now(), ind);
      ghost var slots := available[..];
      var i := 0;
      while i < available.Length && available[i] != 0
        invariant 0 <= i <= available.Length
        invariant forall k :: 0 <= k < i ==> slots[k] != 0
      {
        i := i + 1;
      }
      VacancyIs(slots, i);
      ind := i;
      available[i] := 1;
      m := m + 1;
      main := Placing(i);
      assert available[..] == slots[i := 1];
    }

    static lemma VacancyIs(available: seq<int>, i: nat)
      requires i <= |available| && (forall k :: 0 <= k < i ==> available[k] != 0)
      requires i < |available| ==> available[i] == 0
      ensures Vacancy(available) == i
    {
    }

    /** The arguments of the slot, and the new client thread. */
    method Start(ghost client: nat)
      requires Valid() && Enabled(Now(), Step.Start(client))
      modifies this`main, this`clients, available, args
      ensures Valid() && Now() == Apply(old(Now()), Step.Start(client), 0)
      ensures main == Checking && clients == old(clients)[client := ind] && args[..] == old(args[..])[ind := ind]
      ensures available[..] == old(available[..])[ind := 1]
    {
      StepKeepsInv(Now(), Step.Start(client), 0);
      StartIs(Now(), client, 0);
      hide Inv, InUse, Taken, Apply;
      ghost var slots, indices := available[..], args[..];
      available[ind] := 1;
      args[ind] := ind;
      clients := clients[client := ind];
      main := Checking;
      assert available[..] == slots[ind := 1] && args[..] == indices[ind := ind];
    }

    /** A client thread gives back the slot that its arguments name. */
    method Finish(ghost client: nat, slot: nat)
      requires Valid() && Enabled(Now(), Step.Finish(client)) && clients[client] == slot
      modifies this`m, this`main, this`clients, available
      ensures Valid() && Now() == Apply(old(Now()), Step.Finish(client), 0)
      ensures available[..] == old(available[..])[slot := 0] && m == old(m) - 1 && clients == old(clients) - {client}
      ensures main == if old(main) == Waiting then Signalled else old(main)
    {
      hide Inv, InUse, Taken, Apply, SlotsMatch, Separate;
      StepKeepsInv(Now(), Step.Finish(client), 0);
      FinishIs(Now(), client, 0);
      ghost var slots := available[..];
      assert args[slot] == args[..][slot];
      available[args[slot]] := 0;
      if m >= available.Length && main == Waiting {
        main := Signalled;
      }
      m := m - 1;
      clients := clients - {client};
      assert available[..] == slots[slot := 0];
    }
  }
}
