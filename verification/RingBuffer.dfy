/**
 One producer and one consumer over a shared ring, with a condition variable each. Every
 step is what one thread does while it holds the mutex.
 */
module RingBuffer {
  /** Running: about to lock. Waiting: blocked on its condition. Signalled: woken, about to relock. */
  datatype Thread = Running | Waiting | Signalled

  datatype Ring = Ring(
    head: int, tail: int, buffer: seq<int>,
    producer: Thread, consumer: Thread,
    produced: seq<int>, consumed: seq<int>)   // the streams, for the proofs
  {
    predicate Shaped() {
      |buffer| >= 2 && 0 <= head < |buffer| && 0 <= tail < |buffer|
    }

    predicate IsFull()
      requires Shaped()
    {
      NextSlot(tail) == head
    }

    predicate IsEmpty() {
      tail == head
    }

    function NextSlot(x: int): (y: int)
      requires Shaped() && 0 <= x < |buffer|
      ensures y == if x + 1 == |buffer| then 0 else x + 1
    {
      Wraps(x, |buffer|);
      (x + 1) % |buffer|
    }

    /** The occupied slots from head to tail, wrapping around. */
    function Contents(): (items: seq<int>)
      requires Shaped()
    {
      if head <= tail then buffer[head..tail] else buffer[head..] + buffer[..tail]
    }
  }

  lemma Wraps(x: int, n: int)
    requires 0 <= x < n
    ensures (x + 1) % n == if x + 1 == n then 0 else x + 1
  {
  }

  // ---- steps

  /** Insertion, with the signal when the ring was empty. */
  function Insert(s: Ring, item: int): (s': Ring)
    requires s.Shaped()
  {
    s.(buffer := s.buffer[s.tail := item], tail := s.NextSlot(s.tail), produced := s.produced + [item],
       producer := Running,
       consumer := if s.IsEmpty() && s.consumer == Waiting then Signalled else s.consumer)
  }

  /** Removal, with the signal when the ring was full. */
  function Remove(s: Ring): (s': Ring)
    requires s.Shaped()
  {
    s.(head := s.NextSlot(s.head), consumed := s.consumed + [s.buffer[s.head]],
       consumer := Running,
       producer := if s.IsFull() && s.producer == Waiting then Signalled else s.producer)
  }

  datatype Step = Produce(item: int) | ResumeProducer(item: int) | Consume | ResumeConsumer

  predicate Enabled(s: Ring, step: Step) {
    && s.Shaped()
    && match step
       case Produce(_) => s.producer == Running
       case ResumeProducer(_) => s.producer == Signalled
       case Consume => s.consumer == Running
       case ResumeConsumer => s.consumer == Signalled
  }

  /** A resumed thread goes on without testing its condition again. */
  function Apply(s: Ring, step: Step): (s': Ring)
    requires Enabled(s, step)
  {
    match step
    case Produce(item) => if s.IsFull() then s.(producer := Waiting) else Insert(s, item)
    case ResumeProducer(item) => Insert(s, item)
    case Consume => if s.IsEmpty() then s.(consumer := Waiting) else Remove(s)
    case ResumeConsumer => Remove(s)
  }

  ghost predicate Initial(s: Ring) {
    && s.Shaped() && s.head == 0 && s.tail == 0
    && s.producer == Running && s.consumer == Running
    && s.produced == [] && s.consumed == []
  }

  /** Any interleaving of the two threads. */
  ghost predicate Run(states: seq<Ring>, steps: seq<Step>) {
    && |states| == |steps| + 1
    && Initial(states[0])
    && forall k :: 0 <= k < |steps| ==> Enabled(states[k], steps[k]) && states[k + 1] == Apply(states[k], steps[k])
  }

  // ---- the invariant

  ghost predicate Inv(s: Ring) {
    && s.Shaped()
    && s.consumed + s.Contents() == s.produced
    && (s.producer == Waiting ==> s.IsFull())        // so the next removal signals
    && (s.consumer == Waiting ==> s.IsEmpty())       // so the next insertion signals
    && (s.producer == Signalled ==> !s.IsFull())     // so going on without a test is safe
    && (s.consumer == Signalled ==> !s.IsEmpty())
  }

  /** Insertion into a ring that is not full appends to the contents. */
  lemma InsertAppends(s: Ring, item: int)
    requires s.Shaped() && !s.IsFull()
    ensures Insert(s, item).Contents() == s.Contents() + [item]
    ensures !Insert(s, item).IsEmpty()
  {
    hide Ring.NextSlot;
    var s' := Insert(s, item);
    assert s'.buffer[..s.tail] == s.buffer[..s.tail] && s'.buffer[s.tail + 1..] == s.buffer[s.tail + 1..];
    if s.head <= s.tail && s.tail + 1 == |s.buffer| {
      assert s'.buffer[s.head..] == s.buffer[s.head..s.tail] + [item];
      assert s'.buffer[..0] == [];
    } else if s.head <= s.tail {
      assert s'.buffer[s.head..s.tail + 1] == s.buffer[s.head..s.tail] + [item];
    } else {
      assert s'.buffer[..s.tail + 1] == s.buffer[..s.tail] + [item];
      assert s'.buffer[s.head..] == s.buffer[s.head..];
    }
  }

  /** Removal from a ring that is not empty takes the first of the contents. */
  lemma RemoveTakesFirst(s: Ring)
    requires s.Shaped() && !s.IsEmpty()
    ensures s.Contents() == [s.buffer[s.head]] + Remove(s).Contents()
    ensures !Remove(s).IsFull()
  {
    hide Ring.NextSlot;
    if s.head > s.tail && s.head + 1 == |s.buffer| {
      assert s.buffer[s.head..] == [s.buffer[s.head]];
    }
  }

  /** At most all slots but one are used, and full means exactly that. */
  lemma Capacity(s: Ring)
    requires s.Shaped()
    ensures |s.Contents()| <= |s.buffer| - 1
    ensures s.IsFull() <==> |s.Contents()| == |s.buffer| - 1
    ensures s.IsEmpty() <==> s.Contents() == []
  {
    hide Ring.NextSlot;
  }

  lemma InsertKeepsInv(s: Ring, item: int)
    requires Inv(s) && !s.IsFull() && s.producer != Waiting
    ensures Inv(Insert(s, item))
  {
    InsertAppends(s, item);
    Capacity(s);
    hide Ring.NextSlot, Ring.Contents;
    assert s.consumed + (s.Contents() + [item]) == s.consumed + s.Contents() + [item];
  }

  lemma ConsumeNext(a: seq<int>, x: int, rest: seq<int>)
    ensures a + ([x] + rest) == a + [x] + rest
  {
  }

  lemma RemoveKeepsInv(s: Ring)
    requires Inv(s) && !s.IsEmpty() && s.consumer != Waiting
    ensures Inv(Remove(s))
  {
    RemoveTakesFirst(s);
    hide Ring.NextSlot, Ring.Contents;
    var rest := Remove(s).Contents();
    ConsumeNext(s.consumed, s.buffer[s.head], rest);
  }

  lemma StepKeepsInv(s: Ring, step: Step)
    requires Inv(s) && Enabled(s, step)
    ensures Inv(Apply(s, step))
  {
    match step
    case Produce(item) => if !s.IsFull() { InsertKeepsInv(s, item); }
    case ResumeProducer(item) => InsertKeepsInv(s, item);
    case Consume => if !s.IsEmpty() { RemoveKeepsInv(s); }
    case ResumeConsumer => RemoveKeepsInv(s);
  }

  lemma {:induction false} RunKeepsInv(states: seq<Ring>, steps: seq<Step>, k: nat)
    requires Run(states, steps) && k < |states|
    ensures Inv(states[k])
  {
    if k > 0 {
      RunKeepsInv(states, steps, k - 1);
      hide Inv, Apply;
      StepKeepsInv(states[k - 1], steps[k - 1]);
    }
  }

  /**
     In every interleaving: the consumed stream followed by the ring's contents is the
     produced stream, one slot stays free, a resumed thread never finds its condition
     still true, and the two threads are never both waiting unsignalled.
     */
  lemma EveryInterleaving(states: seq<Ring>, steps: seq<Step>, k: nat)
    requires Run(states, steps) && k < |states|
    ensures var s := states[k];
            && s.Shaped()
            && s.consumed + s.Contents() == s.produced
            && |s.Contents()| <= |s.buffer| - 1
            && (s.producer == Signalled ==> !s.IsFull())
            && (s.consumer == Signalled ==> !s.IsEmpty())
            && !(s.producer == Waiting && s.consumer == Waiting)
  {
    RunKeepsInv(states, steps, k);
    Capacity(states[k]);
  }

  /** No lost wakeup: a waiting thread is woken by the other's very next step, which is possible. */
  lemma WaiterIsWoken(s: Ring, item: int)
    requires Inv(s)
    ensures s.producer == Waiting ==>
              var step := if s.consumer == Running then Consume else ResumeConsumer;
              Enabled(s, step) && Apply(s, step).producer == Signalled
    ensures s.consumer == Waiting ==>
              var step := if s.producer == Running then Produce(item) else ResumeProducer(item);
              Enabled(s, step) && Apply(s, step).consumer == Signalled
  {
    Capacity(s);
  }

  /**
     Why a spurious wakeup is excluded: a producer that went on while still waiting would
     make the full ring look empty and lose everything in it.
     */
  lemma SpuriousWakeupLosesTheRing(s: Ring, item: int)
    requires Inv(s) && s.producer == Waiting
    ensures Insert(s, item).Contents() == [] && |s.Contents()| >= 1
    ensures |Insert(s, item).produced| - |Insert(s, item).consumed| == |s.buffer|
  {
    Capacity(s);
  }

  // ---- the program's variables and routines

  class Shared {
    var head: int
    var tail: int
    const buffer: array<int>
    var producer: Thread
    var consumer: Thread
    ghost var produced: seq<int>
    ghost var consumed: seq<int>

    ghost function Now(): (s: Ring)
      reads this, buffer
    {
      Ring(head, tail, buffer[..], producer, consumer, produced, consumed)
    }

    constructor (n: nat)
      requires n >= 2
      ensures Initial(Now()) && fresh(buffer) && buffer.Length == n
    {
      buffer := new int[n](_ => 0);
      head, tail, producer, consumer, produced, consumed := 0, 0, Running, Running, [], [];
    }

    /** The producer's insertion, after its test or its wakeup. */
    method InsertItem(item: int)
      requires Now().Shaped()
      modifies this, buffer
      ensures Now() == Insert(old(Now()), item)
    {
      if tail == head && consumer == Waiting {
        consumer := Signalled;
      }
      buffer[tail] := item;
      tail := (tail + 1) % buffer.Length;
      produced := produced + [item];
      producer := Running;
    }

    /** The consumer's removal, after its test or its wakeup. */
    method RemoveItem() returns (item: int)
      requires Now().Shaped()
      modifies this
      ensures Now() == Remove(old(Now()))
      ensures consumed == old(consumed) + [item]
    {
      if (tail + 1) % buffer.Length == head && producer == Waiting {
        producer := Signalled;
      }
      item := buffer[head];
      head := (head + 1) % buffer.Length;
      consumed := consumed + [item];
      consumer := Running;
    }

    /** One entry of the producer into its critical section. */
    method Producer(item: int)
      requires Inv(Now()) && producer != Waiting
      modifies this, buffer
      ensures Inv(Now())
      ensures Now() == Apply(old(Now()), if old(producer) == Running then Produce(item) else ResumeProducer(item))
      ensures consumed == old(consumed)
      ensures if old(producer) == Running && |old(Now().Contents())| == buffer.Length - 1 then
                && producer == Waiting && consumer == old(consumer)
                && produced == old(produced) && Now().Contents() == old(Now().Contents())
              else
                && producer == Running && produced == old(produced) + [item]
                && Now().Contents() == old(Now().Contents()) + [item]
                && consumer == if old(consumer) == Waiting then Signalled else old(consumer)
    {
      Capacity(Now());
      if producer != Running || |Now().Contents()| < buffer.Length - 1 {
        InsertAppends(Now(), item);
      }
      StepKeepsInv(Now(), if producer == Running then Produce(item) else ResumeProducer(item));
      if producer == Running && (tail + 1) % buffer.Length == head {
        producer := Waiting;
      } else {
        InsertItem(item);
      }
    }

    /** One entry of the consumer; the item is the next of the produced stream. */
    method Consumer() returns (got: bool, item: int)
      requires Inv(Now()) && consumer != Waiting
      modifies this
      ensures Inv(Now())
      ensures Now() == Apply(old(Now()), if old(consumer) == Running then Consume else ResumeConsumer)
      ensures got <==> |consumed| == |old(consumed)| + 1
      ensures got ==> |old(consumed)| < |produced| && item == produced[|old(consumed)|]
      ensures produced == old(produced)
      ensures !got <==> old(consumer) == Running && old(Now().Contents()) == []
      ensures if !got then
                && consumer == Waiting && producer == old(producer)
                && consumed == old(consumed) && Now().Contents() == []
              else
                && consumer == Running && consumed == old(consumed) + [item]
                && old(Now().Contents()) == [item] + Now().Contents()
                && producer == if old(producer) == Waiting then Signalled else old(producer)
    {
      Capacity(Now());
      if consumer != Running || Now().Contents() != [] {
        RemoveTakesFirst(Now());
      }
      StepKeepsInv(Now(), if consumer == Running then Consume else ResumeConsumer);
      got, item := true, 0;
      if consumer == Running && tail == head {
        consumer, got := Waiting, false;
      } else {
        item := RemoveItem();
        assert produced == consumed + Now().Contents();
      }
    }
  }
}
