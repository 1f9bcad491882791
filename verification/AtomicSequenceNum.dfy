/** Model of base/atomic_sequence_num.h: unique numbers over the atomic increment. */
module AtomicSequenceNum {
  import opened AtomicOps

  /** What GetNext makes of the increment's result. */
  function Number(result: Atomic32): Atomic32 {
    Wrap(result - 1)
  }

  /** The number the k-th call of GetNext to return has handed out, when the word started at `initial`. */
  function NumberAt(initial: Atomic32, k: nat): Atomic32 {
    Wrap(initial + k)
  }

  class StaticAtomicSequenceNumber {
    const seqWord: SharedWord

    constructor (seqWord: SharedWord)
      ensures this.seqWord == seqWord
    {
      this.seqWord := seqWord;
    }

    method GetNext(me: ThreadId) returns (number: Atomic32)
      requires seqWord.Valid()
      modifies seqWord
      ensures seqWord.Valid()
      ensures ByOthersAndThen(old(seqWord.log), seqWord.log, me, Entry(me, Increment(1), seqWord.value))
      ensures number == Number(seqWord.value)
      ensures IsCounter(seqWord.log) ==> number == NumberAt(seqWord.initial, |seqWord.log| - 1)
    {
      hide IsSequential, Replay, Wrap;
      var result := seqWord.BarrierAtomicIncrement(me, 1);
      number := Number(result);
      if IsCounter(seqWord.log) {
        NumbersAreConsecutive(seqWord.initial, seqWord.log, |seqWord.log| - 1);
      }
    }
  }

  /** All calls that have returned are increments by one. */
  ghost predicate IsCounter(log: seq<Entry>) {
    forall k | 0 <= k < |log| :: log[k].op == Increment(1)
  }

  lemma {:induction false} CounterSum(log: seq<Entry>)
    requires IsCounter(log)
    ensures AllIncrements(log) && Sum(log) == |log|
  {
    assert AllIncrements(log);
    if log != [] {
      CounterSum(log[..|log| - 1]);
    }
  }

  lemma NumbersAreConsecutive(initial: Atomic32, log: seq<Entry>, k: nat)
    requires IsSequential(initial, log) && IsCounter(log) && k < |log|
    ensures Number(log[k].result) == NumberAt(initial, k)
  {
    hide Wrap, IsSequential;
    SequentialPrefix(initial, log, k + 1);
    CounterSum(log[..k + 1]);
    IncrementsAddUp(initial, log[..k + 1]);
    WrapAdd(initial + k + 1, -1);
  }

  lemma NumbersDiffer(initial: Atomic32, i: nat, j: nat)
    requires i < j
    ensures NumberAt(initial, i) == NumberAt(initial, j) <==> (j - i) % TWO_TO_32 == 0
  {
    var x, y := initial + i + TWO_TO_31, initial + j + TWO_TO_31;
    assert x == x / TWO_TO_32 * TWO_TO_32 + x % TWO_TO_32;
    assert y == y / TWO_TO_32 * TWO_TO_32 + y % TWO_TO_32;
    if x % TWO_TO_32 == y % TWO_TO_32 {
      assert j - i == (y / TWO_TO_32 - x / TWO_TO_32) * TWO_TO_32;
    }
  }

  /** The only calls made are those of GetNext. */
  ghost predicate OnlyGetNext(events: seq<Event>) {
    forall e | e in events && e.Call? :: e.op == Increment(1)
  }

  lemma {:induction false} RunIsCounter(s: System, events: seq<Event>)
    requires OnlyGetNext(events)
    requires IsCounter(s.log) && forall t | 0 <= t < |s.pcs| && s.pcs[t] != Idle :: OpOf(s.pcs[t]) == Increment(1)
    ensures var s' := Run(s, events);
            IsCounter(s'.log) && forall t | 0 <= t < |s'.pcs| && s'.pcs[t] != Idle :: OpOf(s'.pcs[t]) == Increment(1)
  {
    hide Next, OpOf;
    if events != [] {
      var n := |events| - 1;
      assert forall e | e in events[..n] :: e in events;
      RunIsCounter(s, events[..n]);
      assert events[n] in events;
      NextIsCounter(Run(s, events[..n]), events[n]);
    }
  }

  lemma NextIsCounter(s: System, e: Event)
    requires e.Call? ==> e.op == Increment(1)
    requires IsCounter(s.log) && forall t | 0 <= t < |s.pcs| && s.pcs[t] != Idle :: OpOf(s.pcs[t]) == Increment(1)
    ensures var s' := Next(s, e);
            IsCounter(s'.log) && forall t | 0 <= t < |s'.pcs| && s'.pcs[t] != Idle :: OpOf(s'.pcs[t]) == Increment(1)
  {
    hide Advance, Apply;
    if e.Step? && e.thread < |s.pcs| {
      StepIsSilentOrReturns(s, e.thread, e.spurious);
      StepKeepsOp(s, e.thread, e.spurious);
    }
  }

  // In every interleaving of GetNext calls, the numbers handed out are consecutive from the initial value;
  // two of them are equal only after a multiple of 2^32 calls.
  lemma SequenceNumbersAreUnique(initial: Atomic32, threads: nat, events: seq<Event>)
    requires OnlyGetNext(events)
    ensures var log := Run(Start(initial, threads), events).log;
            && (forall k | 0 <= k < |log| :: Number(log[k].result) == NumberAt(initial, k))
            && (forall i, j | 0 <= i < j < |log| ::
                  Number(log[i].result) == Number(log[j].result) <==> (j - i) % TWO_TO_32 == 0)
  {
    hide Run, IsSequential, Number, NumberAt;
    var s := Run(Start(initial, threads), events);
    var log := s.log;
    Linearizable(initial, threads, events);
    RunIsCounter(Start(initial, threads), events);
    forall k | 0 <= k < |log|
      ensures Number(log[k].result) == NumberAt(initial, k)
    {
      NumbersAreConsecutive(initial, log, k);
    }
    forall i, j | 0 <= i < j < |log|
      ensures Number(log[i].result) == Number(log[j].result) <==> (j - i) % TWO_TO_32 == 0
    {
      NumbersDiffer(initial, i, j);
    }
  }

  // From zero, the first 2^31 numbers are 0, 1, 2, ...
  lemma NumbersFromZero(k: nat)
    requires k < TWO_TO_31
    ensures NumberAt(0, k) == k
  {
  }
}
