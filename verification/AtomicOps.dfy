/**
 Model of base/atomicops_internals_arm_gcc.h: compare-and-swap, exchange and
 increment as retry loops around a compare-exchange call of the kernel, which
 may fail for no reason. Memory is sequentially consistent; the word wraps
 around at 32 bits.
 */
module AtomicOps {

  const TWO_TO_31 := 0x8000_0000
  const TWO_TO_32 := 0x1_0000_0000

  type Atomic32 = x: int | -TWO_TO_31 <= x < TWO_TO_31

  function Wrap(x: int): Atomic32 {
    (x + TWO_TO_31) % TWO_TO_32 - TWO_TO_31
  }

  type ThreadId = nat

  datatype Op =
    | Increment(delta: Atomic32)
    | Exchange(value: Atomic32)
    | CompareAndSwap(expected: Atomic32, desired: Atomic32)

  /** A call that has returned. */
  datatype Entry = Entry(thread: ThreadId, op: Op, result: Atomic32)

  // ---------- The sequential meaning of the calls ----------

  /** The word after op, and what op returns, when nothing interferes. */
  function Apply(op: Op, cell: Atomic32): (Atomic32, Atomic32) {
    match op
    case Increment(delta) => (Wrap(cell + delta), Wrap(cell + delta))
    case Exchange(value) => (value, cell)
    case CompareAndSwap(expected, desired) => if cell == expected then (desired, expected) else (cell, cell)
  }

  function Replay(initial: Atomic32, log: seq<Entry>): Atomic32 {
    if log == [] then initial
    else Apply(log[|log| - 1].op, Replay(initial, log[..|log| - 1])).0
  }

  /** Each call of the log returned what it returns when the calls are made one after the other. */
  ghost predicate IsSequential(initial: Atomic32, log: seq<Entry>) {
    forall k | 0 <= k < |log| :: log[k].result == Apply(log[k].op, Replay(initial, log[..k])).1
  }

  lemma OneCallMore(initial: Atomic32, log: seq<Entry>, e: Entry)
    requires IsSequential(initial, log)
    requires e.result == Apply(e.op, Replay(initial, log)).1
    ensures IsSequential(initial, log + [e])
    ensures Replay(initial, log + [e]) == Apply(e.op, Replay(initial, log)).0
  {
    var log' := log + [e];
    assert log'[..|log|] == log;
    forall k | 0 <= k < |log'|
      ensures log'[k].result == Apply(log'[k].op, Replay(initial, log'[..k])).1
    {
      if k < |log| {
        assert log'[..k] == log[..k];
      }
    }
  }

  // ---------- The threads, step by step ----------

  /** Where a thread is in its call: about to read the word, or about to call the kernel with what it read. */
  datatype Pc =
    | Idle
    | IncrementRead(delta: Atomic32)
    | IncrementTry(delta: Atomic32, oldValue: Atomic32)
    | ExchangeRead(value: Atomic32)
    | ExchangeTry(value: Atomic32, oldValue: Atomic32)
    | CasRead(expected: Atomic32, desired: Atomic32)
    | CasTry(expected: Atomic32, desired: Atomic32)
    | CasReread(expected: Atomic32, desired: Atomic32)

  /** The word, one program counter a thread, and the calls that have returned, oldest first. */
  datatype System = System(cell: Atomic32, pcs: seq<Pc>, log: seq<Entry>)

  datatype Event =
    | Call(thread: ThreadId, op: Op)
    | Step(thread: ThreadId, spurious: bool)

  predicate IsReady(s: System, t: ThreadId) {
    t < |s.pcs| && s.pcs[t] == Idle
  }

  function Begin(op: Op): Pc {
    match op
    case Increment(delta) => IncrementRead(delta)
    case Exchange(value) => ExchangeRead(value)
    case CompareAndSwap(expected, desired) => CasRead(expected, desired)
  }

  function OpOf(pc: Pc): Op
    requires pc != Idle
  {
    match pc
    case IncrementRead(delta) => Increment(delta)
    case IncrementTry(delta, _) => Increment(delta)
    case ExchangeRead(value) => Exchange(value)
    case ExchangeTry(value, _) => Exchange(value)
    case CasRead(expected, desired) => CompareAndSwap(expected, desired)
    case CasTry(expected, desired) => CompareAndSwap(expected, desired)
    case CasReread(expected, desired) => CompareAndSwap(expected, desired)
  }

  function Goto(s: System, t: ThreadId, pc: Pc): System
    requires t < |s.pcs|
  {
    s.(pcs := s.pcs[t := pc])
  }

  /** Thread t stores cell and returns result. */
  function Return(s: System, t: ThreadId, cell: Atomic32, result: Atomic32): System
    requires t < |s.pcs| && s.pcs[t] != Idle
  {
    System(cell, s.pcs[t := Idle], s.log + [Entry(t, OpOf(s.pcs[t]), result)])
  }

  /** One atomic step of thread t: a read of the word, or a call of the kernel. */
  function Advance(s: System, t: ThreadId, spurious: bool): System
    requires t < |s.pcs|
  {
    match s.pcs[t]
    case Idle => s
    case IncrementRead(delta) => Goto(s, t, IncrementTry(delta, s.cell))
    case IncrementTry(delta, oldValue) =>
      if s.cell == oldValue && !spurious then Return(s, t, Wrap(oldValue + delta), Wrap(oldValue + delta))
      else Goto(s, t, IncrementRead(delta))
    case ExchangeRead(value) => Goto(s, t, ExchangeTry(value, s.cell))
    case ExchangeTry(value, oldValue) =>
      if s.cell == oldValue && !spurious then Return(s, t, value, oldValue)
      else Goto(s, t, ExchangeRead(value))
    case CasRead(expected, desired) => Goto(s, t, CasTry(expected, desired))
    case CasTry(expected, desired) =>
      if s.cell == expected && !spurious then Return(s, t, desired, expected)
      else Goto(s, t, CasReread(expected, desired))
    case CasReread(expected, desired) =>
      if s.cell == expected then Goto(s, t, CasTry(expected, desired))
      else Return(s, t, s.cell, s.cell)
  }

  /** What an event does; one that cannot happen does nothing. */
  function Next(s: System, e: Event): System {
    match e
    case Call(t, op) => if IsReady(s, t) then Goto(s, t, Begin(op)) else s
    case Step(t, spurious) => if t < |s.pcs| then Advance(s, t, spurious) else s
  }

  /** The system after any interleaving of calls and steps. */
  function Run(s: System, events: seq<Event>): System {
    if events == [] then s else Next(Run(s, events[..|events| - 1]), events[|events| - 1])
  }

  function Start(initial: Atomic32, threads: nat): System {
    System(initial, seq(threads, _ => Idle), [])
  }

  // ---------- Every interleaving is linearizable ----------

  ghost predicate IsLinear(initial: Atomic32, s: System) {
    IsSequential(initial, s.log) && s.cell == Replay(initial, s.log)
  }

  /** Between s and s' the call e was made, all at once. */
  predicate Returns(s: System, s': System, e: Entry) {
    s'.log == s.log + [e] && (s'.cell, e.result) == Apply(e.op, s.cell)
  }

  // A step leaves the word and the log alone, or it is a whole call of its thread, which thereby ends.
  lemma StepIsSilentOrReturns(s: System, t: ThreadId, spurious: bool)
    requires t < |s.pcs|
    ensures var s' := Advance(s, t, spurious);
            if s'.log == s.log then
              s'.cell == s.cell
            else
              && s.pcs[t] != Idle && s'.pcs == s.pcs[t := Idle]
              && s'.log != [] && Returns(s, s', s'.log[|s'.log| - 1])
              && s'.log[|s'.log| - 1].thread == t && s'.log[|s'.log| - 1].op == OpOf(s.pcs[t])
  {
    hide Wrap;
  }

  lemma NextKeepsLinear(initial: Atomic32, s: System, e: Event)
    requires IsLinear(initial, s)
    ensures IsLinear(initial, Next(s, e))
  {
    hide Advance, Apply, Wrap, IsSequential, Replay;
    if e.Step? && e.thread < |s.pcs| {
      StepIsSilentOrReturns(s, e.thread, e.spurious);
      var s' := Next(s, e);
      if s'.log != s.log {
        OneCallMore(initial, s.log, s'.log[|s'.log| - 1]);
      }
    }
  }

  // In every interleaving the calls that have returned form a sequential history that ends in the word.
  lemma {:induction false} Linearizable(initial: Atomic32, threads: nat, events: seq<Event>)
    ensures IsLinear(initial, Run(Start(initial, threads), events))
  {
    if events != [] {
      var n := |events| - 1;
      Linearizable(initial, threads, events[..n]);
      NextKeepsLinear(initial, Run(Start(initial, threads), events[..n]), events[n]);
    }
  }

  // ---------- Each call returns once, in its own time ----------

  /** The calls of thread t that took place in a run, oldest first. */
  ghost function Made(s: System, events: seq<Event>, t: ThreadId): seq<Op> {
    if events == [] then []
    else
      var n := |events| - 1;
      Made(s, events[..n], t) + Starts(Run(s, events[..n]), events[n], t)
  }

  ghost function Returned(log: seq<Entry>, t: ThreadId): seq<Op> {
    if log == [] then []
    else
      var e := log[|log| - 1];
      Returned(log[..|log| - 1], t) + (if e.thread == t then [e.op] else [])
  }

  lemma ReturnedOneMore(log: seq<Entry>, e: Entry, t: ThreadId)
    ensures Returned(log + [e], t) == Returned(log, t) + (if e.thread == t then [e.op] else [])
  {
    assert (log + [e])[..|log|] == log;
  }

  lemma StepKeepsOp(s: System, t: ThreadId, spurious: bool)
    requires t < |s.pcs|
    ensures var s' := Advance(s, t, spurious);
            && |s'.pcs| == |s.pcs|
            && (s'.log == s.log && s.pcs[t] != Idle ==> s'.pcs[t] != Idle && OpOf(s'.pcs[t]) == OpOf(s.pcs[t]))
            && (s'.log == s.log && s.pcs[t] == Idle ==> s'.pcs[t] == Idle)
            && (forall u | 0 <= u < |s.pcs| && u != t :: s'.pcs[u] == s.pcs[u])
  {
    hide Wrap;
  }

  /** The call thread t is in, if any. */
  function InProgress(s: System, t: ThreadId): seq<Op>
    requires t < |s.pcs|
  {
    if s.pcs[t] == Idle then [] else [OpOf(s.pcs[t])]
  }

  function Starts(s: System, e: Event, t: ThreadId): seq<Op> {
    if e.Call? && e.thread == t && IsReady(s, t) then [e.op] else []
  }

  lemma BeginIsInProgress(op: Op)
    ensures Begin(op) != Idle && OpOf(Begin(op)) == op
  {
  }

  lemma NextKeepsCalls(s: System, e: Event, t: ThreadId)
    requires t < |s.pcs|
    ensures var s' := Next(s, e);
            && |s'.pcs| == |s.pcs|
            && Returned(s'.log, t) + InProgress(s', t) == Returned(s.log, t) + InProgress(s, t) + Starts(s, e, t)
  {
    hide Apply, Wrap, Advance, Begin, Returned;
    var s' := Next(s, e);
    match e
    case Call(_, op) =>
      BeginIsInProgress(op);
    case Step(u, spurious) =>
      if u < |s.pcs| {
        StepIsSilentOrReturns(s, u, spurious);
        StepKeepsOp(s, u, spurious);
        if s'.log != s.log {
          ReturnedOneMore(s.log, s'.log[|s'.log| - 1], t);
        }
      }
  }

  // The calls a thread has made are those it has returned from, in the same order, and the one it is in.
  lemma {:induction false} EachCallReturnsOnce(initial: Atomic32, threads: nat, events: seq<Event>, t: ThreadId)
    requires t < threads
    ensures var s := Run(Start(initial, threads), events);
            && |s.pcs| == threads
            && Made(Start(initial, threads), events, t) == Returned(s.log, t) + InProgress(s, t)
  {
    hide Next, Starts, InProgress, Returned;
    var s0 := Start(initial, threads);
    if events == [] {
      NothingInProgress(initial, threads, t);
    } else {
      var n := |events| - 1;
      EachCallReturnsOnce(initial, threads, events[..n], t);
      NextKeepsCalls(Run(s0, events[..n]), events[n], t);
    }
  }

  lemma NothingInProgress(initial: Atomic32, threads: nat, t: ThreadId)
    requires t < threads
    ensures InProgress(Start(initial, threads), t) == [] && Returned([], t) == []
  {
  }

  // ---------- Retrying is not in vain ----------

  ghost predicate InvolvesOthers(events: seq<Event>, t: ThreadId) {
    forall e | e in events :: e.thread != t
  }

  lemma NextOnlyAppends(s: System, e: Event)
    ensures var s' := Next(s, e);
            |s'.pcs| == |s.pcs| && |s.log| <= |s'.log| && (|s'.log| == |s.log| ==> s'.cell == s.cell)
    ensures forall t | 0 <= t < |s.pcs| && e.thread != t :: Next(s, e).pcs[t] == s.pcs[t]
  {
    hide Apply, Wrap, Advance;
    if e.Step? && e.thread < |s.pcs| {
      StepIsSilentOrReturns(s, e.thread, e.spurious);
      StepKeepsOp(s, e.thread, e.spurious);
    }
  }

  lemma {:induction false} OthersRun(s: System, others: seq<Event>, t: ThreadId)
    requires t < |s.pcs| && InvolvesOthers(others, t)
    ensures var s' := Run(s, others);
            |s'.pcs| == |s.pcs| && s'.pcs[t] == s.pcs[t]
            && |s.log| <= |s'.log| && (|s'.log| == |s.log| ==> s'.cell == s.cell)
  {
    hide Next;
    if others != [] {
      var n := |others| - 1;
      assert forall e | e in others[..n] :: e in others;
      OthersRun(s, others[..n], t);
      NextOnlyAppends(Run(s, others[..n]), others[n]);
    }
  }

  // A thread that reads the word, and calls the kernel after any steps of the others, returns, unless
  // another call returned meanwhile or the kernel failed for no reason.
  lemma RoundMakesProgress(s: System, t: ThreadId, others: seq<Event>)
    requires t < |s.pcs| && InvolvesOthers(others, t)
    requires s.pcs[t].IncrementRead? || s.pcs[t].ExchangeRead? || s.pcs[t].CasTry?
    ensures var mid := Run(Next(s, Step(t, false)), others);
            |s.log| < |Next(mid, Step(t, false)).log|
  {
    hide Wrap;
    OthersRun(Next(s, Step(t, false)), others, t);
  }

  /** How many steps of its own take a thread to the end of its call, while the word stays as it is. */
  function StepsLeft(pc: Pc, cell: Atomic32): nat {
    match pc
    case Idle => 0
    case IncrementRead(_) => 2
    case IncrementTry(_, oldValue) => if cell == oldValue then 1 else 3
    case ExchangeRead(_) => 2
    case ExchangeTry(_, oldValue) => if cell == oldValue then 1 else 3
    case CasRead(expected, _) => if cell == expected then 2 else 3
    case CasTry(expected, _) => if cell == expected then 1 else 2
    case CasReread(expected, _) => if cell == expected then 2 else 1
  }

  /** The steps of thread t among events. */
  function OwnSteps(events: seq<Event>, t: ThreadId): nat {
    if events == [] then 0
    else
      var e := events[|events| - 1];
      OwnSteps(events[..|events| - 1], t) + (if e.Step? && e.thread == t then 1 else 0)
  }

  /** The kernel does not fail thread t for no reason. */
  ghost predicate NeverSpurious(events: seq<Event>, t: ThreadId) {
    forall e | e in events && e.Step? && e.thread == t :: !e.spurious
  }

  // A step either ends the call of its thread or brings the end nearer.
  lemma StepsGoDown(s: System, t: ThreadId)
    requires t < |s.pcs| && s.pcs[t] != Idle
    ensures var s' := Advance(s, t, false); var left := StepsLeft(s.pcs[t], s.cell);
            && 1 <= left <= 3
            && (left == 1 <==> |s.log| < |s'.log|)
            && (left > 1 ==> s'.log == s.log && s'.cell == s.cell && StepsLeft(s'.pcs[t], s'.cell) == left - 1)
  {
    hide Wrap;
  }

  lemma {:induction false} StepsRun(s: System, events: seq<Event>, t: ThreadId)
    requires t < |s.pcs| && s.pcs[t] != Idle && NeverSpurious(events, t)
    ensures var s' := Run(s, events);
            && |s'.pcs| == |s.pcs| && |s.log| <= |s'.log|
            && (|s'.log| == |s.log| ==>
                  s'.log == s.log && s'.cell == s.cell && s'.pcs[t] != Idle
                  && StepsLeft(s'.pcs[t], s.cell) + OwnSteps(events, t) == StepsLeft(s.pcs[t], s.cell))
  {
    hide Advance, StepsLeft;
    if events != [] {
      var n := |events| - 1;
      assert forall e | e in events[..n] :: e in events;
      assert events[n] in events;
      StepsRun(s, events[..n], t);
      var mid := Run(s, events[..n]);
      NextOnlyAppends(mid, events[n]);
      if |mid.log| == |s.log| {
        if events[n].Step? && events[n].thread == t {
          StepsGoDown(mid, t);
          StepKeepsOp(mid, t, false);
        } else {
          OtherEvent(mid, events[n], t);
        }
      }
    }
  }

  lemma OtherEvent(s: System, e: Event, t: ThreadId)
    requires t < |s.pcs| && s.pcs[t] != Idle && (e.Step? ==> e.thread != t)
    ensures var s' := Next(s, e);
            s'.pcs[t] == s.pcs[t] && (|s'.log| == |s.log| ==> s'.log == s.log && s'.cell == s.cell)
  {
    hide Apply, Wrap, Advance;
    if e.Step? && e.thread < |s.pcs| {
      StepIsSilentOrReturns(s, e.thread, e.spurious);
      StepKeepsOp(s, e.thread, e.spurious);
    }
  }

  // Wherever a thread is in its call, after three steps of its own some call has returned, its own or
  // another one, unless the kernel failed it for no reason.
  lemma LockFree(s: System, events: seq<Event>, t: ThreadId)
    requires t < |s.pcs| && s.pcs[t] != Idle && NeverSpurious(events, t) && OwnSteps(events, t) >= 3
    ensures |s.log| < |Run(s, events).log|
  {
    hide Run, OwnSteps, NeverSpurious;
    StepsRun(s, events, t);
    StepsGoDown(s, t);
  }

  function Alone(t: ThreadId, n: nat): (events: seq<Event>)
    ensures |events| == n && forall e | e in events :: e == Step(t, false)
  {
    seq(n, _ => Step(t, false))
  }

  // Left alone, a thread ends its call in at most three steps: the call stores and returns what it means.
  lemma {:induction false} EndsAlone(s: System, t: ThreadId)
    requires t < |s.pcs| && s.pcs[t] != Idle
    ensures var op := OpOf(s.pcs[t]); var s' := Run(s, Alone(t, StepsLeft(s.pcs[t], s.cell)));
            && StepsLeft(s.pcs[t], s.cell) <= 3
            && s' == System(Apply(op, s.cell).0, s.pcs[t := Idle], s.log + [Entry(t, op, Apply(op, s.cell).1)])
    decreases StepsLeft(s.pcs[t], s.cell)
  {
    hide Apply, Advance, StepsLeft, Run;
    var left, s' := StepsLeft(s.pcs[t], s.cell), Advance(s, t, false);
    StepsGoDown(s, t);
    StepIsSilentOrReturns(s, t, false);
    StepKeepsOp(s, t, false);
    FirstStepAlone(s, t, left);
    if left == 1 {
      RunOfNothing(s');
    } else {
      EndsAlone(s', t);
      assert s'.pcs[t := Idle] == s.pcs[t := Idle];
    }
  }

  lemma RunOfNothing(s: System)
    ensures Run(s, []) == s
  {
  }

  lemma {:induction false} FirstStepAlone(s: System, t: ThreadId, n: nat)
    requires n > 0 && t < |s.pcs|
    ensures Run(s, Alone(t, n)) == Run(Advance(s, t, false), Alone(t, n - 1))
  {
    hide Advance;
    assert Alone(t, n)[..n - 1] == Alone(t, n - 1);
    if n > 1 {
      FirstStepAlone(s, t, n - 1);
      assert Alone(t, n - 1)[..n - 2] == Alone(t, n - 2);
      StepKeepsOp(s, t, false);
      AloneKeepsThreads(Advance(s, t, false), t, n - 2);
      AloneKeepsThreads(s, t, n - 1);
    } else {
      assert Alone(t, n)[..0] == [];
    }
  }

  lemma {:induction false} AloneKeepsThreads(s: System, t: ThreadId, n: nat)
    requires t < |s.pcs|
    ensures |Run(s, Alone(t, n)).pcs| == |s.pcs|
    ensures |Advance(s, t, false).pcs| == |s.pcs|
  {
    hide Advance;
    StepKeepsOp(s, t, false);
    if n > 0 {
      assert Alone(t, n)[..n - 1] == Alone(t, n - 1);
      AloneKeepsThreads(s, t, n - 1);
      StepKeepsOp(Run(s, Alone(t, n - 1)), t, false);
    }
  }

  // A call that is made, and run alone, does what it does when nothing interferes.
  lemma CallAlone(s: System, t: ThreadId, op: Op) returns (n: nat)
    requires IsReady(s, t)
    ensures n <= 3
    ensures Run(Next(s, Call(t, op)), Alone(t, n))
            == System(Apply(op, s.cell).0, s.pcs, s.log + [Entry(t, op, Apply(op, s.cell).1)])
  {
    hide Apply, Run, StepsLeft, Begin;
    BeginIsInProgress(op);
    var s' := Next(s, Call(t, op));
    n := StepsLeft(s'.pcs[t], s'.cell);
    EndsAlone(s', t);
    assert s'.pcs[t := Idle] == s.pcs;
  }

  // Each of the loops may find that the kernel failed for no reason: it stays where it is in its call.
  lemma SpuriousFailure(s: System, t: ThreadId)
    requires t < |s.pcs| && (s.pcs[t].IncrementTry? || s.pcs[t].ExchangeTry? || s.pcs[t].CasTry?)
    ensures var s' := Advance(s, t, true);
            s'.log == s.log && s'.cell == s.cell && s'.pcs[t] != Idle && OpOf(s'.pcs[t]) == OpOf(s.pcs[t])
  {
  }

  // The word has 32 bits, and wraps around where its sign changes.
  lemma WordHas32Bits()
    ensures TWO_TO_32 == 4294967296
    ensures Wrap(2147483647) == 2147483647 && Wrap(2147483647 + 1) == -2147483648
    ensures Wrap(-2147483648) == -2147483648 && Wrap(-2147483648 - 1) == 2147483647
  {
  }

  // ---------- What the histories say: compare-and-swap, increments, conservation ----------

  lemma ReplayOneFurther(initial: Atomic32, log: seq<Entry>, k: nat)
    requires k < |log|
    ensures Replay(initial, log[..k + 1]) == Apply(log[k].op, Replay(initial, log[..k])).0
  {
    assert log[..k + 1][..k] == log[..k];
  }

  // A compare-and-swap returns the expected value exactly when it stores, and what the word held in any case.
  lemma CompareAndSwapReturns(initial: Atomic32, log: seq<Entry>, k: nat)
    requires IsSequential(initial, log) && k < |log| && log[k].op.CompareAndSwap?
    ensures var before, after := Replay(initial, log[..k]), Replay(initial, log[..k + 1]);
            && log[k].result == before
            && after == if log[k].result == log[k].op.expected then log[k].op.desired else before
  {
    ReplayOneFurther(initial, log, k);
  }

  lemma WrapAdd(a: int, b: int)
    ensures Wrap(Wrap(a) + b) == Wrap(a + b)
  {
    var q := (a + TWO_TO_31) / TWO_TO_32;
    assert Wrap(a) == a - q * TWO_TO_32;
    SubtractMultiple(a + b + TWO_TO_31, q);
  }

  lemma SubtractMultiple(x: int, q: int)
    ensures (x - q * TWO_TO_32) % TWO_TO_32 == x % TWO_TO_32
  {
  }

  lemma WrapOfWord(x: Atomic32)
    ensures Wrap(x) == x
  {
  }

  ghost predicate AllIncrements(log: seq<Entry>) {
    forall e | e in log :: e.op.Increment?
  }

  ghost function Sum(log: seq<Entry>): int
    requires AllIncrements(log)
  {
    if log == [] then 0
    else
      assert log[|log| - 1] in log;
      Sum(log[..|log| - 1]) + log[|log| - 1].op.delta
  }

  // The word is the sum of all increments, and each increment returns the sum up to itself.
  lemma {:induction false} IncrementsAddUp(initial: Atomic32, log: seq<Entry>)
    requires IsSequential(initial, log) && AllIncrements(log)
    ensures Replay(initial, log) == Wrap(initial + Sum(log))
    ensures log != [] ==> log[|log| - 1].result == Wrap(initial + Sum(log))
  {
    hide Wrap;
    if log == [] {
      WrapOfWord(initial);
    } else {
      var n := |log| - 1;
      assert log[n] in log;
      SequentialPrefix(initial, log, n);
      IncrementsAddUp(initial, log[..n]);
      WrapAdd(initial + Sum(log[..n]), log[n].op.delta);
    }
  }

  lemma SequentialPrefix(initial: Atomic32, log: seq<Entry>, n: nat)
    requires IsSequential(initial, log) && n <= |log|
    ensures IsSequential(initial, log[..n])
  {
    forall k | 0 <= k < n
      ensures log[..n][k].result == Apply(log[..n][k].op, Replay(initial, log[..n][..k])).1
    {
      assert log[..n][..k] == log[..k];
    }
  }

  predicate Stores(e: Entry) {
    e.op.CompareAndSwap? ==> e.result == e.op.expected
  }

  /** The value the call put into the word, if it stored. */
  function Put(e: Entry): Atomic32 {
    match e.op
    case Increment(_) => e.result
    case Exchange(value) => value
    case CompareAndSwap(_, desired) => desired
  }

  /** The value it took out, as its caller knows from the result. */
  function Taken(e: Entry): Atomic32 {
    match e.op
    case Increment(delta) => Wrap(e.result - delta)
    case Exchange(_) => e.result
    case CompareAndSwap(expected, _) => expected
  }

  ghost function Puts(log: seq<Entry>): multiset<Atomic32> {
    if log == [] then multiset{}
    else
      var e := log[|log| - 1];
      Puts(log[..|log| - 1]) + (if Stores(e) then multiset{Put(e)} else multiset{})
  }

  ghost function Takens(log: seq<Entry>): multiset<Atomic32> {
    if log == [] then multiset{}
    else
      var e := log[|log| - 1];
      Takens(log[..|log| - 1]) + (if Stores(e) then multiset{Taken(e)} else multiset{})
  }

  lemma TakenWasThere(e: Entry, cell: Atomic32)
    requires e.result == Apply(e.op, cell).1
    ensures Apply(e.op, cell).0 == if Stores(e) then Put(e) else cell
    ensures Stores(e) ==> Taken(e) == cell
  {
    if e.op.Increment? {
      var delta: int := e.op.delta;
      WrapAdd(cell + delta, 0 - delta);
      WrapOfWord(cell);
    }
  }

  // No value is lost and none is made up: what was put in is what was taken out, and what is left.
  lemma {:induction false} ValuesAreConserved(initial: Atomic32, log: seq<Entry>)
    requires IsSequential(initial, log)
    ensures multiset{initial} + Puts(log) == multiset{Replay(initial, log)} + Takens(log)
  {
    hide Apply, Put, Taken, Stores;
    if log != [] {
      var n := |log| - 1;
      SequentialPrefix(initial, log, n);
      ValuesAreConserved(initial, log[..n]);
      var e, before := log[n], Replay(initial, log[..n]);
      TakenWasThere(e, before);
      assert log[..n] == log[..|log| - 1];
      if Stores(e) {
        assert Puts(log) == Puts(log[..n]) + multiset{Put(e)};
        assert Takens(log) == Takens(log[..n]) + multiset{before};
        assert Replay(initial, log) == Put(e);
        assert multiset{initial} + Puts(log) == (multiset{initial} + Puts(log[..n])) + multiset{Put(e)};
        assert multiset{Put(e)} + Takens(log) == (multiset{before} + Takens(log[..n])) + multiset{Put(e)};
      } else {
        assert Replay(initial, log) == before;
        assert Puts(log) == Puts(log[..n]) && Takens(log) == Takens(log[..n]);
      }
    }
  }

  // ---------- The retry loops, as one thread runs them ----------

  /** log' is log and some calls of threads other than me. */
  ghost predicate ByOthers(log: seq<Entry>, log': seq<Entry>, me: ThreadId) {
    log <= log' && forall k | |log| <= k < |log'| :: log'[k].thread != me
  }

  /** log' is log, some calls of threads other than me, and then the call e. */
  ghost predicate ByOthersAndThen(log: seq<Entry>, log': seq<Entry>, me: ThreadId, e: Entry) {
    log' != [] && log'[|log'| - 1] == e && ByOthers(log, log'[..|log'| - 1], me)
  }

  /**
   The word as thread `me` shares it: whenever `me` touches it, any number of
   calls of other threads may just have returned, and the kernel may fail for no
   reason. How often that still happens is finite, but nobody knows how often:
   without it the loops of the source would not end either.
   */
  class SharedWord {
    var value: Atomic32
    var disturbances: nat
    ghost const initial: Atomic32
    ghost var log: seq<Entry>

    ghost predicate Valid()
      reads this
    {
      IsSequential(initial, log) && value == Replay(initial, log)
    }

    constructor (initial: Atomic32, disturbances: nat)
      ensures Valid() && value == this.initial == initial && log == [] && this.disturbances == disturbances
    {
      value, this.initial, log, this.disturbances := initial, initial, [], disturbances;
    }

    method OthersReturn(me: ThreadId)
      requires Valid()
      modifies this
      ensures Valid() && ByOthers(old(log), log, me)
      ensures disturbances <= old(disturbances)
      ensures disturbances == old(disturbances) ==> log == old(log) && value == old(value)
    {
      hide IsSequential, Replay, Apply;
      var calls: nat := *;
      while calls > 0 && disturbances > 0
        invariant Valid() && ByOthers(old(log), log, me) && disturbances <= old(disturbances)
        invariant disturbances == old(disturbances) ==> log == old(log) && value == old(value)
      {
        var t: ThreadId, op: Op := *, *;
        if t != me {
          var after := Apply(op, value);
          OneCallMore(initial, log, Entry(t, op, after.1));
          log := log + [Entry(t, op, after.1)];
          value := after.0;
          disturbances := disturbances - 1;
        }
        calls := calls - 1;
      }
    }

    method Load(me: ThreadId) returns (v: Atomic32)
      requires Valid()
      modifies this
      ensures Valid() && ByOthers(old(log), log, me) && v == value
      ensures disturbances <= old(disturbances)
      ensures disturbances == old(disturbances) ==> log == old(log) && value == old(value)
    {
      OthersReturn(me);
      v := value;
    }

    /** The compare-exchange of the kernel; it tells whether it failed, which it may do for no reason. */
    method LinuxKernelCmpxchg(me: ThreadId, oldValue: Atomic32, newValue: Atomic32, ghost op: Op) returns (failed: bool)
      requires Valid() && Apply(op, oldValue).0 == newValue
      modifies this
      ensures Valid() && disturbances <= old(disturbances)
      ensures if failed then ByOthers(old(log), log, me)
              else ByOthersAndThen(old(log), log, me, Entry(me, op, Apply(op, oldValue).1)) && value == newValue
      // Without a disturbance it fails exactly when the word is not as expected.
      ensures disturbances == old(disturbances) ==>
                failed == (old(value) != oldValue) && (failed ==> log == old(log) && value == old(value))
    {
      hide IsSequential, Replay, Apply;
      OthersReturn(me);
      var spurious: bool := *;
      failed := value != oldValue;
      if !failed && spurious && disturbances > 0 {
        disturbances := disturbances - 1;
        failed := true;
      }
      if !failed {
        ghost var e := Entry(me, op, Apply(op, oldValue).1);
        OneCallMore(initial, log, e);
        assert (log + [e])[..|log|] == log;
        value, log := newValue, log + [e];
      }
    }

    method BarrierAtomicIncrement(me: ThreadId, increment: Atomic32) returns (result: Atomic32)
      requires Valid()
      modifies this
      ensures Valid() && value == result
      ensures ByOthersAndThen(old(log), log, me, Entry(me, Increment(increment), result))
    {
      hide IsSequential, Replay, Wrap;
      while true
        invariant Valid() && ByOthers(old(log), log, me)
        decreases disturbances
      {
        var oldValue := Load(me);
        var newValue := Wrap(oldValue + increment);
        var failed := LinuxKernelCmpxchg(me, oldValue, newValue, Increment(increment));
        if !failed {
          return newValue;
        }
      }
    }

    method NoBarrierAtomicExchange(me: ThreadId, newValue: Atomic32) returns (oldValue: Atomic32)
      requires Valid()
      modifies this
      ensures Valid() && value == newValue
      ensures ByOthersAndThen(old(log), log, me, Entry(me, Exchange(newValue), oldValue))
    {
      hide IsSequential, Replay;
      while true
        invariant Valid() && ByOthers(old(log), log, me)
        decreases disturbances
      {
        oldValue := Load(me);
        var failed := LinuxKernelCmpxchg(me, oldValue, newValue, Exchange(newValue));
        if !failed {
          return;
        }
      }
    }

    method NoBarrierCompareAndSwap(me: ThreadId, oldValue: Atomic32, newValue: Atomic32) returns (result: Atomic32)
      requires Valid()
      modifies this
      ensures Valid() && value == if result == oldValue then newValue else result
      ensures ByOthersAndThen(old(log), log, me, Entry(me, CompareAndSwap(oldValue, newValue), result))
    {
      hide IsSequential, Replay;
      var prevValue := Load(me);
      while true
        invariant Valid() && ByOthers(old(log), log, me)
        decreases disturbances, prevValue == oldValue
      {
        var failed := LinuxKernelCmpxchg(me, oldValue, newValue, CompareAndSwap(oldValue, newValue));
        if !failed {
          return oldValue;
        }
        prevValue := Load(me);
        if prevValue != oldValue {
          ghost var e := Entry(me, CompareAndSwap(oldValue, newValue), prevValue);
          OneCallMore(initial, log, e);
          assert (log + [e])[..|log|] == log;
          log := log + [e];
          return prevValue;
        }
      }
    }
  }
}
