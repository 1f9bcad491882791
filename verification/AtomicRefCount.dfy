/**
 Model of base/atomic_ref_count.h: threads that hold references, take more
 while they hold one, hand them on, and give them up.
 */
module AtomicRefCount {
  import opened AtomicOps

  /** The reference count and, for each thread, the number of references it holds. */
  datatype Counted = Counted(system: System, held: seq<nat>)

  datatype Event =
    | IncN(thread: ThreadId, n: nat)
    | DecN(thread: ThreadId, n: nat)
    | Hand(thread: ThreadId, to: ThreadId, n: nat)
    | Step(thread: ThreadId, spurious: bool)

  function Total(held: seq<nat>): nat {
    if held == [] then 0 else Total(held[..|held| - 1]) + held[|held| - 1]
  }

  /** A thread takes references only while it holds one, and gives up only what it holds. */
  predicate IsAllowed(c: Counted, e: Event) {
    match e
    case IncN(t, n) => t < |c.held| && IsReady(c.system, t) && 0 < n < TWO_TO_31 && c.held[t] >= 1
    case DecN(t, n) => t < |c.held| && IsReady(c.system, t) && 0 < n < TWO_TO_31 && n <= c.held[t]
    case Hand(t, u, n) => t < |c.held| && u < |c.held| && t != u && IsReady(c.system, t) && n <= c.held[t]
    case Step(t, _) => t < |c.held| && t < |c.system.pcs|
  }

  /** The change a call of AtomicRefCountIncN or DecN makes, once it returns. */
  function Settle(held: seq<nat>, t: ThreadId, delta: int): seq<nat>
    requires t < |held| && held[t] + delta >= 0
  {
    held[t := held[t] + delta]
  }

  /** A thread in a call still holds what it is giving up, and holds one if it is taking more. */
  ghost predicate HoldsEnough(held: nat, pc: Pc) {
    pc != Idle ==>
      && OpOf(pc).Increment?
      && OpOf(pc).delta != 0
      && (if OpOf(pc).delta > 0 then held >= 1 else held + OpOf(pc).delta >= 0)
  }

  ghost predicate CountOk(c: Counted) {
    && |c.held| == |c.system.pcs|
    && c.system.cell == Wrap(Total(c.held))
    && forall t | 0 <= t < |c.held| :: HoldsEnough(c.held[t], c.system.pcs[t])
  }

  function Next(c: Counted, e: Event): Counted
    requires CountOk(c)
  {
    if !IsAllowed(c, e) then c
    else
      match e
      case IncN(t, n) => c.(system := AtomicOps.Next(c.system, Call(t, Increment(n))))
      case DecN(t, n) => c.(system := AtomicOps.Next(c.system, Call(t, Increment(0 - n))))
      case Hand(t, u, n) => c.(held := c.held[t := c.held[t] - n][u := c.held[u] + n])
      case Step(t, spurious) =>
        var s' := Advance(c.system, t, spurious);
        if s'.log == c.system.log || c.system.pcs[t] == Idle then c.(system := s')
        else Counted(s', Settle(c.held, t, OpOf(c.system.pcs[t]).delta))
  }

  lemma {:induction false} TotalSettle(held: seq<nat>, t: ThreadId, n: nat)
    requires t < |held|
    ensures Total(held[t := n]) == Total(held) - held[t] + n
  {
    var last := |held| - 1;
    if t == last {
      assert held[t := n][..last] == held[..last];
    } else {
      assert held[t := n][..last] == held[..last][t := n];
      TotalSettle(held[..last], t, n);
    }
  }

  lemma {:induction false} TotalBounds(held: seq<nat>, t: ThreadId)
    requires t < |held|
    ensures held[t] <= Total(held)
  {
    if t < |held| - 1 {
      TotalBounds(held[..|held| - 1], t);
    }
  }

  lemma NextKeepsCount(c: Counted, e: Event)
    requires CountOk(c)
    ensures CountOk(Next(c, e))
  {
    hide Wrap, Total;
    if IsAllowed(c, e) {
      match e
      case IncN(t, n) =>
      case DecN(t, n) =>
      case Hand(t, u, n) =>
        TotalSettle(c.held, t, c.held[t] - n);
        TotalSettle(c.held[t := c.held[t] - n], u, c.held[u] + n);
      case Step(t, spurious) =>
        StepIsSilentOrReturns(c.system, t, spurious);
        StepKeepsOp(c.system, t, spurious);
        var s' := Advance(c.system, t, spurious);
        if s'.log != c.system.log {
          var delta: int := OpOf(c.system.pcs[t]).delta;
          TotalSettle(c.held, t, c.held[t] + delta);
          WrapAdd(Total(c.held), delta);
        }
    }
  }

  // ---------- Whole runs ----------

  function Run(c: Counted, events: seq<Event>): (c': Counted)
    requires CountOk(c)
    ensures CountOk(c')
  {
    if events == [] then c
    else
      var before := Run(c, events[..|events| - 1]);
      NextKeepsCount(before, events[|events| - 1]);
      Next(before, events[|events| - 1])
  }

  function Start(held: seq<nat>): (c: Counted)
    ensures CountOk(c)
  {
    Counted(AtomicOps.Start(Wrap(Total(held)), |held|), held)
  }

  /** What AtomicRefCountDecN makes of the increment's result. */
  predicate DecNReturns(result: Atomic32) {
    result != 0
  }

  predicate IsLastDecrement(e: Entry) {
    e.op.Increment? && e.op.delta < 0 && !DecNReturns(e.result)
  }

  lemma WrapIsZero(x: nat)
    ensures Wrap(x) == 0 <==> x % TWO_TO_32 == 0
  {
  }

  lemma NobodyHolds(c: Counted)
    requires CountOk(c) && Total(c.held) == 0
    ensures forall t | 0 <= t < |c.held| :: c.held[t] == 0 && c.system.pcs[t] == Idle
  {
    forall t | 0 <= t < |c.held|
      ensures c.held[t] == 0
    {
      TotalBounds(c.held, t);
    }
  }

  // Once no reference is held nothing happens any more.
  lemma NothingHappens(c: Counted, e: Event)
    requires CountOk(c) && Total(c.held) == 0
    ensures Next(c, e) == c
  {
    NobodyHolds(c);
    if IsAllowed(c, e) && e.Hand? {
      assert c.held[e.thread := c.held[e.thread] - e.n][e.to := c.held[e.to] + e.n] == c.held;
    }
  }

  /** What a call that returns between c and c' finds: the word is what it returns, and counts the references left. */
  ghost predicate Counts(c: Counted, c': Counted, last: Entry) {
    && c'.system.log == c.system.log + [last]
    && last.op.Increment? && last.op.delta != 0
    && last.result == Wrap(Total(c'.held))
    && (last.op.delta > 0 ==> Total(c'.held) > 0)
  }

  lemma NextReturns(c: Counted, e: Event)
    requires CountOk(c)
    ensures var c' := Next(c, e);
            if c'.system.log == c.system.log then Total(c'.held) == Total(c.held)
            else c'.system.log != [] && Counts(c, c', c'.system.log[|c'.system.log| - 1])
  {
    hide Wrap, Total;
    NextKeepsCount(c, e);
    if IsAllowed(c, e) {
      match e
      case IncN(_, _) =>
      case DecN(_, _) =>
      case Hand(t, u, n) =>
        TotalSettle(c.held, t, c.held[t] - n);
        TotalSettle(c.held[t := c.held[t] - n], u, c.held[u] + n);
      case Step(t, spurious) =>
        StepIsSilentOrReturns(c.system, t, spurious);
        TotalBounds(Next(c, e).held, t);
    }
  }

  // ---------- One call, run alone ----------

  function Alone(t: ThreadId, n: nat): (events: seq<Event>)
    ensures |events| == n && forall e | e in events :: e == Event.Step(t, false)
  {
    seq(n, _ => Event.Step(t, false))
  }

  /** The thread is in no call; its last one changed its references by delta, and returned the count. */
  ghost predicate Settled(c: Counted, c': Counted, t: ThreadId, delta: int)
    requires t < |c.held| && c.held[t] + delta >= 0
  {
    && c'.held == Settle(c.held, t, delta)
    && |c'.system.pcs| == |c.system.pcs| && t < |c'.system.pcs| && c'.system.pcs[t] == Idle
    && |c'.system.log| == |c.system.log| + 1 && c.system.log <= c'.system.log
    && c'.system.log[|c.system.log|].thread == t && c'.system.log[|c.system.log|].op.Increment?
    && c'.system.log[|c.system.log|].op.delta == delta
    && c'.system.log[|c.system.log|].result == c'.system.cell == Wrap(Total(c'.held))
  }

  lemma {:induction false} FirstStepAlone(c: Counted, t: ThreadId, n: nat)
    requires CountOk(c) && n > 0
    ensures CountOk(Next(c, Event.Step(t, false)))
    ensures Run(c, Alone(t, n)) == Run(Next(c, Event.Step(t, false)), Alone(t, n - 1))
  {
    hide Next, CountOk;
    NextKeepsCount(c, Event.Step(t, false));
    assert Alone(t, n)[..n - 1] == Alone(t, n - 1);
    if n > 1 {
      FirstStepAlone(c, t, n - 1);
      assert Alone(t, n - 1)[..n - 2] == Alone(t, n - 2);
    } else {
      assert Alone(t, 0) == [];
    }
  }

  lemma {:induction false} EndsAlone(c: Counted, t: ThreadId)
    requires CountOk(c) && t < |c.held| && c.system.pcs[t] != Idle
    ensures var pc := c.system.pcs[t];
            && StepsLeft(pc, c.system.cell) <= 3 && OpOf(pc).Increment? && c.held[t] + OpOf(pc).delta >= 0
            && Settled(c, Run(c, Alone(t, StepsLeft(pc, c.system.cell))), t, OpOf(pc).delta)
    decreases StepsLeft(c.system.pcs[t], c.system.cell)
  {
    hide Run, StepsLeft, Total, Wrap, Advance;
    var left := StepsLeft(c.system.pcs[t], c.system.cell);
    StepsGoDown(c.system, t);
    StepIsSilentOrReturns(c.system, t, false);
    StepKeepsOp(c.system, t, false);
    assert HoldsEnough(c.held[t], c.system.pcs[t]);
    FirstStepAlone(c, t, left);
    var c' := Next(c, Event.Step(t, false));
    if left == 1 {
      assert Run(c', Alone(t, 0)) == c' by { RunOfNothing(c'); }
    } else {
      EndsAlone(c', t);
    }
  }

  lemma RunOfNothing(c: Counted)
    requires CountOk(c)
    ensures Run(c, Alone(0, 0)) == c && forall t :: Alone(t, 0) == []
  {
  }

  // A call that is made, and run alone, takes or gives up the references it is made for.
  lemma CallAlone(c: Counted, e: Event) returns (n: nat)
    requires CountOk(c) && (e.IncN? || e.DecN?) && e.thread < |c.held| && c.system.pcs[e.thread] == Idle
    requires 0 < e.n < 0x8000_0000 && (if e.IncN? then c.held[e.thread] >= 1 else c.held[e.thread] >= e.n)
    ensures CountOk(Next(c, e)) && n <= 3
    ensures var delta := if e.IncN? then e.n else 0 - e.n;
            c.held[e.thread] + delta >= 0 && Settled(c, Run(Next(c, e), Alone(e.thread, n)), e.thread, delta)
  {
    hide Run, StepsLeft, Total, Wrap;
    NextKeepsCount(c, e);
    var c' := Next(c, e);
    n := StepsLeft(c'.system.pcs[e.thread], c'.system.cell);
    EndsAlone(c', e.thread);
  }

  // A thread that gives up all the references there are is told so.
  lemma LastReferences(c: Counted, t: ThreadId, n: nat) returns (steps: nat)
    requires CountOk(c) && t < |c.held| && c.system.pcs[t] == Idle && 0 < n < 0x8000_0000
    requires c.held[t] == Total(c.held) == n
    ensures CountOk(Next(c, DecN(t, n))) && steps <= 3
    ensures var c' := Run(Next(c, DecN(t, n)), Alone(t, steps));
            && Total(c'.held) == 0
            && c'.system.log != [] && IsLastDecrement(c'.system.log[|c'.system.log| - 1])
  {
    hide Run, Total, Next, CountOk;
    steps := CallAlone(c, DecN(t, n));
    NextKeepsHeld(c, t, n);
    TotalSettle(c.held, t, 0);
  }

  lemma NextKeepsHeld(c: Counted, t: ThreadId, n: nat)
    requires CountOk(c)
    ensures Next(c, DecN(t, n)).held == c.held
  {
  }

  // References that are handed on are held by the other thread, and by nobody else.
  lemma HandsOn(c: Counted, t: ThreadId, u: ThreadId, n: nat)
    requires CountOk(c) && t < |c.held| && u < |c.held| && t != u && c.system.pcs[t] == Idle && n <= c.held[t]
    ensures var c' := Next(c, Hand(t, u, n));
            && c'.system == c.system && |c'.held| == |c.held|
            && c'.held[t] == c.held[t] - n && c'.held[u] == c.held[u] + n
            && (forall v | 0 <= v < |c.held| && v != t && v != u :: c'.held[v] == c.held[v])
            && Total(c'.held) == Total(c.held)
  {
    hide Total;
    TotalSettle(c.held, t, c.held[t] - n);
    TotalSettle(c.held[t := c.held[t] - n], u, c.held[u] + n);
  }

  // A decrement returns false exactly when the references left are a multiple of 2^32.
  lemma DecrementReturnsFalseIff(c: Counted, e: Event)
    requires CountOk(c) && Next(c, e).system.log != c.system.log
    ensures var c' := Next(c, e);
            && c'.system.log != []
            && (var last := c'.system.log[|c'.system.log| - 1];
                IsLastDecrement(last) <==> last.op.Increment? && last.op.delta < 0
                                           && Total(c'.held) % TWO_TO_32 == 0)
  {
    hide Total, Wrap;
    NextReturns(c, e);
    WrapIsZero(Total(Next(c, e).held));
  }

  /** The references never outgrow the word. */
  ghost predicate Fits(c: Counted, events: seq<Event>)
    requires CountOk(c)
  {
    forall k | 0 <= k <= |events| :: Total(Run(c, events[..k]).held) < TWO_TO_32
  }

  /** A decrement that returned false is the last call of all, and it is there once no reference is left. */
  ghost predicate OnlyTheLastIsFalse(c: Counted) {
    var log := c.system.log;
    && (forall k | 0 <= k < |log| && IsLastDecrement(log[k]) :: k == |log| - 1 && Total(c.held) == 0)
    && (Total(c.held) == 0 && log != [] ==> IsLastDecrement(log[|log| - 1]))
  }

  lemma NextKeepsOnlyTheLastIsFalse(c: Counted, e: Event)
    requires CountOk(c) && OnlyTheLastIsFalse(c) && Total(Next(c, e).held) < TWO_TO_32
    ensures OnlyTheLastIsFalse(Next(c, e))
  {
    hide Next, Total, Wrap, CountOk;
    if Total(c.held) == 0 {
      NothingHappens(c, e);
    } else {
      var c' := Next(c, e);
      NextReturns(c, e);
      WrapIsZero(Total(c'.held));
      assert c'.system.log != c.system.log ==> c'.system.log[..|c'.system.log| - 1] == c.system.log;
      forall k | 0 <= k < |c'.system.log| - 1 && c'.system.log != c.system.log
        ensures !IsLastDecrement(c'.system.log[k])
      {
        assert c'.system.log[k] == c.system.log[k];
      }
    }
  }

  // In every interleaving the word is the number of references held, and exactly one decrement returns
  // false: the one that gives up the last reference, after which nothing happens.
  lemma {:induction false} OneDecrementReturnsFalse(held: seq<nat>, events: seq<Event>)
    requires Fits(Start(held), events)
    ensures var c := Run(Start(held), events);
            OnlyTheLastIsFalse(c) && c.system.cell == Wrap(Total(c.held))
  {
    hide Next, Total, Wrap, OnlyTheLastIsFalse;
    var c0 := Start(held);
    if events == [] {
      assert OnlyTheLastIsFalse(c0) by { NothingReturned(c0); }
    } else {
      var n := |events| - 1;
      forall k | 0 <= k <= n
        ensures Total(Run(c0, events[..n][..k]).held) < TWO_TO_32
      {
        assert events[..n][..k] == events[..k];
      }
      OneDecrementReturnsFalse(held, events[..n]);
      assert events[..|events|] == events;
      NextKeepsOnlyTheLastIsFalse(Run(c0, events[..n]), events[n]);
    }
  }

  lemma NothingReturned(c: Counted)
    requires c.system.log == []
    ensures OnlyTheLastIsFalse(c)
  {
  }

  // A count of one, seen by a thread that holds a reference, means that no other thread holds one or is in a call.
  lemma OneMeansMine(c: Counted, t: ThreadId)
    requires CountOk(c) && Total(c.held) < TWO_TO_32 && t < |c.held| && c.held[t] >= 1
    ensures c.system.cell == 1 <==> c.held[t] == 1 && forall u | 0 <= u < |c.held| && u != t :: c.held[u] == 0
    ensures c.system.cell == 1 ==> forall u | 0 <= u < |c.held| && u != t :: c.system.pcs[u] == Idle
  {
    hide Total;
    var others := c.held[t := 0];
    TotalSettle(c.held, t, 0);
    TotalBounds(c.held, t);
    if c.system.cell == 1 {
      forall u | 0 <= u < |c.held| && u != t
        ensures c.held[u] == 0
      {
        TotalBounds(others, u);
      }
    }
    if c.held[t] == 1 && forall u | 0 <= u < |c.held| && u != t :: c.held[u] == 0 {
      TotalOfNothing(others);
    }
  }

  lemma {:induction false} TotalOfNothing(held: seq<nat>)
    requires forall u | 0 <= u < |held| :: held[u] == 0
    ensures Total(held) == 0
  {
    if held != [] {
      TotalOfNothing(held[..|held| - 1]);
    }
  }

  // ---------- The functions, over the shared word ----------

  method AtomicRefCountIncN(ptr: SharedWord, me: ThreadId, increment: Atomic32)
    requires ptr.Valid() && increment > 0
    modifies ptr
    ensures ptr.Valid()
    ensures ByOthersAndThen(old(ptr.log), ptr.log, me, Entry(me, Increment(increment), ptr.value))
  {
    var unused := ptr.BarrierAtomicIncrement(me, increment);
  }

  method AtomicRefCountDecN(ptr: SharedWord, me: ThreadId, decrement: Atomic32) returns (res: bool)
    requires ptr.Valid() && decrement > 0
    modifies ptr
    ensures ptr.Valid()
    ensures ByOthersAndThen(old(ptr.log), ptr.log, me, Entry(me, Increment(0 - decrement), ptr.value))
    ensures res == DecNReturns(ptr.value)
  {
    var result := ptr.BarrierAtomicIncrement(me, 0 - decrement);
    res := result != 0;
  }

  method AtomicRefCountIsOne(ptr: SharedWord, me: ThreadId) returns (res: bool)
    requires ptr.Valid()
    modifies ptr
    ensures ptr.Valid() && ByOthers(old(ptr.log), ptr.log, me)
    ensures res <==> ptr.value == 1
  {
    var v := ptr.Load(me);
    res := v == 1;
  }
}
