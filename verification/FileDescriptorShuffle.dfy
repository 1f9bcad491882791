/**
 Model of base/file_descriptor_shuffle.{h,cc}: a simultaneous assignment of
 descriptors, "dest k := what source k holds", carried out one dup, dup2 and
 close at a time.

 The descriptor table is a map from open descriptors to what they refer to.
 */
module FileDescriptorShuffle {
  import opened Wrappers

  /** What an open descriptor refers to. */
  type Description = nat

  type Table = map<int, Description>

  datatype InjectionArc = InjectionArc(source: int, dest: int, close: bool)

  const MAX_EXTRA_FDS: nat := 16

  function Lookup(t: Table, fd: int): Option<Description> {
    if fd in t then Some(t[fd]) else None
  }

  lemma FreshDescriptorExists(taken: set<int>)
    ensures exists fd :: fd >= 0 && fd !in taken
  {
    var bound := UpperBound(taken);
    assert bound >= 0 && bound !in taken;
  }

  lemma UpperBound(taken: set<int>) returns (bound: int)
    ensures bound >= 0 && forall x | x in taken :: x < bound
  {
    if y :| y in taken {
      bound := UpperBound(taken - {y});
      assert forall x | x in taken :: x == y || x in taken - {y};
      if bound <= y {
        bound := y + 1;
      }
    } else {
      bound := 0;
    }
  }

  /**
   The delegate. Any of its calls may fail, unless it is reliable, when only a
   descriptor that is not open makes a call fail. Duplicate answers with a descriptor
   that is not open; which one is not known, except that a delegate may promise
   never to answer with a member of `reserved`. The delegate on the process's
   own table reserves nothing; one that keeps the promise of the header, an
   element that is fresh with respect to the map, reserves the map's elements.
   */
  class InjectionDelegate {
    var table: Table
    const reserved: set<int>
    const reliable: bool
    // Every descriptor Duplicate has answered with, oldest first.
    ghost var handedOut: seq<int>

    constructor (table: Table, reserved: set<int>, reliable: bool)
      ensures this.table == table && this.reserved == reserved && this.reliable == reliable && handedOut == []
    {
      this.table := table;
      this.reserved := reserved;
      this.reliable := reliable;
      this.handedOut := [];
    }

    method Duplicate(fd: int) returns (ok: bool, result: int)
      modifies this
      ensures ok ==>
        && fd in old(table)
        && result >= 0 && result !in old(table) && result !in reserved
        && table == old(table)[result := old(table)[fd]]
        && handedOut == old(handedOut) + [result]
      ensures !ok ==> table == old(table) && handedOut == old(handedOut)
      ensures reliable && fd in old(table) ==> ok
    {
      var granted: bool := *;
      if (reliable || granted) && fd in table {
        FreshDescriptorExists(table.Keys + reserved);
        result :| result >= 0 && result !in table.Keys + reserved;
        table := table[result := table[fd]];
        handedOut := handedOut + [result];
        ok := true;
      } else {
        ok, result := false, -1;
      }
    }

    method Move(src: int, dest: int) returns (ok: bool)
      modifies this`table
      ensures ok ==> src in old(table) && table == old(table)[dest := old(table)[src]]
      ensures !ok ==> table == old(table)
      ensures reliable && src in old(table) ==> ok
    {
      var granted: bool := *;
      ok := (reliable || granted) && src in table;
      if ok {
        table := table[dest := table[src]];
      }
    }

    method Close(fd: int)
      modifies this`table
      ensures table == old(table) - {fd}
    {
      table := table - {fd};
    }
  }

  // ---------- What the shuffle is meant to do, and what it does ----------

  predicate IsIdentity(arc: InjectionArc) {
    arc.source == arc.dest
  }

  ghost predicate Injective(o: seq<InjectionArc>) {
    forall i, j | 0 <= i < j < |o| :: o[i].dest != o[j].dest
  }

  ghost predicate IsDest(o: seq<InjectionArc>, fd: int) {
    exists k | 0 <= k < |o| :: o[k].dest == fd
  }

  ghost predicate IsClosedSource(o: seq<InjectionArc>, fd: int) {
    exists k | 0 <= k < |o| :: o[k].source == fd && o[k].close
  }

  /** An identity arc on fd followed by another arc from fd, one of the two asking for a close. */
  ghost predicate IsClosingIdentity(o: seq<InjectionArc>, fd: int) {
    exists i, k | 0 <= i < k < |o| ::
      o[i].source == fd && o[i].dest == fd && o[k].source == fd && (o[i].close || o[k].close)
  }

  /** The descriptors the shuffle closes on its way. */
  ghost predicate IsDue(o: seq<InjectionArc>, fd: int) {
    if IsDest(o, fd) then IsClosingIdentity(o, fd) else IsClosedSource(o, fd)
  }

  function Min(a: nat, b: nat): nat {
    if a < b then a else b
  }

  /** The temporaries the shuffle remembers, and closes at the end. */
  function Recorded(temps: seq<int>): seq<int> {
    temps[..Min(|temps|, MAX_EXTRA_FDS)]
  }

  /** The temporaries beyond the sixteenth, which stay open. */
  function Leaked(temps: seq<int>): seq<int> {
    temps[Min(|temps|, MAX_EXTRA_FDS)..]
  }

  /**
   The table after a successful shuffle, in full: `before` is the table on
   entry, `temps` the descriptors Duplicate answered with.
   */
  ghost predicate Shuffled(o: seq<InjectionArc>, before: Table, after: Table, temps: seq<int>) {
    && (forall k | 0 <= k < |o| ::
          var d := o[k].dest;
          if d in Recorded(temps) then d !in after
          else if IsDue(o, d) then d in Leaked(temps) || d !in after
          else Lookup(after, d) == Lookup(before, o[k].source))
    && (forall fd {:trigger Lookup(after, fd)} | !IsDest(o, fd) ::
          if fd in Recorded(temps) then fd !in after
          else if fd in Leaked(temps) then fd in after
          else if IsDue(o, fd) then fd !in after
          else Lookup(after, fd) == Lookup(before, fd))
  }

  /** The number of arcs among the first n whose dest a later arc still reads. */
  ghost function Detours(o: seq<InjectionArc>, n: nat): nat
    requires n <= |o|
  {
    if n == 0 then 0 else Detours(o, n - 1) + (if NeedsDetour(o, n - 1) then 1 else 0)
  }

  ghost predicate NeedsDetour(o: seq<InjectionArc>, i: nat)
    requires i < |o|
  {
    !IsIdentity(o[i]) && exists j | i < j < |o| :: o[j].source == o[i].dest
  }

  /** Duplicate might answer with fd: it is not open, and it is not reserved. */
  predicate MayBeHandedOut(before: Table, reserved: set<int>, fd: int) {
    fd >= 0 && fd !in before && fd !in reserved
  }

  /** No temporary that the shuffle remembers is taken before a dest that Duplicate might answer with is assigned. */
  ghost predicate NoRisk(o: seq<InjectionArc>, before: Table, reserved: set<int>) {
    forall i, k | 0 <= i < k < |o| && NeedsDetour(o, i) && Detours(o, i) < MAX_EXTRA_FDS ::
      !MayBeHandedOut(before, reserved, o[k].dest)
  }

  // ---------- One turn of the outer loop, as a function ----------

  predicate Redirected(a: seq<InjectionArc>, i: nat, k: nat)
    requires i < |a| && k < |a|
  {
    !IsIdentity(a[i]) && a[k].source == a[i].dest
  }

  /** Arc k relieves arc i of closing its source: k overwrites it, or still reads it. */
  predicate Relieves(a: seq<InjectionArc>, i: nat, k: nat)
    requires i < |a| && k < |a|
  {
    a[k].dest == a[i].source || a[k].source == a[i].source
  }

  ghost predicate RelievedBefore(a: seq<InjectionArc>, i: nat, n: nat)
    requires i < |a| && n <= |a|
  {
    exists k | i < k < n :: Relieves(a, i, k)
  }

  /** Arc k after the inner loop of arc i, when `temp` stands in for a[i].dest. */
  ghost function ArcAfter(a: seq<InjectionArc>, i: nat, temp: int, k: nat): InjectionArc
    requires i < |a| && k < |a|
  {
    if k < i then a[k]
    else if k == i then a[i].(close := a[i].close && !RelievedBefore(a, i, |a|))
    else if Redirected(a, i, k) then a[k].(source := temp, close := false)
    else
      a[k].(close := a[k].close
                     || (&& a[i].close && !RelievedBefore(a, i, k)
                         && a[k].source == a[i].source && a[k].dest != a[i].source))
  }

  ghost function AfterTurn(a: seq<InjectionArc>, i: nat, temp: int): seq<InjectionArc>
    requires i < |a|
  {
    seq(|a|, k requires 0 <= k < |a| => ArcAfter(a, i, temp, k))
  }

  ghost predicate AnyRedirected(a: seq<InjectionArc>, i: nat, n: nat)
    requires i < |a| && n <= |a|
  {
    exists k | i < k < n :: Redirected(a, i, k)
  }

  /** What the inner loop of arc i does to the table: at most one duplicate, of a[i].dest. */
  ghost predicate Detoured(a: seq<InjectionArc>, i: nat, n: nat, temp: int, reserved: set<int>,
                           table: Table, table': Table, temps: seq<int>, temps': seq<int>)
    requires i < |a| && n <= |a|
  {
    if AnyRedirected(a, i, n) then
      && a[i].dest in table && temp >= 0 && temp !in table && temp !in reserved
      && table' == table[temp := table[a[i].dest]]
      && temps' == temps + [temp]
    else
      table' == table && temps' == temps
  }

  /** Move and Close at the end of the turn, for the arc `arc` as the inner loop left it. */
  ghost predicate Settled(arc: InjectionArc, table: Table, table': Table, closed: set<int>, closed': set<int>) {
    if IsIdentity(arc) then
      table' == table && closed' == closed
    else
      && arc.source in table
      && (var moved := table[arc.dest := table[arc.source]];
          if arc.close then table' == moved - {arc.source} && closed' == closed + {arc.source}
          else table' == moved && closed' == closed)
  }

  // ---------- The invariant of the outer loop ----------

  predicate Known(table: Table, reserved: set<int>, fd: int) {
    fd in table || fd in reserved
  }

  /** One of the first i arcs has put something new into fd. */
  ghost predicate Overwritten(o: seq<InjectionArc>, i: nat, fd: int)
    requires i <= |o|
  {
    exists k | 0 <= k < i :: !IsIdentity(o[k]) && o[k].dest == fd
  }

  /** An arc p up to j asked for the close of fd, and no arc after p, up to j, overwrites fd. */
  ghost predicate AskedAt(o: seq<InjectionArc>, fd: int, p: nat, j: nat)
    requires p <= j < |o|
  {
    o[p].close && o[p].source == fd && forall k | p < k <= j :: o[k].dest != fd
  }

  ghost predicate Asked(o: seq<InjectionArc>, fd: int, j: nat)
    requires j < |o|
  {
    exists p | 0 <= p <= j :: AskedAt(o, fd, p, j)
  }

  ghost predicate SameDests(o: seq<InjectionArc>, a: seq<InjectionArc>) {
    |a| == |o| && forall k | 0 <= k < |o| :: a[k].dest == o[k].dest
  }

  /** A pending arc reads a temporary exactly when its own source has been overwritten; only then it drops its close. */
  ghost predicate Sources(o: seq<InjectionArc>, i: nat, a: seq<InjectionArc>, temps: seq<int>)
    requires i <= |a| == |o|
  {
    forall j | i <= j < |o| :: SourceOk(o, i, a[j], temps, j)
  }

  ghost predicate SourceOk(o: seq<InjectionArc>, i: nat, arc: InjectionArc, temps: seq<int>, j: nat)
    requires i <= j < |o|
  {
    if Overwritten(o, i, o[j].source) then arc.source in temps && !arc.close
    else arc.source == o[j].source && (o[j].close ==> arc.close) && (arc.close ==> arc.source !in temps)
  }

  /** A pending arc asks for a close only if some original arc did. */
  ghost predicate Requests(o: seq<InjectionArc>, i: nat, a: seq<InjectionArc>)
    requires i <= |a| == |o|
  {
    forall j | i <= j < |o| && a[j].close :: Asked(o, a[j].source, j)
  }

  ghost predicate StillAsked(a: seq<InjectionArc>, i: nat, fd: int) {
    exists j | i <= j < |a| :: a[j].close && a[j].source == fd
  }

  ghost predicate DestsBefore(o: seq<InjectionArc>, i: nat, fd: int) {
    forall k | 0 <= k < |o| && o[k].dest == fd :: k < i
  }

  /** Only what is due is closed, never while an arc still reads it; what is due is closed or still asked for. */
  ghost predicate ClosedSoFar(o: seq<InjectionArc>, i: nat, a: seq<InjectionArc>, temps: seq<int>, closed: set<int>) {
    && (forall fd | fd in closed :: IsDue(o, fd))
    && (forall j | i <= j < |a| :: a[j].source in closed ==> a[j].source in temps)
    && (forall fd | IsDue(o, fd) && DestsBefore(o, i, fd) :: fd in closed || StillAsked(a, i, fd))
  }

  ghost predicate IsDoneDest(o: seq<InjectionArc>, i: nat, fd: int)
    requires i <= |o|
  {
    exists k | 0 <= k < i :: o[k].dest == fd
  }

  ghost predicate TableSoFar(o: seq<InjectionArc>, i: nat, a: seq<InjectionArc>, before: Table, table: Table,
                             temps: seq<int>, closed: set<int>, reserved: set<int>)
    requires i <= |a| == |o|
  {
    && (forall j | i <= j < |o| ::
          && Lookup(table, a[j].source) == Lookup(before, o[j].source)
          && Known(table, reserved, a[j].source))
    && (forall k | 0 <= k < i && o[k].dest !in closed ::
          && Lookup(table, o[k].dest) == Lookup(before, o[k].source)
          && Known(table, reserved, o[k].dest))
    && (forall t | t in temps :: t in table && t !in reserved && (t !in before || t in closed))
    && (forall fd | fd in closed && fd !in temps :: fd !in table)
    && (forall fd {:trigger Lookup(table, fd)} | fd !in closed && fd !in temps && !IsDoneDest(o, i, fd) ::
          Lookup(table, fd) == Lookup(before, fd))
  }

  /** No temporary is a dest, except perhaps one that the shuffle has already closed. */
  ghost predicate AvoidsDests(o: seq<InjectionArc>, temps: seq<int>) {
    forall t | t in temps && IsDest(o, t) :: IsDue(o, t)
  }

  /** There is a temporary for each detour among the first i arcs, as far as the shuffle remembers them. */
  ghost predicate Counted(o: seq<InjectionArc>, i: nat, temps: seq<int>)
    requires i <= |o|
  {
    if |temps| <= MAX_EXTRA_FDS then |temps| == Detours(o, i) else Detours(o, i) > MAX_EXTRA_FDS
  }

  /** Without risk, no temporary that the shuffle remembers is a dest. */
  ghost predicate Tidy(o: seq<InjectionArc>, i: nat, before: Table, reserved: set<int>, temps: seq<int>)
    requires i <= |o|
  {
    NoRisk(o, before, reserved) ==> AvoidsDests(o, Recorded(temps)) && Counted(o, i, temps)
  }

  ghost predicate Distinct(s: seq<int>) {
    forall i, j | 0 <= i < j < |s| :: s[i] != s[j]
  }

  ghost predicate Inv(o: seq<InjectionArc>, i: nat, a: seq<InjectionArc>, before: Table, table: Table,
                      temps: seq<int>, closed: set<int>, reserved: set<int>)
  {
    && i <= |o| && SameDests(o, a) && Sources(o, i, a, temps) && Requests(o, i, a)
    && ClosedSoFar(o, i, a, temps, closed)
    && TableSoFar(o, i, a, before, table, temps, closed, reserved)
    && Distinct(temps)
    && (AvoidsDests(o, temps) ==> |temps| == Detours(o, i))
    && Tidy(o, i, before, reserved, temps)
  }

  lemma InvInit(o: seq<InjectionArc>, before: Table, reserved: set<int>)
    requires forall k | 0 <= k < |o| :: Known(before, reserved, o[k].source)
    ensures Inv(o, 0, o, before, before, [], {}, reserved)
  {
    forall j | 0 <= j < |o| && o[j].close
      ensures Asked(o, o[j].source, j)
    {
      assert AskedAt(o, o[j].source, j, j);
    }
    forall fd | IsDue(o, fd) && DestsBefore(o, 0, fd)
      ensures StillAsked(o, 0, fd)
    {
      assert !IsDest(o, fd);
    }
  }

  /** The temporary of this turn, if there is one, is no temporary so far and no pending source. */
  ghost predicate TempTaken(a: seq<InjectionArc>, i: nat, temp: int, temps: seq<int>, temps': seq<int>)
    requires i < |a|
  {
    if AnyRedirected(a, i, |a|) then
      && temps' == temps + [temp] && temp !in temps
      && (forall j | i <= j < |a| :: a[j].source != temp)
    else
      temps' == temps
  }

  lemma TurnKeepsSource(o: seq<InjectionArc>, i: nat, a: seq<InjectionArc>, temps: seq<int>,
                        temp: int, temps': seq<int>, j: nat)
    requires Injective(o) && i < j < |o|
    requires SameDests(o, a) && Sources(o, i, a, temps) && TempTaken(a, i, temp, temps, temps')
    ensures SourceOk(o, i + 1, ArcAfter(a, i, temp, j), temps', j)
  {
    assert SourceOk(o, i, a[i], temps, i) && SourceOk(o, i, a[j], temps, j);
    assert Redirected(a, i, j) ==> AnyRedirected(a, i, |a|);
    assert Overwritten(o, i + 1, o[j].source)
      <==> Overwritten(o, i, o[j].source) || (!IsIdentity(o[i]) && o[i].dest == o[j].source);
    if !IsIdentity(o[i]) && IsIdentity(a[i]) {
      assert a[i].source in temps;
    }
    if IsIdentity(o[i]) {
      assert !Overwritten(o, i, o[i].dest);
    }
  }

  lemma TurnKeepsRequest(o: seq<InjectionArc>, i: nat, a: seq<InjectionArc>, temp: int, j: nat)
    requires i < j < |o| && SameDests(o, a) && Requests(o, i, a)
    requires ArcAfter(a, i, temp, j).close
    ensures Asked(o, ArcAfter(a, i, temp, j).source, j)
  {
    var fd := a[j].source;
    if !a[j].close {
      assert Asked(o, fd, i);
      var p :| 0 <= p <= i && AskedAt(o, fd, p, i);
      forall k | p < k <= j
        ensures o[k].dest != fd
      {
        if i < k < j {
          assert !Relieves(a, i, k);
        }
      }
      assert AskedAt(o, fd, p, j);
    }
  }

  lemma TurnKeepsArcs(o: seq<InjectionArc>, i: nat, a: seq<InjectionArc>, temps: seq<int>,
                      temp: int, temps': seq<int>)
    requires Injective(o) && i < |o|
    requires SameDests(o, a) && Sources(o, i, a, temps) && Requests(o, i, a)
    requires TempTaken(a, i, temp, temps, temps')
    ensures var b := AfterTurn(a, i, temp);
            SameDests(o, b) && Sources(o, i + 1, b, temps') && Requests(o, i + 1, b)
  {
    var b := AfterTurn(a, i, temp);
    forall j | i < j < |o|
      ensures SourceOk(o, i + 1, b[j], temps', j)
      ensures b[j].close ==> Asked(o, b[j].source, j)
    {
      TurnKeepsSource(o, i, a, temps, temp, temps', j);
      if ArcAfter(a, i, temp, j).close {
        TurnKeepsRequest(o, i, a, temp, j);
      }
    }
  }

  // When the turn closes its source, that source was due.
  lemma ClosesOnlyWhatIsDue(o: seq<InjectionArc>, i: nat, a: seq<InjectionArc>, temps: seq<int>)
    requires Injective(o) && i < |o|
    requires SameDests(o, a) && Sources(o, i, a, temps) && Requests(o, i, a)
    requires !IsIdentity(a[i]) && a[i].close && !RelievedBefore(a, i, |a|)
    ensures IsDue(o, a[i].source)
  {
    var fd := a[i].source;
    assert SourceOk(o, i, a[i], temps, i);
    assert Asked(o, fd, i);
    var p :| 0 <= p <= i && AskedAt(o, fd, p, i);
    if k :| 0 <= k < |o| && o[k].dest == fd {
      assert i < k ==> Relieves(a, i, k);
      assert IsIdentity(o[k]) && k <= p;
      assert o[i].source == fd && (o[k].close || o[p].close);
    }
  }

  // If arc i itself still carried the request to close fd, a later arc takes it over or fd is closed now.
  lemma HandsOverRequest(a: seq<InjectionArc>, i: nat, temp: int, fd: int)
    requires i < |a| && a[i].close && a[i].source == fd
    requires forall k | i < k < |a| :: a[k].dest != fd
    ensures StillAsked(AfterTurn(a, i, temp), i + 1, fd) || !RelievedBefore(a, i, |a|)
  {
    if RelievedBefore(a, i, |a|) {
      var k := FirstRelief(a, i, i + 1);
      var b := AfterTurn(a, i, temp);
      assert b[k] == ArcAfter(a, i, temp, k);
      assert b[k].close && b[k].source == fd;
    }
  }

  lemma FirstRelief(a: seq<InjectionArc>, i: nat, from: nat) returns (k: nat)
    requires i < from <= |a| && RelievedBefore(a, i, |a|) && !RelievedBefore(a, i, from)
    ensures i < k < |a| && Relieves(a, i, k) && !RelievedBefore(a, i, k)
    decreases |a| - from
  {
    if Relieves(a, i, from) {
      k := from;
    } else {
      k := FirstRelief(a, i, from + 1);
    }
  }

  ghost predicate ClosesSource(a: seq<InjectionArc>, i: nat)
    requires i < |a|
  {
    !IsIdentity(a[i]) && a[i].close && !RelievedBefore(a, i, |a|)
  }

  // A request that a later pending arc carries survives the turn.
  lemma LaterRequestSurvives(o: seq<InjectionArc>, i: nat, a: seq<InjectionArc>, temp: int, j: nat)
    requires i < j < |o| && SameDests(o, a) && a[j].close
    requires o[i].dest == a[j].source ==> IsIdentity(a[i])
    ensures StillAsked(AfterTurn(a, i, temp), i + 1, a[j].source)
  {
    var b := AfterTurn(a, i, temp);
    assert b[j].close && b[j].source == a[j].source;
  }

  lemma TurnKeepsDue(o: seq<InjectionArc>, i: nat, a: seq<InjectionArc>, temps: seq<int>, temp: int,
                     closed: set<int>, fd: int)
    requires Injective(o) && i < |o|
    requires SameDests(o, a) && Sources(o, i, a, temps)
    requires ClosedSoFar(o, i, a, temps, closed)
    requires IsDue(o, fd) && DestsBefore(o, i + 1, fd)
    ensures fd in closed || StillAsked(AfterTurn(a, i, temp), i + 1, fd) || (ClosesSource(a, i) && fd == a[i].source)
  {
    if o[i].dest == fd {
      // The turn of the identity arc itself.
      var k, q :| 0 <= k < q < |o| && o[k].source == fd && o[k].dest == fd && o[q].source == fd && (o[k].close || o[q].close);
      assert k == i;
      assert SourceOk(o, i, a[i], temps, i) && SourceOk(o, i, a[q], temps, q);
      assert !Overwritten(o, i, fd);
      if a[i].close {
        assert Relieves(a, i, q);
        HandsOverRequest(a, i, temp, fd);
      } else {
        LaterRequestSurvives(o, i, a, temp, q);
      }
    } else {
      assert DestsBefore(o, i, fd);
      if fd !in closed {
        var j :| i <= j < |a| && a[j].close && a[j].source == fd;
        if j == i {
          HandsOverRequest(a, i, temp, fd);
        } else {
          LaterRequestSurvives(o, i, a, temp, j);
        }
      }
    }
  }

  // A due dest belongs to an identity arc, which stays one.
  lemma DueDestIsIdentity(o: seq<InjectionArc>, i: nat, a: seq<InjectionArc>, temps: seq<int>)
    requires Injective(o) && i < |o| && SameDests(o, a) && Sources(o, i, a, temps)
    requires IsDue(o, o[i].dest)
    ensures IsIdentity(a[i])
  {
    assert SourceOk(o, i, a[i], temps, i);
  }

  lemma TurnKeepsClosed(o: seq<InjectionArc>, i: nat, a: seq<InjectionArc>, temps: seq<int>, temp: int,
                        temps': seq<int>, closed: set<int>, closed': set<int>)
    requires Injective(o) && i < |o|
    requires SameDests(o, a) && Sources(o, i, a, temps) && Requests(o, i, a)
    requires ClosedSoFar(o, i, a, temps, closed) && TempTaken(a, i, temp, temps, temps')
    requires closed' == if ClosesSource(a, i) then closed + {a[i].source} else closed
    ensures ClosedSoFar(o, i + 1, AfterTurn(a, i, temp), temps', closed')
  {
    var b := AfterTurn(a, i, temp);
    if ClosesSource(a, i) {
      ClosesOnlyWhatIsDue(o, i, a, temps);
    }
    forall j | i < j < |b| && b[j].source in closed'
      ensures b[j].source in temps'
    {
      assert Redirected(a, i, j) ==> AnyRedirected(a, i, |a|);
      assert a[j].source == a[i].source ==> Relieves(a, i, j);
    }
    forall fd | IsDue(o, fd) && DestsBefore(o, i + 1, fd)
      ensures fd in closed' || StillAsked(b, i + 1, fd)
    {
      TurnKeepsDue(o, i, a, temps, temp, closed, fd);
    }
  }

  lemma TempIsNew(o: seq<InjectionArc>, i: nat, a: seq<InjectionArc>, before: Table, table: Table,
                  temps: seq<int>, closed: set<int>, reserved: set<int>, temp: int)
    requires i <= |a| == |o| && TableSoFar(o, i, a, before, table, temps, closed, reserved)
    requires temp !in table && temp !in reserved
    ensures temp !in temps && (temp in before ==> temp in closed)
    ensures forall j | i <= j < |o| :: a[j].source != temp
    ensures forall k | 0 <= k < i && o[k].dest !in closed :: o[k].dest != temp
  {
    assert Lookup(table, temp) == None;
  }

  lemma TurnTablePending(o: seq<InjectionArc>, i: nat, a: seq<InjectionArc>, before: Table, table: Table,
                         temps: seq<int>, closed: set<int>, reserved: set<int>, temp: int, j: nat,
                         table1: Table, temps1: seq<int>, table2: Table, closed2: set<int>)
    requires Injective(o) && i < j < |o| && SameDests(o, a)
    requires TableSoFar(o, i, a, before, table, temps, closed, reserved)
    requires Detoured(a, i, |a|, temp, reserved, table, table1, temps, temps1)
    requires Settled(ArcAfter(a, i, temp, i), table1, table2, closed, closed2)
    ensures var fd := ArcAfter(a, i, temp, j).source;
            Lookup(table2, fd) == Lookup(before, o[j].source) && Known(table2, reserved, fd)
  {
    assert Redirected(a, i, j) ==> AnyRedirected(a, i, |a|);
    assert a[j].source == a[i].source ==> Relieves(a, i, j);
    assert Lookup(table, a[j].source) == Lookup(before, o[j].source) && Known(table, reserved, a[j].source);
    assert Known(table, reserved, a[i].source);
  }

  lemma TurnTableDone(o: seq<InjectionArc>, i: nat, a: seq<InjectionArc>, before: Table, table: Table,
                      temps: seq<int>, closed: set<int>, reserved: set<int>, temp: int, k: nat,
                      table1: Table, temps1: seq<int>, table2: Table, closed2: set<int>)
    requires Injective(o) && k <= i < |o| && SameDests(o, a)
    requires TableSoFar(o, i, a, before, table, temps, closed, reserved)
    requires Detoured(a, i, |a|, temp, reserved, table, table1, temps, temps1)
    requires Settled(ArcAfter(a, i, temp, i), table1, table2, closed, closed2)
    requires o[k].dest !in closed2
    ensures Lookup(table2, o[k].dest) == Lookup(before, o[k].source) && Known(table2, reserved, o[k].dest)
  {
    assert Known(table, reserved, a[i].source);
    if k < i {
      assert Known(table, reserved, o[k].dest);
    }
  }

  lemma TurnTableRest(o: seq<InjectionArc>, i: nat, a: seq<InjectionArc>, before: Table, table: Table,
                      temps: seq<int>, closed: set<int>, reserved: set<int>, temp: int,
                      table1: Table, temps1: seq<int>, table2: Table, closed2: set<int>)
    requires Injective(o) && i < |o| && SameDests(o, a) && Sources(o, i, a, temps)
    requires ClosedSoFar(o, i, a, temps, closed)
    requires TableSoFar(o, i, a, before, table, temps, closed, reserved)
    requires Detoured(a, i, |a|, temp, reserved, table, table1, temps, temps1)
    requires Settled(ArcAfter(a, i, temp, i), table1, table2, closed, closed2)
    ensures forall t | t in temps1 :: t in table2 && t !in reserved && (t !in before || t in closed2)
    ensures forall fd | fd in closed2 && fd !in temps1 :: fd !in table2
    ensures forall fd {:trigger Lookup(table2, fd)} | fd !in closed2 && fd !in temps1 && !IsDoneDest(o, i + 1, fd) ::
              Lookup(table2, fd) == Lookup(before, fd)
  {
    assert SourceOk(o, i, a[i], temps, i);
    if AnyRedirected(a, i, |a|) {
      TempIsNew(o, i, a, before, table, temps, closed, reserved, temp);
    }
    if !IsIdentity(a[i]) && o[i].dest in closed {
      DueDestIsIdentity(o, i, a, temps);
    }
    forall fd | fd !in closed2 && fd !in temps1 && !IsDoneDest(o, i + 1, fd)
      ensures Lookup(table2, fd) == Lookup(before, fd)
    {
      assert !IsDoneDest(o, i, fd) && fd != o[i].dest;
      assert Lookup(table, fd) == Lookup(before, fd);
    }
  }

  // While no temporary is a dest, a turn takes one exactly when its arc needs a detour.
  lemma TakesOneIff(o: seq<InjectionArc>, i: nat, a: seq<InjectionArc>, temps: seq<int>)
    requires Injective(o) && i < |o| && SameDests(o, a) && Sources(o, i, a, temps) && AvoidsDests(o, temps)
    ensures NeedsDetour(o, i) <==> AnyRedirected(a, i, |a|)
  {
    assert SourceOk(o, i, a[i], temps, i);
    assert IsDest(o, o[i].dest);
    if o[i].dest in temps {
      DueDestIsIdentity(o, i, a, temps);
    }
    assert IsIdentity(a[i]) <==> IsIdentity(o[i]);
    forall j | i < j < |o|
      ensures a[j].source == o[i].dest <==> o[j].source == o[i].dest
    {
      assert SourceOk(o, i, a[j], temps, j);
    }
    if NeedsDetour(o, i) {
      var j :| i < j < |o| && o[j].source == o[i].dest;
      assert Redirected(a, i, j);
    }
  }

  lemma TurnKeepsDetours(o: seq<InjectionArc>, i: nat, a: seq<InjectionArc>, temps: seq<int>, temp: int, temps1: seq<int>)
    requires Injective(o) && i < |o| && SameDests(o, a) && Sources(o, i, a, temps)
    requires TempTaken(a, i, temp, temps, temps1)
    requires AvoidsDests(o, temps) ==> |temps| == Detours(o, i)
    ensures AvoidsDests(o, temps1) ==> |temps1| == Detours(o, i + 1)
  {
    if AvoidsDests(o, temps1) {
      forall t | t in temps && IsDest(o, t)
        ensures IsDue(o, t)
      {
        assert t in temps1;
      }
      TakesOneIff(o, i, a, temps);
    }
  }

  // A temporary taken where there is no risk is no dest.
  lemma SafeTemporary(o: seq<InjectionArc>, i: nat, a: seq<InjectionArc>, before: Table, table: Table,
                      temps: seq<int>, closed: set<int>, reserved: set<int>, temp: int)
    requires i < |o| && SameDests(o, a)
    requires ClosedSoFar(o, i, a, temps, closed) && TableSoFar(o, i, a, before, table, temps, closed, reserved)
    requires temp >= 0 && temp !in table && temp !in reserved && a[i].dest in table
    requires forall k | i < k < |o| :: !MayBeHandedOut(before, reserved, o[k].dest)
    ensures IsDest(o, temp) ==> IsDue(o, temp)
  {
    TempIsNew(o, i, a, before, table, temps, closed, reserved, temp);
    if k :| 0 <= k < |o| && o[k].dest == temp {
      assert k != i;
      if k > i {
        assert !MayBeHandedOut(before, reserved, o[k].dest);
      }
    }
  }

  lemma TurnKeepsTidy(o: seq<InjectionArc>, i: nat, a: seq<InjectionArc>, before: Table, table: Table,
                      temps: seq<int>, closed: set<int>, reserved: set<int>, temp: int, table1: Table, temps1: seq<int>)
    requires Injective(o) && i < |o| && SameDests(o, a) && Sources(o, i, a, temps)
    requires ClosedSoFar(o, i, a, temps, closed) && TableSoFar(o, i, a, before, table, temps, closed, reserved)
    requires Detoured(a, i, |a|, temp, reserved, table, table1, temps, temps1)
    requires Tidy(o, i, before, reserved, temps)
    ensures Tidy(o, i + 1, before, reserved, temps1)
  {
    hide NeedsDetour, AnyRedirected, TableSoFar, ClosedSoFar, Sources, IsDue, IsDest;
    if NoRisk(o, before, reserved) {
      if |temps| <= MAX_EXTRA_FDS {
        assert Recorded(temps) == temps;
        TakesOneIff(o, i, a, temps);
        if AnyRedirected(a, i, |a|) {
          if |temps| < MAX_EXTRA_FDS {
            SafeTemporary(o, i, a, before, table, temps, closed, reserved, temp);
            assert Recorded(temps1) == temps + [temp];
          } else {
            assert Recorded(temps1) == temps;
          }
        }
      } else {
        assert Recorded(temps1) == Recorded(temps);
      }
    }
  }

  lemma TurnKeepsTable(o: seq<InjectionArc>, i: nat, a: seq<InjectionArc>, before: Table, table: Table,
                       temps: seq<int>, closed: set<int>, reserved: set<int>, temp: int,
                       table1: Table, temps1: seq<int>, table2: Table, closed2: set<int>)
    requires Injective(o) && i < |o| && SameDests(o, a) && Sources(o, i, a, temps)
    requires ClosedSoFar(o, i, a, temps, closed)
    requires TableSoFar(o, i, a, before, table, temps, closed, reserved)
    requires Detoured(a, i, |a|, temp, reserved, table, table1, temps, temps1)
    requires Settled(ArcAfter(a, i, temp, i), table1, table2, closed, closed2)
    ensures TableSoFar(o, i + 1, AfterTurn(a, i, temp), before, table2, temps1, closed2, reserved)
  {
    var b := AfterTurn(a, i, temp);
    forall j | i < j < |o|
      ensures Lookup(table2, b[j].source) == Lookup(before, o[j].source) && Known(table2, reserved, b[j].source)
    {
      TurnTablePending(o, i, a, before, table, temps, closed, reserved, temp, j, table1, temps1, table2, closed2);
    }
    forall k | 0 <= k <= i && o[k].dest !in closed2
      ensures Lookup(table2, o[k].dest) == Lookup(before, o[k].source) && Known(table2, reserved, o[k].dest)
    {
      TurnTableDone(o, i, a, before, table, temps, closed, reserved, temp, k, table1, temps1, table2, closed2);
    }
    TurnTableRest(o, i, a, before, table, temps, closed, reserved, temp, table1, temps1, table2, closed2);
  }

  lemma TurnKeepsInv(o: seq<InjectionArc>, i: nat, a: seq<InjectionArc>, before: Table, table: Table,
                     temps: seq<int>, closed: set<int>, reserved: set<int>, temp: int,
                     table1: Table, temps1: seq<int>, table2: Table, closed2: set<int>)
    requires Injective(o) && i < |o|
    requires Inv(o, i, a, before, table, temps, closed, reserved)
    requires Detoured(a, i, |a|, temp, reserved, table, table1, temps, temps1)
    requires Settled(ArcAfter(a, i, temp, i), table1, table2, closed, closed2)
    ensures Inv(o, i + 1, AfterTurn(a, i, temp), before, table2, temps1, closed2, reserved)
  {
    hide Sources, Requests, ClosedSoFar, TableSoFar, AvoidsDests, Detours, Tidy, AnyRedirected, RelievedBefore;
    if AnyRedirected(a, i, |a|) {
      TempIsNew(o, i, a, before, table, temps, closed, reserved, temp);
    }
    TurnKeepsArcs(o, i, a, temps, temp, temps1);
    TurnKeepsClosed(o, i, a, temps, temp, temps1, closed, closed2);
    TurnKeepsDetours(o, i, a, temps, temp, temps1);
    TurnKeepsTidy(o, i, a, before, table, temps, closed, reserved, temp, table1, temps1);
    TurnKeepsTable(o, i, a, before, table, temps, closed, reserved, temp, table1, temps1, table2, closed2);
  }

  lemma DueIsClosed(o: seq<InjectionArc>, a: seq<InjectionArc>, temps: seq<int>, closed: set<int>)
    requires |a| == |o| && ClosedSoFar(o, |o|, a, temps, closed)
    ensures forall fd :: fd in closed <==> IsDue(o, fd)
  {
    hide IsDue;
    forall fd | IsDue(o, fd)
      ensures fd in closed
    {
      assert DestsBefore(o, |o|, fd) && !StillAsked(a, |o|, fd);
    }
  }

  lemma TableGivesShuffled(o: seq<InjectionArc>, a: seq<InjectionArc>, before: Table, table: Table,
                           temps: seq<int>, closed: set<int>, reserved: set<int>, after: Table)
    requires |a| == |o| && TableSoFar(o, |o|, a, before, table, temps, closed, reserved)
    requires forall fd :: fd in closed <==> IsDue(o, fd)
    requires forall fd :: Lookup(after, fd) == if fd in Recorded(temps) then None else Lookup(table, fd)
    ensures Shuffled(o, before, after, temps)
    ensures forall t | t in temps :: t !in reserved && (t !in before || IsDue(o, t))
  {
    hide IsDue, Recorded, Leaked;
    RecordedOrLeaked(temps);
    forall k | 0 <= k < |o|
      ensures var d := o[k].dest;
          if d in Recorded(temps) then d !in after
          else if IsDue(o, d) then d in Leaked(temps) || d !in after
          else Lookup(after, d) == Lookup(before, o[k].source)
    {
      assert Lookup(after, o[k].dest) == if o[k].dest in Recorded(temps) then None else Lookup(table, o[k].dest);
    }
    forall fd | !IsDest(o, fd)
      ensures if fd in Recorded(temps) then fd !in after
          else if fd in Leaked(temps) then fd in after
          else if IsDue(o, fd) then fd !in after
          else Lookup(after, fd) == Lookup(before, fd)
    {
      assert Lookup(after, fd) == if fd in Recorded(temps) then None else Lookup(table, fd);
      assert !IsDoneDest(o, |o|, fd);
    }
  }

  lemma RecordedOrLeaked(temps: seq<int>)
    ensures forall t :: t in temps <==> t in Recorded(temps) || t in Leaked(temps)
  {
    assert temps == Recorded(temps) + Leaked(temps);
  }

  // After the last turn, and with the recorded temporaries closed, the table is as promised.
  lemma InvGivesShuffled(o: seq<InjectionArc>, a: seq<InjectionArc>, before: Table, table: Table,
                         temps: seq<int>, closed: set<int>, reserved: set<int>, after: Table)
    requires Inv(o, |o|, a, before, table, temps, closed, reserved)
    requires forall fd :: Lookup(after, fd) == if fd in Recorded(temps) then None else Lookup(table, fd)
    ensures ShuffleResult(o, before, after, temps, reserved, true)
  {
    hide TableSoFar, ClosedSoFar, Sources, Requests, Tidy, AvoidsDests, Detours, Recorded, Leaked, IsDue, Distinct;
    DueIsClosed(o, a, temps, closed);
    TableGivesShuffled(o, a, before, table, temps, closed, reserved, after);
    RecordedOrLeaked(temps);
  }

  /** What a run of the shuffle promises, whether it succeeds or gives up. */
  ghost predicate ShuffleResult(o: seq<InjectionArc>, before: Table, after: Table, temps: seq<int>,
                                reserved: set<int>, ok: bool)
  {
    && Distinct(temps)
    && (forall t | t in temps :: t !in reserved && (t !in before || IsDue(o, t)))
    && (ok ==> Shuffled(o, before, after, temps))
    && (ok && AvoidsDests(o, temps) ==> |temps| == Detours(o, |o|))
    && (ok ==> Tidy(o, |o|, before, reserved, temps))
    && (forall fd | !IsDest(o, fd) && !IsDue(o, fd) && fd !in temps :: Lookup(after, fd) == Lookup(before, fd))
  }

  lemma GivingUp(o: seq<InjectionArc>, i: nat, a: seq<InjectionArc>, before: Table, table: Table,
                 temps: seq<int>, closed: set<int>, reserved: set<int>, temp: int, n: nat, table1: Table, temps1: seq<int>)
    requires i < |o| && n <= |o|
    requires Inv(o, i, a, before, table, temps, closed, reserved)
    requires Detoured(a, i, n, temp, reserved, table, table1, temps, temps1)
    ensures ShuffleResult(o, before, table1, temps1, reserved, false)
  {
    if AnyRedirected(a, i, n) {
      TempIsNew(o, i, a, before, table, temps, closed, reserved, temp);
    }
    forall fd | !IsDest(o, fd) && !IsDue(o, fd) && fd !in temps1
      ensures Lookup(table1, fd) == Lookup(before, fd)
    {
      assert !IsDoneDest(o, i, fd);
      assert Lookup(table, fd) == Lookup(before, fd);
    }
  }

  lemma NoArcYet(a: seq<InjectionArc>, i: nat)
    requires i < |a|
    ensures !AnyRedirected(a, i, i + 1) && !RelievedBefore(a, i, i + 1)
  {
  }

  lemma OneArcFurther(a: seq<InjectionArc>, i: nat, j: nat)
    requires i < j < |a|
    ensures AnyRedirected(a, i, j + 1) <==> AnyRedirected(a, i, j) || Redirected(a, i, j)
    ensures RelievedBefore(a, i, j + 1) <==> RelievedBefore(a, i, j) || Relieves(a, i, j)
    ensures forall k | i < k < j && Redirected(a, i, k) :: AnyRedirected(a, i, j)
  {
    assert Redirected(a, i, j) ==> AnyRedirected(a, i, j + 1);
    assert Relieves(a, i, j) ==> RelievedBefore(a, i, j + 1);
  }

  /** Notes a temporary for the final loop, or drops it when the buffer is full. */
  method Remember(extraFds: array<int>, nextExtraFd: nat, fd: int) returns (next: nat)
    requires nextExtraFd <= extraFds.Length == MAX_EXTRA_FDS
    modifies extraFds
    ensures next == Min(nextExtraFd + 1, MAX_EXTRA_FDS)
    ensures forall k | 0 <= k < nextExtraFd :: extraFds[k] == old(extraFds[k])
    ensures nextExtraFd < next ==> extraFds[nextExtraFd] == fd
  {
    next := nextExtraFd;
    if next < MAX_EXTRA_FDS {
      extraFds[next] := fd;
      next := next + 1;
    }
  }

  /**
   The inner loop of the shuffle, for arc i: later arcs that read m[i].dest are
   redirected to a duplicate of it, and the close of m[i].source is dropped or
   handed on. `temp` is -1 when no duplicate was needed.
   */
  method RedirectLaterArcs(m: array<InjectionArc>, i: nat, delegate: InjectionDelegate,
                           extraFds: array<int>, nextExtraFd: nat)
    returns (ok: bool, temp: int, next: nat, ghost seen: nat)
    requires i < m.Length && extraFds.Length == MAX_EXTRA_FDS
    requires Known(delegate.table, delegate.reserved, m[i].source)
    requires nextExtraFd <= MAX_EXTRA_FDS
    modifies m, delegate, extraFds
    ensures old(delegate.handedOut) <= delegate.handedOut
    ensures ok ==> m[..] == AfterTurn(old(m[..]), i, temp)
    ensures delegate.reliable && (forall k | i <= k < m.Length :: old(m[k].source) in old(delegate.table)) ==> ok
    ensures var got := delegate.handedOut[|old(delegate.handedOut)|..];
            && seen <= m.Length && (ok ==> seen == m.Length)
            && Detoured(old(m[..]), i, seen, temp, delegate.reserved, old(delegate.table), delegate.table, [], got)
            && next == Min(nextExtraFd + |got|, MAX_EXTRA_FDS)
            && (forall k | 0 <= k < nextExtraFd :: extraFds[k] == old(extraFds[k]))
            && (forall k | nextExtraFd <= k < next :: extraFds[k] == got[k - nextExtraFd])
  {
    hide AnyRedirected, RelievedBefore;
    ghost var a, table, h := m[..], delegate.table, delegate.handedOut;
    NoArcYet(a, i);
    ghost var got: seq<int> := [];
    var isIdentity := m[i].source == m[i].dest;
    temp, next := -1, nextExtraFd;
    var j := i + 1;
    while j < m.Length
      invariant i < j <= m.Length == |a|
      invariant delegate.handedOut == h + got
      invariant next == Min(nextExtraFd + |got|, MAX_EXTRA_FDS)
      invariant forall k | 0 <= k < nextExtraFd :: extraFds[k] == old(extraFds[k])
      invariant forall k | nextExtraFd <= k < next :: extraFds[k] == got[k - nextExtraFd]
      invariant temp == -1 <==> !AnyRedirected(a, i, j)
      invariant Detoured(a, i, j, temp, delegate.reserved, table, delegate.table, [], got)
      invariant m[i] == a[i].(close := a[i].close && !RelievedBefore(a, i, j))
      invariant forall k | 0 <= k < j && k != i :: m[k] == ArcAfter(a, i, temp, k)
      invariant forall k | j <= k < m.Length :: m[k] == a[k]
    {
      OneArcFurther(a, i, j);
      if !isIdentity && m[i].dest == m[j].source {
        if temp == -1 {
          ok, temp := delegate.Duplicate(m[i].dest);
          if !ok {
            seen := j;
            return;
          }
          got := [temp];
          next := Remember(extraFds, next, temp);
        }
        m[j] := m[j].(source := temp, close := false);
      }
      if m[i].close && m[i].source == m[j].dest {
        m[i] := m[i].(close := false);
      }
      if m[i].close && m[i].source == m[j].source {
        m[i] := m[i].(close := false);
        m[j] := m[j].(close := true);
      }
      j := j + 1;
    }
    ok, seen := true, j;
  }

  /** One turn of the outer loop, with the table between its inner loop and its move. */
  ghost predicate Turn(a: seq<InjectionArc>, i: nat, temp: int, reserved: set<int>, table: Table, table1: Table,
                       table2: Table, got: seq<int>, close: bool)
    requires i < |a|
  {
    && Detoured(a, i, |a|, temp, reserved, table, table1, [], got)
    && close == ClosesSource(a, i)
    && (if IsIdentity(a[i]) then table2 == table1
        else
          && a[i].source in table1
          && (var moved := table1[a[i].dest := table1[a[i].source]];
              table2 == if close then moved - {a[i].source} else moved))
  }

  lemma SourceIsKnown(o: seq<InjectionArc>, i: nat, a: seq<InjectionArc>, before: Table, table: Table,
                      temps: seq<int>, closed: set<int>, reserved: set<int>)
    requires i < |o| && Inv(o, i, a, before, table, temps, closed, reserved)
    ensures |a| == |o| && Known(table, reserved, a[i].source)
    ensures (forall k | 0 <= k < |o| :: o[k].source in before) ==> forall j | i <= j < |a| :: a[j].source in table
  {
    forall j | i <= j < |a| && o[j].source in before
      ensures a[j].source in table
    {
      assert Lookup(table, a[j].source) == Lookup(before, o[j].source);
    }
  }

  /** The body of the outer loop, for arc i. */
  method PerformArc(m: array<InjectionArc>, i: nat, delegate: InjectionDelegate,
                    extraFds: array<int>, nextExtraFd: nat)
    returns (ok: bool, next: nat, ghost temp: int, ghost table1: Table, ghost closes: bool, ghost seen: nat)
    requires i < m.Length && extraFds.Length == MAX_EXTRA_FDS
    requires Known(delegate.table, delegate.reserved, m[i].source)
    requires nextExtraFd <= MAX_EXTRA_FDS
    modifies m, delegate, extraFds
    ensures old(delegate.handedOut) <= delegate.handedOut
    ensures ok ==> m[..] == AfterTurn(old(m[..]), i, temp)
    ensures delegate.reliable && (forall k | i <= k < m.Length :: old(m[k].source) in old(delegate.table)) ==> ok
    ensures var got := delegate.handedOut[|old(delegate.handedOut)|..];
            && (!ok ==> seen <= m.Length)
            && (!ok ==>
                  Detoured(old(m[..]), i, seen, temp, delegate.reserved, old(delegate.table), delegate.table, [], got))
            && (ok ==> Turn(old(m[..]), i, temp, delegate.reserved, old(delegate.table), table1, delegate.table, got, closes))
            && next == Min(nextExtraFd + |got|, MAX_EXTRA_FDS)
            && (forall k | 0 <= k < nextExtraFd :: extraFds[k] == old(extraFds[k]))
            && (forall k | nextExtraFd <= k < next :: extraFds[k] == got[k - nextExtraFd])
  {
    ghost var a := m[..];
    var isIdentity := m[i].source == m[i].dest;
    var tempFd;
    ok, tempFd, next, seen := RedirectLaterArcs(m, i, delegate, extraFds, nextExtraFd);
    temp, table1, closes := tempFd, delegate.table, false;
    if !ok {
      return;
    }
    assert m[i] == ArcAfter(a, i, temp, i);
    if !isIdentity {
      ok := delegate.Move(m[i].source, m[i].dest);
      if !ok {
        return;
      }
    }
    if !isIdentity && m[i].close {
      delegate.Close(m[i].source);
      closes := true;
    }
  }

  lemma TurnGivesInv(o: seq<InjectionArc>, i: nat, a: seq<InjectionArc>, before: Table, table: Table,
                     temps: seq<int>, closed: set<int>, reserved: set<int>, temp: int,
                     table1: Table, got: seq<int>, table2: Table, closes: bool)
    requires Injective(o) && i < |o| == |a|
    requires Inv(o, i, a, before, table, temps, closed, reserved)
    requires Turn(a, i, temp, reserved, table, table1, table2, got, closes)
    ensures Inv(o, i + 1, AfterTurn(a, i, temp), before, table2, temps + got,
                if closes then closed + {a[i].source} else closed, reserved)
  {
    assert Settled(ArcAfter(a, i, temp, i), table1, table2, closed, if closes then closed + {a[i].source} else closed);
    TurnKeepsInv(o, i, a, before, table, temps, closed, reserved, temp, table1, temps + got, table2,
                 if closes then closed + {a[i].source} else closed);
  }

  // ---------- A run, given what Duplicate answers ----------

  /** The shuffle between two turns: its arcs, the table, the temporaries, and what it has closed. */
  datatype Progress = Progress(arcs: seq<InjectionArc>, table: Table, temps: seq<int>, closed: set<int>)

  /** The table once arc i has its temporary, if it asks for one. */
  ghost function WithTemporary(p: Progress, i: nat, temp: int): Table
    requires i < |p.arcs|
  {
    if AnyRedirected(p.arcs, i, |p.arcs|) && p.arcs[i].dest in p.table then p.table[temp := p.table[p.arcs[i].dest]]
    else p.table
  }

  /** One turn of the outer loop, when Duplicate answers with `temp` if it is asked. */
  ghost function AfterArc(p: Progress, i: nat, temp: int): (p': Progress)
    requires i < |p.arcs|
    ensures |p'.arcs| == |p.arcs|
  {
    var a, table1 := p.arcs, WithTemporary(p, i, temp);
    var moved := if IsIdentity(a[i]) || a[i].source !in table1 then table1 else table1[a[i].dest := table1[a[i].source]];
    Progress(AfterTurn(a, i, temp),
             if ClosesSource(a, i) then moved - {a[i].source} else moved,
             if AnyRedirected(a, i, |a|) then p.temps + [temp] else p.temps,
             if ClosesSource(a, i) then p.closed + {a[i].source} else p.closed)
  }

  /** The calls of turn i can succeed, and Duplicate can answer with `temp` if it is asked. */
  ghost predicate CanBeNext(p: Progress, i: nat, temp: int, reserved: set<int>)
    requires i < |p.arcs|
  {
    && (!IsIdentity(p.arcs[i]) ==> p.arcs[i].source in p.table)
    && (AnyRedirected(p.arcs, i, |p.arcs|) ==>
          p.arcs[i].dest in p.table && MayBeHandedOut(p.table, reserved, temp))
  }

  /** The shuffle after |answers| turns. */
  ghost function Performed(o: seq<InjectionArc>, before: Table, answers: seq<int>): (p: Progress)
    requires |answers| <= |o|
    ensures |p.arcs| == |o|
  {
    if answers == [] then Progress(o, before, [], {})
    else
      var n := |answers| - 1;
      AfterArc(Performed(o, before, answers[..n]), n, answers[n])
  }

  ghost predicate IsPossible(o: seq<InjectionArc>, before: Table, reserved: set<int>, answers: seq<int>)
    requires |answers| <= |o|
  {
    answers == []
    || (var n := |answers| - 1;
        && IsPossible(o, before, reserved, answers[..n])
        && CanBeNext(Performed(o, before, answers[..n]), n, answers[n], reserved))
  }

  /** A successful run: what Duplicate answered at each turn, the table it leaves, and the temporaries. */
  ghost predicate IsRun(o: seq<InjectionArc>, before: Table, reserved: set<int>, answers: seq<int>,
                        after: Table, temps: seq<int>)
  {
    && |answers| == |o| && IsPossible(o, before, reserved, answers)
    && (var p := Performed(o, before, answers);
        temps == p.temps && forall fd :: Lookup(after, fd) == if fd in Recorded(temps) then None else Lookup(p.table, fd))
  }

  lemma OneMoreAnswer(o: seq<InjectionArc>, before: Table, reserved: set<int>, answers: seq<int>, temp: int)
    requires |answers| < |o| && IsPossible(o, before, reserved, answers)
    requires CanBeNext(Performed(o, before, answers), |answers|, temp, reserved)
    ensures IsPossible(o, before, reserved, answers + [temp])
    ensures Performed(o, before, answers + [temp]) == AfterArc(Performed(o, before, answers), |answers|, temp)
  {
    hide CanBeNext, AfterArc;
    assert (answers + [temp])[..|answers|] == answers;
  }

  // The turns of the loop are those of a run.
  lemma TurnIsAfterArc(p: Progress, i: nat, temp: int, reserved: set<int>, table1: Table, table2: Table,
                       got: seq<int>, closes: bool)
    requires i < |p.arcs| && Known(p.table, reserved, p.arcs[i].source)
    requires Turn(p.arcs, i, temp, reserved, p.table, table1, table2, got, closes)
    ensures CanBeNext(p, i, temp, reserved)
    ensures AfterArc(p, i, temp) == Progress(AfterTurn(p.arcs, i, temp), table2, p.temps + got,
                                             if closes then p.closed + {p.arcs[i].source} else p.closed)
  {
    hide AnyRedirected, RelievedBefore, AfterTurn;
  }

  lemma AfterArcIsTurn(p: Progress, i: nat, temp: int, reserved: set<int>)
    requires i < |p.arcs| && CanBeNext(p, i, temp, reserved)
    ensures Turn(p.arcs, i, temp, reserved, p.table, WithTemporary(p, i, temp), AfterArc(p, i, temp).table,
                 if AnyRedirected(p.arcs, i, |p.arcs|) then [temp] else [], ClosesSource(p.arcs, i))
  {
    hide AnyRedirected, RelievedBefore, AfterTurn;
  }

  /** The invariant, of a run in progress. */
  ghost predicate InvOf(o: seq<InjectionArc>, i: nat, before: Table, reserved: set<int>, p: Progress) {
    Inv(o, i, p.arcs, before, p.table, p.temps, p.closed, reserved)
  }

  // Whatever Duplicate answers, the invariant holds between turns.
  lemma {:induction false} PossibleKeepsInv(o: seq<InjectionArc>, before: Table, reserved: set<int>, answers: seq<int>)
    requires Injective(o) && forall k | 0 <= k < |o| :: Known(before, reserved, o[k].source)
    requires |answers| <= |o| && IsPossible(o, before, reserved, answers)
    ensures InvOf(o, |answers|, before, reserved, Performed(o, before, answers))
  {
    hide Inv, AfterArc, CanBeNext, AnyRedirected, ClosesSource;
    if answers == [] {
      InvInit(o, before, reserved);
    } else {
      var n := |answers| - 1;
      PossibleKeepsInv(o, before, reserved, answers[..n]);
      AfterArcKeepsInv(o, n, before, reserved, Performed(o, before, answers[..n]), answers[n]);
    }
  }

  lemma AfterArcKeepsInv(o: seq<InjectionArc>, i: nat, before: Table, reserved: set<int>, p: Progress, temp: int)
    requires Injective(o) && i < |o| == |p.arcs| && InvOf(o, i, before, reserved, p) && CanBeNext(p, i, temp, reserved)
    ensures InvOf(o, i + 1, before, reserved, AfterArc(p, i, temp))
  {
    hide Inv, AnyRedirected, ClosesSource, Turn, WithTemporary, CanBeNext, AfterTurn;
    var got := if AnyRedirected(p.arcs, i, |p.arcs|) then [temp] else [];
    AfterArcIsTurn(p, i, temp, reserved);
    TurnGivesInv(o, i, p.arcs, before, p.table, p.temps, p.closed, reserved, temp, WithTemporary(p, i, temp), got,
                 AfterArc(p, i, temp).table, ClosesSource(p.arcs, i));
    assert AfterArc(p, i, temp).temps == p.temps + got;
  }

  lemma RunGivesResult(o: seq<InjectionArc>, before: Table, reserved: set<int>, answers: seq<int>,
                       after: Table, temps: seq<int>)
    requires Injective(o) && forall k | 0 <= k < |o| :: Known(before, reserved, o[k].source)
    requires IsRun(o, before, reserved, answers, after, temps)
    ensures ShuffleResult(o, before, after, temps, reserved, true)
  {
    hide Inv, ShuffleResult, Performed, IsPossible;
    var p := Performed(o, before, answers);
    PossibleKeepsInv(o, before, reserved, answers);
    InvGivesShuffled(o, p.arcs, before, p.table, temps, p.closed, reserved, after);
  }

  /** The final loop of the shuffle. */
  method CloseTemporaries(extraFds: array<int>, nextExtraFd: nat, delegate: InjectionDelegate)
    requires nextExtraFd <= extraFds.Length
    modifies delegate`table
    ensures forall fd :: Lookup(delegate.table, fd) == if fd in extraFds[..nextExtraFd] then None else Lookup(old(delegate.table), fd)
  {
    var n := 0;
    while n < nextExtraFd
      invariant 0 <= n <= nextExtraFd
      invariant forall fd :: Lookup(delegate.table, fd) == if fd in extraFds[..n] then None else Lookup(old(delegate.table), fd)
    {
      delegate.Close(extraFds[n]);
      assert extraFds[..n + 1] == extraFds[..n] + [extraFds[n]];
      n := n + 1;
    }
  }

  /**
   PerformInjectiveMultimapDestructive. The map's dests are distinct, as the
   code checks in debug builds; every source is open, or is an element the
   delegate knows of and never hands out.
   */
  method PerformInjectiveMultimapDestructive(m: array<InjectionArc>, delegate: InjectionDelegate) returns (ok: bool)
    requires Injective(m[..])
    requires forall k | 0 <= k < m.Length :: Known(delegate.table, delegate.reserved, m[k].source)
    modifies m, delegate
    ensures old(delegate.handedOut) <= delegate.handedOut
    ensures var temps := delegate.handedOut[|old(delegate.handedOut)|..];
            && ShuffleResult(old(m[..]), old(delegate.table), delegate.table, temps, delegate.reserved, ok)
            && (ok ==> exists answers ::
                  IsRun(old(m[..]), old(delegate.table), delegate.reserved, answers, delegate.table, temps))
    ensures delegate.reliable && (forall k | 0 <= k < m.Length :: old(m[k].source) in old(delegate.table)) ==> ok
  {
    hide Inv, ShuffleResult, IsPossible, Performed, AfterTurn, Turn, CanBeNext, AfterArc;
    ghost var o, before, h := m[..], delegate.table, delegate.handedOut;
    var extraFds := new int[MAX_EXTRA_FDS];
    var nextExtraFd := 0;
    ghost var answers: seq<int>, p := [], Progress(o, before, [], {});
    NoAnswerYet(o, before, delegate.reserved);

    var i := 0;
    while i < m.Length
      invariant 0 <= i <= m.Length && m[..] == p.arcs && delegate.table == p.table
      invariant delegate.handedOut == h + p.temps
      invariant nextExtraFd == Min(|p.temps|, MAX_EXTRA_FDS) && forall k | 0 <= k < nextExtraFd :: extraFds[k] == p.temps[k]
      invariant |answers| == i && IsPossible(o, before, delegate.reserved, answers) && p == Performed(o, before, answers)
    {
      PossibleKeepsInv(o, before, delegate.reserved, answers);
      SourceIsKnown(o, i, p.arcs, before, p.table, p.temps, p.closed, delegate.reserved);
      ghost var temp, table1, closes, seen;
      ok, nextExtraFd, temp, table1, closes, seen := PerformArc(m, i, delegate, extraFds, nextExtraFd);
      ghost var got := delegate.handedOut[|h + p.temps|..];
      if !ok {
        GivingUp(o, i, p.arcs, before, p.table, p.temps, p.closed, delegate.reserved, temp, seen, delegate.table, p.temps + got);
        assert delegate.handedOut[|h|..] == p.temps + got;
        return;
      }
      TurnIsAfterArc(p, i, temp, delegate.reserved, table1, delegate.table, got, closes);
      OneMoreAnswer(o, before, delegate.reserved, answers, temp);
      answers, p := answers + [temp], AfterArc(p, i, temp);
      i := i + 1;
    }
    CloseTemporaries(extraFds, nextExtraFd, delegate);
    assert extraFds[..nextExtraFd] == Recorded(p.temps);
    assert delegate.handedOut[|h|..] == p.temps;
    assert IsRun(o, before, delegate.reserved, answers, delegate.table, p.temps);
    RunGivesResult(o, before, delegate.reserved, answers, delegate.table, p.temps);
    return true;
  }

  lemma NoAnswerYet(o: seq<InjectionArc>, before: Table, reserved: set<int>)
    ensures IsPossible(o, before, reserved, []) && Performed(o, before, []) == Progress(o, before, [], {})
  {
  }

  /** PerformInjectiveMultimap: the same on a copy of the map. */
  method PerformInjectiveMultimap(m: seq<InjectionArc>, delegate: InjectionDelegate) returns (ok: bool)
    requires Injective(m)
    requires forall k | 0 <= k < |m| :: Known(delegate.table, delegate.reserved, m[k].source)
    modifies delegate
    ensures old(delegate.handedOut) <= delegate.handedOut
    ensures var temps := delegate.handedOut[|old(delegate.handedOut)|..];
            && ShuffleResult(m, old(delegate.table), delegate.table, temps, delegate.reserved, ok)
            && (ok ==> exists answers :: IsRun(m, old(delegate.table), delegate.reserved, answers, delegate.table, temps))
    ensures delegate.reliable && (forall k | 0 <= k < |m| :: m[k].source in old(delegate.table)) ==> ok
  {
    hide ShuffleResult, IsRun;
    var copy := new InjectionArc[|m|](k requires 0 <= k < |m| => m[k]);
    assert copy[..] == m;
    ok := PerformInjectiveMultimapDestructive(copy, delegate);
  }

  // ---------- What the result means for the caller ----------

  ghost predicate DestsHoldSources(o: seq<InjectionArc>, before: Table, after: Table) {
    forall k | 0 <= k < |o| :: Lookup(after, o[k].dest) == Lookup(before, o[k].source)
  }

  /** The parallel move: every dest holds what its source held, the sources marked close are gone, the rest is as it was. */
  ghost predicate AsIntended(o: seq<InjectionArc>, before: Table, after: Table) {
    && DestsHoldSources(o, before, after)
    && (forall fd {:trigger Lookup(after, fd)} | !IsDest(o, fd) ::
          Lookup(after, fd) == if IsClosedSource(o, fd) then None else Lookup(before, fd))
  }

  ghost predicate HasClosingIdentity(o: seq<InjectionArc>) {
    exists k | 0 <= k < |o| :: IsClosingIdentity(o, o[k].dest)
  }

  ghost predicate SourcesOpen(o: seq<InjectionArc>, before: Table) {
    forall k | 0 <= k < |o| :: o[k].source in before
  }

  lemma ShuffledWhenOk(o: seq<InjectionArc>, before: Table, after: Table, temps: seq<int>, reserved: set<int>)
    requires ShuffleResult(o, before, after, temps, reserved, true)
    ensures Shuffled(o, before, after, temps) && Tidy(o, |o|, before, reserved, temps) && Distinct(temps)
    ensures forall t | t in temps :: t !in before || IsDue(o, t)
    ensures AvoidsDests(o, temps) ==> |temps| == Detours(o, |o|)
  {
  }

  // Without risk, no temporary that is closed at the end is a dest.
  lemma TemporariesAvoidDests(o: seq<InjectionArc>, before: Table, after: Table, temps: seq<int>, reserved: set<int>)
    requires ShuffleResult(o, before, after, temps, reserved, true) && NoRisk(o, before, reserved)
    ensures AvoidsDests(o, Recorded(temps)) && (|temps| <= MAX_EXTRA_FDS <==> Detours(o, |o|) <= MAX_EXTRA_FDS)
    ensures !HasClosingIdentity(o) ==> forall t | t in Recorded(temps) :: !IsDest(o, t)
  {
    hide HasClosingIdentity, ShuffleResult;
    ShuffledWhenOk(o, before, after, temps, reserved);
    DestsAreClosing(o, Recorded(temps));
  }

  lemma DestsAreClosing(o: seq<InjectionArc>, temps: seq<int>)
    requires AvoidsDests(o, temps)
    ensures forall t | t in temps && IsDest(o, t) :: HasClosingIdentity(o)
  {
    hide IsClosingIdentity;
    forall t | t in temps && IsDest(o, t)
      ensures HasClosingIdentity(o)
    {
      var k :| 0 <= k < |o| && o[k].dest == t;
      assert IsClosingIdentity(o, o[k].dest);
    }
  }

  // Without risk, closing identity arcs alone stop a successful shuffle from giving every dest what its source held.
  lemma DestsHoldSourcesIff(o: seq<InjectionArc>, before: Table, after: Table, temps: seq<int>, reserved: set<int>)
    requires ShuffleResult(o, before, after, temps, reserved, true)
    requires SourcesOpen(o, before) && NoRisk(o, before, reserved)
    ensures !HasClosingIdentity(o) ==> DestsHoldSources(o, before, after)
    ensures Detours(o, |o|) <= MAX_EXTRA_FDS ==> (DestsHoldSources(o, before, after) <==> !HasClosingIdentity(o))
  {
    hide ShuffleResult, Detours, NoRisk, IsClosingIdentity;
    TemporariesAvoidDests(o, before, after, temps, reserved);
    ShuffledWhenOk(o, before, after, temps, reserved);
    forall k | 0 <= k < |o|
      ensures !HasClosingIdentity(o) ==> Lookup(after, o[k].dest) == Lookup(before, o[k].source)
      ensures IsClosingIdentity(o, o[k].dest) && Detours(o, |o|) <= MAX_EXTRA_FDS ==> o[k].dest !in after
    {
      assert IsDest(o, o[k].dest);
      assert IsClosingIdentity(o, o[k].dest) ==> HasClosingIdentity(o);
    }
  }

  // The whole table is as intended exactly when, besides, no temporary overflows the buffer.
  lemma AsIntendedIff(o: seq<InjectionArc>, before: Table, after: Table, temps: seq<int>, reserved: set<int>)
    requires ShuffleResult(o, before, after, temps, reserved, true)
    requires SourcesOpen(o, before) && NoRisk(o, before, reserved)
    ensures !HasClosingIdentity(o) && AvoidsDests(o, temps) ==>
              (AsIntended(o, before, after) <==> Detours(o, |o|) <= MAX_EXTRA_FDS)
    ensures Detours(o, |o|) <= MAX_EXTRA_FDS ==> (AsIntended(o, before, after) <==> !HasClosingIdentity(o))
  {
    hide ShuffleResult, Detours, NoRisk, IsClosingIdentity;
    TemporariesAvoidDests(o, before, after, temps, reserved);
    ShuffledWhenOk(o, before, after, temps, reserved);
    DestsHoldSourcesIff(o, before, after, temps, reserved);
    if !HasClosingIdentity(o) && AvoidsDests(o, temps) && |temps| > MAX_EXTRA_FDS {
      LeakShows(o, before, after, temps, reserved);
    }
  }

  // A temporary beyond the sixteenth stays open.
  lemma LeakShows(o: seq<InjectionArc>, before: Table, after: Table, temps: seq<int>, reserved: set<int>)
    requires ShuffleResult(o, before, after, temps, reserved, true) && !HasClosingIdentity(o) && AvoidsDests(o, temps)
    requires |temps| > MAX_EXTRA_FDS
    ensures !AsIntended(o, before, after)
  {
    hide ShuffleResult, HasClosingIdentity;
    ShuffledWhenOk(o, before, after, temps, reserved);
    DestsAreClosing(o, temps);
    var t := Leaked(temps)[0];
    assert t == temps[MAX_EXTRA_FDS] && !IsDest(o, t);
    assert t !in Recorded(temps);
    assert Lookup(after, t).Some?;
    assert Lookup(before, t) == None || IsClosedSource(o, t);
  }

  // A dest that is handed out as a temporary, and remembered, is lost: the last loop closes it.
  lemma TemporaryOnDestIsLost(o: seq<InjectionArc>, before: Table, after: Table, temps: seq<int>, reserved: set<int>, k: nat)
    requires ShuffleResult(o, before, after, temps, reserved, true) && k < |o| && o[k].source in before
    ensures !IsClosingIdentity(o, o[k].dest) ==>
              (Lookup(after, o[k].dest) == Lookup(before, o[k].source) <==> o[k].dest !in Recorded(temps))
    ensures IsClosingIdentity(o, o[k].dest) && o[k].dest !in Leaked(temps) ==> o[k].dest !in after
  {
    hide IsClosingIdentity;
    assert IsDest(o, o[k].dest);
  }

  // ---------- What a caller can count on before the call ----------

  /** Whatever Duplicate answers, every dest holds what its source held on entry. */
  ghost predicate AlwaysHoldsSources(o: seq<InjectionArc>, before: Table, reserved: set<int>) {
    forall answers, after, temps | IsRun(o, before, reserved, answers, after, temps) :: DestsHoldSources(o, before, after)
  }

  ghost predicate AlwaysAsIntended(o: seq<InjectionArc>, before: Table, reserved: set<int>) {
    forall answers, after, temps | IsRun(o, before, reserved, answers, after, temps) :: AsIntended(o, before, after)
  }

  ghost function Dests(o: seq<InjectionArc>): set<int> {
    set k | 0 <= k < |o| :: o[k].dest
  }

  /** The temporaries of p' are those of p and some that are in no way among `avoided`. */
  ghost predicate AvoidsFurther(p: Progress, p': Progress, avoided: set<int>) {
    p.temps <= p'.temps && forall j | |p.temps| <= j < |p'.temps| :: p'.temps[j] !in avoided
  }

  // A turn is never stuck: all calls can succeed, whichever free descriptor Duplicate answers with.
  lemma NeverStuck(o: seq<InjectionArc>, before: Table, reserved: set<int>, answers: seq<int>, temp: int)
    requires Injective(o) && SourcesOpen(o, before)
    requires |answers| < |o| && IsPossible(o, before, reserved, answers)
    requires var p := Performed(o, before, answers);
             AnyRedirected(p.arcs, |answers|, |o|) ==> MayBeHandedOut(p.table, reserved, temp)
    ensures CanBeNext(Performed(o, before, answers), |answers|, temp, reserved)
  {
    hide Inv, IsPossible, Performed, MayBeHandedOut;
    var p := Performed(o, before, answers);
    PossibleKeepsInv(o, before, reserved, answers);
    SourceIsKnown(o, |answers|, p.arcs, before, p.table, p.temps, p.closed, reserved);
  }

  // From any state the run can go on for n turns with temporaries that avoid what they should avoid.
  lemma {:induction false} GoOn(o: seq<InjectionArc>, before: Table, reserved: set<int>, answers: seq<int>,
                                n: nat, avoided: set<int>) returns (all: seq<int>)
    requires Injective(o) && SourcesOpen(o, before)
    requires |answers| <= n <= |o| && IsPossible(o, before, reserved, answers)
    ensures |all| == n && IsPossible(o, before, reserved, all)
    ensures AvoidsFurther(Performed(o, before, answers), Performed(o, before, all), avoided)
    decreases n - |answers|
  {
    hide IsPossible, Performed, CanBeNext, AnyRedirected, ClosesSource, AfterTurn, WithTemporary;
    if |answers| == n {
      all := answers;
    } else {
      var p := Performed(o, before, answers);
      var taken := p.table.Keys + reserved + avoided;
      FreshDescriptorExists(taken);
      var temp :| temp >= 0 && temp !in taken;
      NeverStuck(o, before, reserved, answers, temp);
      OneMoreAnswer(o, before, reserved, answers, temp);
      all := GoOn(o, before, reserved, answers + [temp], n, avoided);
    }
  }

  // A whole run whose temporaries are no dests.
  lemma CleanRun(o: seq<InjectionArc>, before: Table, reserved: set<int>, n: nat) returns (answers: seq<int>)
    requires Injective(o) && SourcesOpen(o, before) && n <= |o|
    ensures |answers| == n && IsPossible(o, before, reserved, answers)
    ensures forall t | t in Performed(o, before, answers).temps :: !IsDest(o, t)
  {
    hide IsPossible, Performed;
    NoAnswerYet(o, before, reserved);
    answers := GoOn(o, before, reserved, [], n, Dests(o));
    var temps := Performed(o, before, answers).temps;
    forall t | t in temps
      ensures !IsDest(o, t)
    {
      var j :| 0 <= j < |temps| && temps[j] == t;
      assert t !in Dests(o);
    }
  }

  ghost function Final(p: Progress): Table {
    p.table - set t | t in Recorded(p.temps)
  }

  lemma FinalIsRun(o: seq<InjectionArc>, before: Table, reserved: set<int>, answers: seq<int>)
    requires |answers| == |o| && IsPossible(o, before, reserved, answers)
    ensures var p := Performed(o, before, answers); IsRun(o, before, reserved, answers, Final(p), p.temps)
  {
    hide IsPossible, Performed;
  }

  // A closing identity arc loses its dest in a run whose temporaries are no dests.
  lemma ClosingIdentityIsLost(o: seq<InjectionArc>, before: Table, reserved: set<int>)
    requires Injective(o) && SourcesOpen(o, before) && HasClosingIdentity(o)
    ensures !AlwaysHoldsSources(o, before, reserved)
  {
    hide IsPossible, Performed, ShuffleResult, Detours, IsClosingIdentity, Recorded, Leaked;
    var answers := CleanRun(o, before, reserved, |o|);
    var p := Performed(o, before, answers);
    FinalIsRun(o, before, reserved, answers);
    RunGivesResult(o, before, reserved, answers, Final(p), p.temps);
    var k :| 0 <= k < |o| && IsClosingIdentity(o, o[k].dest);
    assert IsDest(o, o[k].dest);
    RecordedOrLeaked(p.temps);
    TemporaryOnDestIsLost(o, before, Final(p), p.temps, reserved, k);
    assert o[k].source in before;
  }

  lemma StillFree(o: seq<InjectionArc>, i: nat, before: Table, reserved: set<int>, p: Progress, fd: int)
    requires InvOf(o, i, before, reserved, p)
    requires fd !in before && fd !in p.temps && !IsDoneDest(o, i, fd)
    ensures fd !in p.table
  {
    assert fd !in p.closed ==> Lookup(p.table, fd) == Lookup(before, fd);
  }

  // Where there is a risk, Duplicate can answer with the dest in question.
  lemma RiskCanBeTaken(o: seq<InjectionArc>, before: Table, reserved: set<int>, answers: seq<int>, k: nat)
    requires Injective(o) && SourcesOpen(o, before)
    requires |answers| < k < |o| && IsPossible(o, before, reserved, answers)
    requires NeedsDetour(o, |answers|) && MayBeHandedOut(before, reserved, o[k].dest)
    requires forall t | t in Performed(o, before, answers).temps :: !IsDest(o, t)
    ensures var p := Performed(o, before, answers);
            && CanBeNext(p, |answers|, o[k].dest, reserved)
            && AfterArc(p, |answers|, o[k].dest).temps == p.temps + [o[k].dest]
            && |p.temps| == Detours(o, |answers|)
  {
    hide IsPossible, Performed, IsDue, NeedsDetour, Sources, ClosedSoFar, AfterTurn, WithTemporary, AnyRedirected, ClosesSource;
    var p, i := Performed(o, before, answers), |answers|;
    PossibleKeepsInv(o, before, reserved, answers);
    assert AvoidsDests(o, p.temps);
    TakesOneIff(o, i, p.arcs, p.temps);
    assert IsDest(o, o[k].dest) && !IsDoneDest(o, i, o[k].dest);
    StillFree(o, i, before, reserved, p, o[k].dest);
    NeverStuck(o, before, reserved, answers, o[k].dest);
  }

  lemma RiskIsLost(o: seq<InjectionArc>, before: Table, reserved: set<int>, i: nat, k: nat)
    requires Injective(o) && SourcesOpen(o, before)
    requires i < k < |o| && NeedsDetour(o, i) && Detours(o, i) < MAX_EXTRA_FDS
    requires MayBeHandedOut(before, reserved, o[k].dest)
    ensures !AlwaysHoldsSources(o, before, reserved)
  {
    hide IsPossible, Performed, ShuffleResult, Detours, CanBeNext, AfterArc, NeedsDetour, IsRun, DestsHoldSources;
    var d := o[k].dest;
    var answers := CleanRun(o, before, reserved, i);
    var p := Performed(o, before, answers);
    RiskCanBeTaken(o, before, reserved, answers, k);
    OneMoreAnswer(o, before, reserved, answers, d);
    var all := GoOn(o, before, reserved, answers + [d], |o|, {});
    var p' := Performed(o, before, all);
    FinalIsRun(o, before, reserved, all);
    RunGivesResult(o, before, reserved, all, Final(p'), p'.temps);
    assert p'.temps[|p.temps|] == d && d in Recorded(p'.temps) by {
      assert Recorded(p'.temps)[|p.temps|] == p'.temps[|p.temps|];
    }
    RecordedDestIsLost(o, before, Final(p'), p'.temps, reserved, k);
  }

  lemma RecordedDestIsLost(o: seq<InjectionArc>, before: Table, after: Table, temps: seq<int>, reserved: set<int>, k: nat)
    requires ShuffleResult(o, before, after, temps, reserved, true) && k < |o| && o[k].source in before
    requires o[k].dest in Recorded(temps)
    ensures !DestsHoldSources(o, before, after)
  {
    assert Lookup(after, o[k].dest) == None;
  }

  // Every dest is certain to hold what its source held, exactly when no identity arc closes and there is no risk.
  lemma AlwaysHoldsSourcesIff(o: seq<InjectionArc>, before: Table, reserved: set<int>)
    requires Injective(o) && SourcesOpen(o, before)
    ensures AlwaysHoldsSources(o, before, reserved) <==> !HasClosingIdentity(o) && NoRisk(o, before, reserved)
  {
    hide HasClosingIdentity, IsRun, DestsHoldSources, MayBeHandedOut, Detours, NeedsDetour, ShuffleResult;
    if HasClosingIdentity(o) {
      ClosingIdentityIsLost(o, before, reserved);
    } else if !NoRisk(o, before, reserved) {
      var i, k :| 0 <= i < k < |o| && NeedsDetour(o, i) && Detours(o, i) < MAX_EXTRA_FDS
                  && MayBeHandedOut(before, reserved, o[k].dest);
      RiskIsLost(o, before, reserved, i, k);
    } else {
      forall answers, after, temps | IsRun(o, before, reserved, answers, after, temps)
        ensures DestsHoldSources(o, before, after)
      {
        RunGivesResult(o, before, reserved, answers, after, temps);
        DestsHoldSourcesIff(o, before, after, temps, reserved);
      }
    }
  }

  // The whole table is certain to be as intended exactly when, besides, at most sixteen arcs need a detour.
  lemma AlwaysAsIntendedIff(o: seq<InjectionArc>, before: Table, reserved: set<int>)
    requires Injective(o) && SourcesOpen(o, before)
    ensures AlwaysAsIntended(o, before, reserved)
            <==> !HasClosingIdentity(o) && NoRisk(o, before, reserved) && Detours(o, |o|) <= MAX_EXTRA_FDS
  {
    hide HasClosingIdentity, IsRun, DestsHoldSources, NoRisk, Detours, ShuffleResult;
    AlwaysHoldsSourcesIff(o, before, reserved);
    if HasClosingIdentity(o) || !NoRisk(o, before, reserved) {
      var answers, after, temps :| IsRun(o, before, reserved, answers, after, temps) && !DestsHoldSources(o, before, after);
      assert !AsIntended(o, before, after);
    } else if Detours(o, |o|) > MAX_EXTRA_FDS {
      LeakHappens(o, before, reserved);
    } else {
      forall answers, after, temps | IsRun(o, before, reserved, answers, after, temps)
        ensures AsIntended(o, before, after)
      {
        RunGivesResult(o, before, reserved, answers, after, temps);
        AsIntendedIff(o, before, after, temps, reserved);
      }
    }
  }

  lemma LeakHappens(o: seq<InjectionArc>, before: Table, reserved: set<int>)
    requires Injective(o) && SourcesOpen(o, before)
    requires !HasClosingIdentity(o) && Detours(o, |o|) > MAX_EXTRA_FDS
    ensures !AlwaysAsIntended(o, before, reserved)
  {
    hide HasClosingIdentity, IsPossible, Performed, IsRun, AsIntended, Detours, ShuffleResult;
    var answers := CleanRun(o, before, reserved, |o|);
    var p := Performed(o, before, answers);
    FinalIsRun(o, before, reserved, answers);
    RunGivesResult(o, before, reserved, answers, Final(p), p.temps);
    ShuffledWhenOk(o, before, Final(p), p.temps, reserved);
    LeakShows(o, before, Final(p), p.temps, reserved);
  }

  // With every dest open or reserved and no closing identity arc, sixteen temporaries are what the table can take.
  lemma SixteenTemporariesIff(o: seq<InjectionArc>, before: Table, reserved: set<int>)
    requires Injective(o) && SourcesOpen(o, before) && !HasClosingIdentity(o)
    requires forall k | 0 <= k < |o| :: Known(before, reserved, o[k].dest)
    ensures AlwaysAsIntended(o, before, reserved) <==> Detours(o, |o|) <= 16
  {
    hide HasClosingIdentity, AlwaysAsIntended, Detours, NeedsDetour;
    AlwaysAsIntendedIff(o, before, reserved);
  }

  // ---------- Examples ----------

  // The run of [(1, 1), (1, 2, close)] ends with 1 closed.
  lemma ClosingIdentityExample(after: Table, temps: seq<int>, reserved: set<int>, d: Description)
    requires ShuffleResult([InjectionArc(1, 1, false), InjectionArc(1, 2, true)], map[1 := d], after, temps, reserved, true)
    ensures 1 !in after && Lookup(after, 2) == Some(d)
  {
    var o := [InjectionArc(1, 1, false), InjectionArc(1, 2, true)];
    assert o[0].dest == 1 && o[1].dest == 2;
    assert IsClosingIdentity(o, 1) && !IsClosingIdentity(o, 2);
    assert !NeedsDetour(o, 0) && !NeedsDetour(o, 1);
    assert Detours(o, 1) == 0 && Detours(o, 2) == 0;
    ShuffledWhenOk(o, map[1 := d], after, temps, reserved);
    assert temps == [];
    TemporaryOnDestIsLost(o, map[1 := d], after, temps, reserved, 0);
    TemporaryOnDestIsLost(o, map[1 := d], after, temps, reserved, 1);
  }

  // A single arc needs no temporary, whether its dest is open or not.
  lemma SingleArcExample(before: Table, after: Table, temps: seq<int>, reserved: set<int>, s: int, d: int)
    requires ShuffleResult([InjectionArc(s, d, false)], before, after, temps, reserved, true) && s in before
    ensures Lookup(after, d) == Lookup(before, s) && temps == []
  {
    var o := [InjectionArc(s, d, false)];
    assert !NeedsDetour(o, 0) && Detours(o, 0) == 0 && Detours(o, 1) == 0;
    ShuffledWhenOk(o, before, after, temps, reserved);
    assert o[0].dest == d && !IsClosingIdentity(o, d);
    TemporaryOnDestIsLost(o, before, after, temps, reserved, 0);
  }

  // On the process's own table dup answers with the lowest closed descriptor. For
  // [(1, 2), (2, 0)] with 0 closed that is the second dest, which is closed at the end.
  lemma LowestDescriptorExample(after: Table, temps: seq<int>, d: Description, e: Description)
    requires ShuffleResult([InjectionArc(1, 2, false), InjectionArc(2, 0, false)], map[1 := d, 2 := e], after, temps, {}, true)
    requires temps == [0]
    ensures 0 !in after && Lookup(after, 2) == Some(d)
  {
    var o := [InjectionArc(1, 2, false), InjectionArc(2, 0, false)];
    assert o[0].dest == 2 && o[1].dest == 0;
    TemporaryOnDestIsLost(o, map[1 := d, 2 := e], after, temps, {}, 0);
    assert !IsClosingIdentity(o, 2);
  }

  /** The arcs (0, 1), (1, 2), ..., (n - 1, n). */
  function ChainOfArcs(n: nat): seq<InjectionArc> {
    seq(n, k => InjectionArc(k, k + 1, false))
  }

  lemma {:induction false} DetoursOfChain(n: nat, i: nat)
    requires i < n
    ensures Detours(ChainOfArcs(n), i) == i
  {
    if i > 0 {
      DetoursOfChain(n, i - 1);
      assert ChainOfArcs(n)[i].source == ChainOfArcs(n)[i - 1].dest;
    }
  }

  // A chain of eighteen arcs needs seventeen temporaries: every run leaves open a descriptor that was not.
  lemma SeventeenthTemporaryExample(before: Table, after: Table, temps: seq<int>, reserved: set<int>)
    requires forall k | 0 <= k <= 18 :: k in before
    requires ShuffleResult(ChainOfArcs(18), before, after, temps, reserved, true)
    ensures DestsHoldSources(ChainOfArcs(18), before, after)
    ensures exists fd :: fd !in before && fd in after
  {
    hide ShuffleResult, Detours;
    var o := ChainOfArcs(18);
    forall k | 0 <= k < |o|
      ensures o[k].source in before && o[k].dest in before
    {
    }
    NoClosingInChain(18);
    DestsHoldSourcesIff(o, before, after, temps, reserved);
    ShuffledWhenOk(o, before, after, temps, reserved);
    DetoursOfChain(18, 17);
    DetoursGrow(o, 17);
    var t := temps[MAX_EXTRA_FDS];
    assert t == Leaked(temps)[0];
    assert t !in before;
    assert t !in Recorded(temps) && !IsDest(o, t);
    assert Lookup(after, t).Some?;
  }

  // A chain of seventeen arcs needs sixteen temporaries, and its whole table is always as intended.
  lemma SixteenTemporariesExample(before: Table, reserved: set<int>)
    requires forall k | 0 <= k <= 17 :: k in before
    ensures AlwaysAsIntended(ChainOfArcs(17), before, reserved)
  {
    hide AlwaysAsIntended, Detours, HasClosingIdentity, NeedsDetour;
    var o := ChainOfArcs(17);
    forall k | 0 <= k < |o|
      ensures o[k].source in before && o[k].dest in before
    {
    }
    NoClosingInChain(17);
    DetoursOfChain(17, 16);
    LastNeedsNone(o);
    SixteenTemporariesIff(o, before, reserved);
  }

  lemma LastNeedsNone(o: seq<InjectionArc>)
    requires o != []
    ensures Detours(o, |o|) == Detours(o, |o| - 1)
  {
  }

  lemma DetoursGrow(o: seq<InjectionArc>, i: nat)
    requires i < |o|
    ensures Detours(o, i) <= Detours(o, i + 1)
  {
  }

  lemma NoClosingInChain(n: nat)
    ensures !HasClosingIdentity(ChainOfArcs(n))
    ensures forall fd :: !IsDue(ChainOfArcs(n), fd)
  {
    var o := ChainOfArcs(n);
    assert forall k | 0 <= k < n :: o[k].source != o[k].dest && !o[k].close;
  }
}
