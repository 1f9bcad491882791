/**
 Model of base/command_line.cc on POSIX: an argument vector whose switches come
 first, and beside it a map of the switches, built up, parsed and queried.
 */
module CommandLine {
  import opened Wrappers
  import opened Switches

  type SwitchMap = map<string, string>

  // ---------- Trimming ----------

  predicate IsWhitespace(c: char) {
    '\t' <= c <= '\r' || c == ' '
  }

  function TrimLeading(s: string): (t: string)
    ensures t == [] || !IsWhitespace(t[0])
    ensures |t| <= |s| && t == s[|s| - |t|..]
    ensures forall i | 0 <= i < |s| - |t| :: IsWhitespace(s[i])
  {
    if s != [] && IsWhitespace(s[0]) then TrimLeading(s[1..]) else s
  }

  function TrimTrailing(s: string): (t: string)
    ensures t == [] || !IsWhitespace(t[|t| - 1])
    ensures t <= s && forall i | |t| <= i < |s| :: IsWhitespace(s[i])
  {
    if s != [] && IsWhitespace(s[|s| - 1]) then TrimTrailing(s[..|s| - 1]) else s
  }

  predicate IsTrimmed(s: string) {
    s == [] || (!IsWhitespace(s[0]) && !IsWhitespace(s[|s| - 1]))
  }

  function TrimWhitespace(s: string): (t: string)
    ensures IsTrimmed(t)
    ensures IsTrimmed(s) <==> t == s
  {
    TrimTrailing(TrimLeading(s))
  }

  lemma WhitespaceCharacters(c: char)
    ensures IsWhitespace(c) <==> c as int == 9 || c as int == 10 || c as int == 11 || c as int == 12 || c as int == 13 || c as int == 32
  {
  }

  predicate AllWhitespace(s: string) {
    forall c | c in s :: IsWhitespace(c)
  }

  // Trimming cuts a piece out of the text; what it leaves away, before and after, is whitespace.
  lemma TrimCutsOut(s: string) returns (before: string, after: string)
    ensures s == before + TrimWhitespace(s) + after && AllWhitespace(before) && AllWhitespace(after)
  {
    hide TrimLeading, TrimTrailing, IsWhitespace;
    var t := TrimLeading(s);
    before, after := s[..|s| - |t|], t[|TrimWhitespace(s)|..];
    assert s == before + t && t == TrimTrailing(t) + after;
  }

  lemma TrimKeepsElements(s: string, c: char)
    requires c in TrimWhitespace(s)
    ensures c in s
  {
    var t := TrimLeading(s);
    assert t == s[|s| - |t|..];
    assert c in t;
  }

  // ---------- The map: the last switch of a name wins ----------

  /** The map after the switches among args have been entered one after the other. */
  function SwitchesFrom(switches: SwitchMap, args: seq<string>): SwitchMap {
    if args == [] then switches
    else
      var before := SwitchesFrom(switches, args[..|args| - 1]);
      match IsSwitch(Posix, args[|args| - 1])
      case None => before
      case Some(s) => before[Key(Posix, s.name) := s.value]
  }

  /** args[j] is a switch of the given key. */
  predicate Sets(args: seq<string>, j: nat, key: string) {
    j < |args| && IsSwitch(Posix, args[j]).Some? && Key(Posix, IsSwitch(Posix, args[j]).value.name) == key
  }

  lemma {:induction false} LastWins(args: seq<string>, key: string) returns (j: nat)
    ensures key in SwitchesFrom(map[], args) <==> Sets(args, j, key)
    ensures Sets(args, j, key) ==> SwitchesFrom(map[], args)[key] == IsSwitch(Posix, args[j]).value.value
    ensures forall i | j < i < |args| :: !Sets(args, i, key)
    ensures !Sets(args, j, key) ==> forall i | 0 <= i < |args| :: !Sets(args, i, key)
  {
    hide IsSwitch, Key;
    if args == [] {
      j := 0;
    } else {
      var n := |args| - 1;
      if Sets(args, n, key) {
        j := n;
      } else {
        j := LastWins(args[..n], key);
        assert forall i | 0 <= i < n :: Sets(args, i, key) == Sets(args[..n], i, key);
      }
    }
  }

  lemma SwitchesFromSnoc(switches: SwitchMap, args: seq<string>, arg: string)
    ensures SwitchesFrom(switches, args + [arg]) ==
            match IsSwitch(Posix, arg)
            case None => SwitchesFrom(switches, args)
            case Some(s) => SwitchesFrom(switches, args)[Key(Posix, s.name) := s.value]
  {
    assert (args + [arg])[..|args|] == args;
  }

  lemma {:induction false} KeysHaveNoEquals(args: seq<string>, key: string)
    requires key in SwitchesFrom(map[], args)
    ensures '=' !in key
  {
    var j := LastWins(args, key);
    var name := IsSwitch(Posix, args[j]).value.name;
    assert key == name[GetSwitchPrefixLength(Posix, name)..];
  }

  // Entering switches on top of others overwrites those of the same key.
  lemma {:induction false} SwitchesFromMerges(switches: SwitchMap, args: seq<string>)
    ensures SwitchesFrom(switches, args) == switches + SwitchesFrom(map[], args)
  {
    if args != [] {
      SwitchesFromMerges(switches, args[..|args| - 1]);
    }
  }

  // Entries from before survive unless they are overwritten.
  lemma LeftoversShow(switches: SwitchMap, args: seq<string>)
    ensures SwitchesFrom(switches, args) == SwitchesFrom(map[], args)
            <==> switches.Keys <= SwitchesFrom(map[], args).Keys
  {
    SwitchesFromMerges(switches, args);
    var entered := SwitchesFrom(map[], args);
    assert (switches + entered).Keys == switches.Keys + entered.Keys;
    if switches.Keys <= entered.Keys {
      assert switches + entered == entered;
    }
  }

  // ---------- Partitioning ----------

  function Trimmed(args: seq<string>): (t: seq<string>)
    ensures |t| == |args|
    ensures forall i | 0 <= i < |t| :: t[i] == TrimWhitespace(args[i])
  {
    seq(|args|, i requires 0 <= i < |args| => TrimWhitespace(args[i]))
  }

  /** args[i] is taken for a switch: it has a prefix, and neither it nor one before it is the terminator. */
  predicate IsSwitchIn(args: seq<string>, i: nat)
    requires i < |args|
  {
    SWITCH_TERMINATOR !in args[..i + 1] && GetSwitchPrefixLength(Posix, args[i]) != 0
  }

  /** The switches among args, in order, as they are kept. */
  function SwitchesOf(args: seq<string>): seq<string> {
    if args == [] then []
    else
      var n := |args| - 1;
      SwitchesOf(args[..n]) + (if IsSwitchIn(args, n) then [Normal(Posix, args[n])] else [])
  }

  /** The other arguments, in order. */
  function RestOf(args: seq<string>): seq<string> {
    if args == [] then []
    else
      var n := |args| - 1;
      RestOf(args[..n]) + (if IsSwitchIn(args, n) then [] else [args[n]])
  }

  lemma PrefixesAgree(args: seq<string>, n: nat, i: nat)
    requires i < n <= |args|
    ensures IsSwitchIn(args[..n], i) == IsSwitchIn(args, i)
  {
    assert args[..n][..i + 1] == args[..i + 1];
  }

  lemma {:induction false} PartitionKeepsCount(args: seq<string>)
    ensures |SwitchesOf(args)| + |RestOf(args)| == |args|
  {
    if args != [] {
      PartitionKeepsCount(args[..|args| - 1]);
    }
  }

  // The kept switches are switches, and are those of args.
  lemma {:induction false} SwitchesOfElements(args: seq<string>, x: string)
    ensures x in SwitchesOf(args) <==> exists i | 0 <= i < |args| && IsSwitchIn(args, i) :: Normal(Posix, args[i]) == x
  {
    if args != [] {
      var n := |args| - 1;
      hide Normal, GetSwitchPrefixLength;
      SwitchesOfElements(args[..n], x);
      forall i | 0 <= i < n
        ensures IsSwitchIn(args[..n], i) == IsSwitchIn(args, i)
      {
        PrefixesAgree(args, n, i);
      }
      assert forall i | 0 <= i < n :: args[..n][i] == args[i];
      if i :| 0 <= i < n && IsSwitchIn(args, i) && Normal(Posix, args[i]) == x {
        assert IsSwitchIn(args[..n], i) && Normal(Posix, args[..n][i]) == x;
      }
    }
  }

  lemma NotASwitchLater(a: seq<string>, b: seq<string>, i: nat)
    requires i < |b| && !IsSwitchIn(b, i)
    ensures !IsSwitchIn(a + b, |a| + i)
  {
    hide GetSwitchPrefixLength;
    assert (a + b)[..|a| + i + 1] == a + b[..i + 1];
  }

  lemma PartitionMore(args: seq<string>, x: string)
    ensures var args' := args + [x];
            if IsSwitchIn(args', |args|) then
              SwitchesOf(args') == SwitchesOf(args) + [Normal(Posix, x)] && RestOf(args') == RestOf(args)
            else
              SwitchesOf(args') == SwitchesOf(args) && RestOf(args') == RestOf(args) + [x]
  {
    hide Normal, GetSwitchPrefixLength;
    assert (args + [x])[..|args|] == args;
  }

  // What follows a list without switches of its own is left alone.
  lemma {:induction false} PartitionThenRest(a: seq<string>, b: seq<string>)
    requires forall i | 0 <= i < |b| :: !IsSwitchIn(b, i)
    ensures SwitchesOf(a + b) == SwitchesOf(a)
    ensures RestOf(a + b) == RestOf(a) + b
  {
    hide Normal, GetSwitchPrefixLength, SwitchesOf, RestOf;
    if b == [] {
      assert a + b == a;
    } else {
      var n := |b| - 1;
      forall i | 0 <= i < n
        ensures !IsSwitchIn(b[..n], i)
      {
        PrefixesAgree(b, n, i);
      }
      PartitionThenRest(a, b[..n]);
      assert a + b == a + b[..n] + [b[n]];
      NotASwitchLater(a, b, n);
      PartitionMore(a + b[..n], b[n]);
    }
  }

  // The rest holds the terminator if args do, and no switch before it.
  lemma {:induction false} RestHasNoSwitch(args: seq<string>)
    ensures SWITCH_TERMINATOR in RestOf(args) <==> SWITCH_TERMINATOR in args
    ensures forall i | 0 <= i < |RestOf(args)| :: !IsSwitchIn(RestOf(args), i)
  {
    if args != [] {
      var n := |args| - 1;
      var before, rest := RestOf(args[..n]), RestOf(args);
      RestHasNoSwitch(args[..n]);
      assert args == args[..n] + [args[n]] && args[..n + 1] == args;
      forall i | 0 <= i < |rest|
        ensures !IsSwitchIn(rest, i)
      {
        if i < |before| {
          assert rest[..|before|] == before;
          PrefixesAgree(rest, |before|, i);
        } else {
          assert rest == before + [args[n]] && rest[..i + 1] == rest;
        }
      }
    }
  }

  // ---------- Parsing an argument vector ----------

  /** What a command line holds. */
  datatype Parsed = Parsed(argv: seq<string>, beginArgs: nat, switches: SwitchMap)

  /** The arguments after the program, trimmed. */
  function Arguments(argv: seq<string>): seq<string> {
    if argv == [] then [] else Trimmed(argv[1..])
  }

  function Program(argv: seq<string>): string {
    if argv == [] then "" else TrimWhitespace(argv[0])
  }

  /** What a new command line holds once it is initialised from argv. */
  function Parse(argv: seq<string>): Parsed {
    var switches := SwitchesOf(Arguments(argv));
    Parsed([Program(argv)] + switches + RestOf(Arguments(argv)), 1 + |switches|, SwitchesFrom(map[], switches))
  }

  /** A switch that changes again when it is parsed again: dropping its '=' bares whitespace, or the terminator. */
  predicate IsUnstable(arg: string) {
    HasEmptyValue(arg) && (var name := arg[..|arg| - 1]; name == SWITCH_TERMINATOR || !IsTrimmed(name))
  }

  predicate IsStable(kept: string) {
    IsTrimmed(kept) && kept != SWITCH_TERMINATOR
  }

  lemma UnstableIff(arg: string)
    requires IsTrimmed(arg) && arg != SWITCH_TERMINATOR && GetSwitchPrefixLength(Posix, arg) != 0
    ensures IsStable(Normal(Posix, arg)) <==> !IsUnstable(arg)
  {
    hide GetSwitchPrefixLength, Normal;
    NormalForm(Posix, arg);
  }

  predicate Keeps(a: seq<string>, j: nat, kept: string)
    requires j < |a|
  {
    IsSwitchIn(a, j) && Normal(Posix, a[j]) == kept
  }

  lemma PrefixesKeepAlike(a: seq<string>, n: nat, c: seq<string>)
    requires n <= |a| && n <= |c|
    ensures forall j | 0 <= j < n :: Keeps(a[..n], j, c[..n][j]) == Keeps(a, j, c[j])
  {
    forall j | 0 <= j < n
      ensures Keeps(a[..n], j, c[..n][j]) == Keeps(a, j, c[j])
    {
      PrefixesAgree(a, n, j);
    }
  }

  lemma LastYieldsIff(a: seq<string>, x: string, c: seq<string>, y: string)
    requires |a| == |c|
    ensures SwitchesOf(a + [x]) == c + [y] <==> SwitchesOf(a) == c && Keeps(a + [x], |a|, y)
  {
    hide Normal, GetSwitchPrefixLength, SwitchesOf;
    PartitionMore(a, x);
    PartitionKeepsCount(a);
    var yielded := SwitchesOf(a + [x]);
    if yielded == c + [y] {
      assert yielded[|a|] == y && yielded[..|a|] == c;
    }
  }

  // Partitioning a list yields c exactly when its elements are switches kept as those of c.
  lemma {:induction false} YieldsIff(a: seq<string>, c: seq<string>)
    requires |a| == |c|
    ensures SwitchesOf(a) == c <==> forall j | 0 <= j < |a| :: Keeps(a, j, c[j])
  {
    hide Keeps;
    if a != [] {
      hide SwitchesOf;
      var n := |a| - 1;
      YieldsIff(a[..n], c[..n]);
      PrefixesKeepAlike(a, n, c);
      assert a == a[..n] + [a[n]] && c == c[..n] + [c[n]];
      LastYieldsIff(a[..n], a[n], c[..n], c[n]);
    }
  }

  // A kept switch, trimmed, is kept as it was exactly when it was trimmed.
  lemma KeptAgain(arg: string)
    requires IsTrimmed(arg) && GetSwitchPrefixLength(Posix, arg) != 0
    ensures var kept := Normal(Posix, arg); var again := TrimWhitespace(kept);
            again != SWITCH_TERMINATOR && GetSwitchPrefixLength(Posix, again) != 0 && Normal(Posix, again) == kept
            <==> IsStable(kept)
  {
    hide TrimWhitespace, IsTrimmed;
    var kept := Normal(Posix, arg);
    var again := TrimWhitespace(kept);
    NormalForm(Posix, arg);
    NormalIsStable(Posix, arg);
    if HasEmptyValue(arg) && GetSwitchPrefixLength(Posix, again) != 0 {
      NormalForm(Posix, again);
      if HasEmptyValue(again) {
        assert '=' in again;
        TrimKeepsElements(kept, '=');
      }
    }
  }

  // Trimming the kept switches and partitioning them again yields them exactly when none is unstable.
  lemma KeptTwice(t: seq<string>)
    requires forall i | 0 <= i < |t| :: IsTrimmed(t[i])
    ensures var kept := SwitchesOf(t);
            SwitchesOf(Trimmed(kept)) == kept <==> forall i | 0 <= i < |t| && IsSwitchIn(t, i) :: !IsUnstable(t[i])
  {
    hide SwitchesOf, Normal, GetSwitchPrefixLength, TrimWhitespace, IsTrimmed, IsStable, IsUnstable;
    var kept := SwitchesOf(t);
    var a := Trimmed(kept);
    YieldsIff(a, kept);
    forall j | 0 <= j < |kept|
      ensures exists i | 0 <= i < |t| && IsSwitchIn(t, i) :: Normal(Posix, t[i]) == kept[j]
      ensures a[j] != SWITCH_TERMINATOR && GetSwitchPrefixLength(Posix, a[j]) != 0 && Normal(Posix, a[j]) == kept[j]
              <==> IsStable(kept[j])
    {
      assert kept[j] in kept;
      SwitchesOfElements(t, kept[j]);
      var i :| 0 <= i < |t| && IsSwitchIn(t, i) && Normal(Posix, t[i]) == kept[j];
      KeptAgain(t[i]);
    }
    forall i | 0 <= i < |t| && IsSwitchIn(t, i)
      ensures Normal(Posix, t[i]) in kept
      ensures IsStable(Normal(Posix, t[i])) <==> !IsUnstable(t[i])
    {
      assert t[i] == t[..i + 1][i];
      SwitchesOfElements(t, Normal(Posix, t[i]));
      UnstableIff(t[i]);
    }
    AllBeforeIff(a);
  }

  lemma AllBeforeIff(a: seq<string>)
    ensures (forall j | 0 <= j < |a| :: IsSwitchIn(a, j))
            <==> (forall j | 0 <= j < |a| :: a[j] != SWITCH_TERMINATOR && GetSwitchPrefixLength(Posix, a[j]) != 0)
  {
    hide GetSwitchPrefixLength;
    if forall j | 0 <= j < |a| :: IsSwitchIn(a, j) {
      forall j | 0 <= j < |a|
        ensures a[j] != SWITCH_TERMINATOR && GetSwitchPrefixLength(Posix, a[j]) != 0
      {
        assert IsSwitchIn(a, j);
        assert a[..j + 1][j] == a[j] && a[j] in a[..j + 1];
      }
    }
  }

  lemma {:induction false} RestIsTrimmed(args: seq<string>)
    requires forall i | 0 <= i < |args| :: IsTrimmed(args[i])
    ensures forall i | 0 <= i < |RestOf(args)| :: IsTrimmed(RestOf(args)[i])
  {
    if args != [] {
      RestIsTrimmed(args[..|args| - 1]);
    }
  }

  lemma ArgumentsAgain(argv: seq<string>)
    ensures var t, again := Arguments(argv), Parse(argv).argv;
            Program(again) == Program(argv) && Arguments(again) == Trimmed(SwitchesOf(t)) + RestOf(t)
  {
    hide SwitchesOf, RestOf, SwitchesFrom, TrimWhitespace;
    var t := Arguments(argv);
    assert forall i | 0 <= i < |t| :: IsTrimmed(t[i]);
    RestIsTrimmed(t);
    assert Parse(argv).argv[1..] == SwitchesOf(t) + RestOf(t);
  }

  lemma SameParts(program: string, a: seq<string>, b: seq<string>, c: seq<string>, d: seq<string>)
    requires [program] + a + b == [program] + c + d && |a| == |c|
    ensures a == c && b == d
  {
    var whole, whole' := [program] + a + b, [program] + c + d;
    assert a == whole[1..1 + |a|] && c == whole'[1..1 + |a|];
    assert b == whole[1 + |a|..] && d == whole'[1 + |a|..];
  }

  // Parsing what was parsed changes nothing, exactly when none of the switches is unstable.
  lemma ParseTwiceIff(argv: seq<string>)
    ensures var t := Arguments(argv);
            Parse(Parse(argv).argv) == Parse(argv) <==> forall i | 0 <= i < |t| && IsSwitchIn(t, i) :: !IsUnstable(t[i])
  {
    hide SwitchesOf, RestOf, IsSwitchIn, IsUnstable, SwitchesFrom, Arguments, Program;
    var t := Arguments(argv);
    var kept, rest, again := SwitchesOf(t), RestOf(t), Trimmed(SwitchesOf(t));
    var first, second := Parse(argv), Parse(Parse(argv).argv);
    ArgumentsAgain(argv);
    RestHasNoSwitch(t);
    ArgumentsAreTrimmed(argv);
    KeptTwice(t);
    PartitionThenRest(again, rest);
    PartitionKeepsCount(again);
    if second == first {
      SameParts(Program(argv), kept, rest, SwitchesOf(again), RestOf(again) + rest);
    }
  }

  lemma ArgumentsAreTrimmed(argv: seq<string>)
    ensures forall i | 0 <= i < |Arguments(argv)| :: IsTrimmed(Arguments(argv)[i])
  {
  }

  // ---------- The arguments without the terminator ----------

  /** s without its first x, if it has one. */
  function WithoutFirst(s: seq<string>, x: string): seq<string> {
    var i := Find(s, x);
    if i < |s| then s[..i] + s[i + 1..] else s
  }

  // Everything from the terminator on is an argument.
  lemma RestAfterTerminator(a: seq<string>, b: seq<string>)
    requires b != [] && b[0] == SWITCH_TERMINATOR
    ensures SwitchesOf(a + b) == SwitchesOf(a)
    ensures RestOf(a + b) == RestOf(a) + b
  {
    forall i | 0 <= i < |b|
      ensures !IsSwitchIn(b, i)
    {
      assert b[..i + 1][0] == b[0] && b[0] in b[..i + 1];
    }
    PartitionThenRest(a, b);
  }

  lemma WithoutFirstOf(a: seq<string>, x: string, b: seq<string>)
    requires x !in a
    ensures WithoutFirst(a, x) == a
    ensures WithoutFirst(a + [x] + b, x) == a + b
  {
    FindIn(a, x, b);
    var s := a + [x] + b;
    assert s[..|a|] == a && s[|a| + 1..] == b;
  }

  lemma RestIsParsed(argv: seq<string>)
    ensures var p := Parse(argv); p.beginArgs <= |p.argv| && p.argv[p.beginArgs..] == RestOf(Arguments(argv))
  {
    hide SwitchesOf, RestOf, SwitchesFrom;
  }

  lemma RestWithoutTerminator(before: seq<string>, after: seq<string>)
    requires SWITCH_TERMINATOR !in before
    ensures WithoutFirst(RestOf(before), SWITCH_TERMINATOR) == RestOf(before)
    ensures WithoutFirst(RestOf(before + [SWITCH_TERMINATOR] + after), SWITCH_TERMINATOR) == RestOf(before) + after
  {
    hide RestOf, WithoutFirst, SwitchesOf, IsSwitchIn, Find;
    var end := [SWITCH_TERMINATOR] + after;
    RestHasNoSwitch(before);
    WithoutFirstOf(RestOf(before), SWITCH_TERMINATOR, after);
    RestAfterTerminator(before, end);
    assert before + [SWITCH_TERMINATOR] + after == before + end;
    assert RestOf(before) + [SWITCH_TERMINATOR] + after == RestOf(before) + end;
  }

  // The arguments of a parsed vector are those before the terminator that are not switches, and all after it.
  lemma ParsedArguments(argv: seq<string>, before: seq<string>, after: seq<string>)
    requires SWITCH_TERMINATOR !in before
    ensures var p := Parse(argv); var args := WithoutFirst(p.argv[p.beginArgs..], SWITCH_TERMINATOR);
            && (Arguments(argv) == before ==> args == RestOf(before))
            && (Arguments(argv) == before + [SWITCH_TERMINATOR] + after ==> args == RestOf(before) + after)
  {
    hide RestOf, WithoutFirst, SwitchesOf, Arguments, SwitchesFrom;
    RestIsParsed(argv);
    RestWithoutTerminator(before, after);
  }

  lemma {:induction false} RestEmptyIff(args: seq<string>)
    ensures RestOf(args) == [] <==> forall i | 0 <= i < |args| :: IsSwitchIn(args, i)
  {
    hide GetSwitchPrefixLength, SwitchesOf, Normal;
    if args != [] {
      var n := |args| - 1;
      RestEmptyIff(args[..n]);
      assert args == args[..n] + [args[n]];
      PartitionMore(args[..n], args[n]);
      forall i | 0 <= i < n
        ensures IsSwitchIn(args[..n], i) == IsSwitchIn(args, i)
      {
        PrefixesAgree(args, n, i);
      }
      hide RestOf, IsSwitchIn;
    } else {
      assert RestOf(args) == [];
    }
  }

  // The terminator comes first among the arguments exactly when nothing but switches comes before it.
  lemma TerminatorFirstIff(argv: seq<string>, before: seq<string>, after: seq<string>)
    requires Arguments(argv) == before + [SWITCH_TERMINATOR] + after && SWITCH_TERMINATOR !in before
    ensures var p := Parse(argv);
            && p.beginArgs < |p.argv|
            && (p.argv[p.beginArgs] == SWITCH_TERMINATOR
                <==> forall i | 0 <= i < |before| :: GetSwitchPrefixLength(Posix, before[i]) != 0)
  {
    hide RestOf, SwitchesOf, Arguments, SwitchesFrom, GetSwitchPrefixLength;
    var p := Parse(argv);
    RestIsParsed(argv);
    assert before + [SWITCH_TERMINATOR] + after == before + ([SWITCH_TERMINATOR] + after);
    RestAfterTerminator(before, [SWITCH_TERMINATOR] + after);
    RestHasNoSwitch(before);
    RestEmptyIff(before);
    AllBeforeIff(before);
    var rest := RestOf(before) + ([SWITCH_TERMINATOR] + after);
    assert p.argv[p.beginArgs] == p.argv[p.beginArgs..][0] == rest[0];
    assert RestOf(before) != [] ==> rest[0] == RestOf(before)[0] && RestOf(before)[0] in RestOf(before);
    assert forall i | 0 <= i < |before| :: before[i] in before;
  }

  // An argument before the terminator stays before it.
  lemma TerminatorSecondExample()
    ensures Parse(["p", "a", "--", "b"]).argv == ["p", "a", "--", "b"] && Parse(["p", "a", "--", "b"]).beginArgs == 1
  {
    hide TrimWhitespace;
    var t := ["a", "--", "b"];
    forall i | 0 <= i < 3
      ensures TrimWhitespace(t[i]) == t[i]
    {
      assert IsTrimmed(t[i]);
    }
    assert IsTrimmed("p");
    TrimmedAlready("p", t);
    assert ["p"] + t == ["p", "a", "--", "b"];
    assert t == ["a"] + ["--", "b"];
    RestAfterTerminator(["a"], ["--", "b"]);
    NoSwitchAlone("a");
  }

  lemma NoSwitchAlone(arg: string)
    requires GetSwitchPrefixLength(Posix, arg) == 0
    ensures SwitchesOf([arg]) == [] && RestOf([arg]) == [arg]
  {
    PartitionMore([], arg);
    assert [] + [arg] == [arg];
  }

  // On POSIX names that differ in case are different names.
  lemma CaseExample()
    ensures var switches := SwitchesFrom(map[], ["--Name"]); "Name" in switches && "name" !in switches
  {
    var arg := "--Name";
    assert Find(arg, '=') == |arg| by { FindIn(arg, '=', ""); }
    assert arg[..|arg|] == arg && Key(Posix, arg) == "Name";
    SwitchesFromSnoc(map[], [], arg);
    assert [] + [arg] == [arg];
    assert "Name"[0] != "name"[0];
  }

  predicate IsKept(s: string) {
    IsStable(s) && GetSwitchPrefixLength(Posix, s) != 0 && !HasEmptyValue(s)
  }

  lemma KeptIsYielded(switches: seq<string>)
    requires forall i | 0 <= i < |switches| :: IsKept(switches[i])
    ensures SwitchesOf(switches) == switches && RestOf(switches) == []
  {
    forall i | 0 <= i < |switches|
      ensures switches[i] != SWITCH_TERMINATOR && GetSwitchPrefixLength(Posix, switches[i]) != 0
      ensures Normal(Posix, switches[i]) == switches[i]
    {
      NormalForm(Posix, switches[i]);
    }
    AllBeforeIff(switches);
    YieldsIff(switches, switches);
    PartitionKeepsCount(switches);
  }

  lemma TrimmedAlready(program: string, t: seq<string>)
    requires IsTrimmed(program) && forall i | 0 <= i < |t| :: IsTrimmed(t[i])
    ensures Program([program] + t) == program && Arguments([program] + t) == t
  {
    hide TrimWhitespace, IsTrimmed;
    assert ([program] + t)[1..] == t;
  }

  lemma LayoutPartition(switches: seq<string>, tail: seq<string>)
    requires forall i | 0 <= i < |switches| :: IsKept(switches[i])
    requires tail != [] && tail[0] == SWITCH_TERMINATOR
    ensures SwitchesOf(switches + tail) == switches && RestOf(switches + tail) == tail
  {
    hide SwitchesOf, RestOf, IsKept;
    KeptIsYielded(switches);
    RestAfterTerminator(switches, tail);
    assert [] + tail == tail;
  }

  lemma LayoutIsTrimmed(switches: seq<string>, args: seq<string>)
    requires forall i | 0 <= i < |switches| :: IsKept(switches[i])
    requires forall i | 0 <= i < |args| :: IsTrimmed(args[i])
    ensures var t := switches + ([SWITCH_TERMINATOR] + args); forall i | 0 <= i < |t| :: IsTrimmed(t[i])
  {
    hide GetSwitchPrefixLength;
    assert IsTrimmed(SWITCH_TERMINATOR);
  }

  // Switches, the terminator and then any arguments are parsed as just that, whatever the arguments look like.
  lemma LayoutIsParsed(program: string, switches: seq<string>, args: seq<string>)
    requires IsTrimmed(program)
    requires forall i | 0 <= i < |switches| :: IsKept(switches[i])
    requires forall i | 0 <= i < |args| :: IsTrimmed(args[i])
    ensures var argv := [program] + switches + ([SWITCH_TERMINATOR] + args);
            && Parse(argv) == Parsed(argv, 1 + |switches|, SwitchesFrom(map[], switches))
            && WithoutFirst(argv[1 + |switches|..], SWITCH_TERMINATOR) == args
  {
    hide SwitchesOf, RestOf, IsKept, SwitchesFrom, WithoutFirst, Arguments, Program, IsTrimmed;
    var tail := [SWITCH_TERMINATOR] + args;
    var argv := [program] + switches + tail;
    LayoutIsTrimmed(switches, args);
    TrimmedAlready(program, switches + tail);
    assert argv == [program] + (switches + tail);
    LayoutPartition(switches, tail);
    assert argv[1 + |switches|..] == tail;
    WithoutFirstOf([], SWITCH_TERMINATOR, args);
    assert [] + [SWITCH_TERMINATOR] + args == tail && [] + args == args;
  }

  // Dropping the '=' of "--=" leaves the terminator, which ends the switches when it is parsed again.
  lemma ParseTwiceExample()
    ensures Parse(Parse(["p", "--="]).argv) != Parse(["p", "--="])
  {
    hide TrimWhitespace, SwitchesOf, RestOf, SwitchesFrom, Parse;
    var argv := ["p"] + ["--="];
    assert IsTrimmed("p") && IsTrimmed("--=");
    TrimmedAlready("p", ["--="]);
    var arg := "--=";
    assert arg[..|arg| - 1] == "--" && HasEmptyValue(arg);
    assert IsSwitchIn(["--="], 0) && IsUnstable(["--="][0]);
    ParseTwiceIff(argv);
    assert argv == ["p", "--="];
  }

  // ---------- The command line ----------

  /** argv with switches put in before position `begin`, and arguments at the end. */
  function Inserted(argv: seq<string>, begin: nat, switches: seq<string>, rest: seq<string>): seq<string>
    requires begin <= |argv|
  {
    argv[..begin] + switches + argv[begin..] + rest
  }

  lemma InsertMore(argv: seq<string>, begin: nat, switches: seq<string>, rest: seq<string>, x: string)
    requires begin <= |argv|
    ensures var argv' := Inserted(argv, begin, switches, rest); var begin' := begin + |switches|;
            && Inserted(argv', begin', [x], []) == Inserted(argv, begin, switches + [x], rest)
            && argv' + [x] == Inserted(argv, begin, switches, rest + [x])
  {
    var argv', begin' := Inserted(argv, begin, switches, rest), begin + |switches|;
    assert argv'[..begin'] == argv[..begin] + switches;
    assert argv'[begin'..] == argv[begin..] + rest;
  }

  /** What p becomes when a switch is put in after its other switches. */
  function WithSwitch(p: Parsed, name: string, value: string): Parsed
    requires p.beginArgs <= |p.argv|
  {
    Parsed(Inserted(p.argv, p.beginArgs, [Combine(Posix, name, value)], []), p.beginArgs + 1,
           p.switches[Key(Posix, name) := value])
  }

  /** What p becomes when the switches among t are put in after its own, and the rest at the end. */
  function WithArguments(p: Parsed, t: seq<string>): (p': Parsed)
    requires p.beginArgs <= |p.argv|
    ensures p'.beginArgs <= |p'.argv|
  {
    Parsed(Inserted(p.argv, p.beginArgs, SwitchesOf(t), RestOf(t)), p.beginArgs + |SwitchesOf(t)|,
           SwitchesFrom(p.switches, SwitchesOf(t)))
  }

  lemma WithNothing(p: Parsed)
    requires p.beginArgs <= |p.argv|
    ensures WithArguments(p, []) == p
  {
    assert Inserted(p.argv, p.beginArgs, [], []) == p.argv;
  }

  lemma WithOneMore(p: Parsed, t: seq<string>, arg: string)
    requires p.beginArgs <= |p.argv|
    ensures var p' := WithArguments(p, t);
            if SWITCH_TERMINATOR !in t + [arg] && IsSwitch(Posix, arg).Some? then
              var s := IsSwitch(Posix, arg).value;
              WithArguments(p, t + [arg]) == WithSwitch(p', s.name, s.value)
            else
              WithArguments(p, t + [arg]) == p'.(argv := p'.argv + [arg])
  {
    hide SwitchesOf, RestOf, SwitchesFrom, Inserted, Key, Combine;
    PartitionMore(t, arg);
    assert (t + [arg])[..|t| + 1] == t + [arg];
    InsertMore(p.argv, p.beginArgs, SwitchesOf(t), RestOf(t), arg);
    if SWITCH_TERMINATOR !in t + [arg] && IsSwitch(Posix, arg).Some? {
      var kept := Normal(Posix, arg);
      NormalIsStable(Posix, arg);
      SwitchesFromSnoc(p.switches, SwitchesOf(t), kept);
      InsertMore(p.argv, p.beginArgs, SwitchesOf(t), RestOf(t), kept);
    }
  }

  lemma ParseIsWithArguments(argv: seq<string>)
    ensures Parse(argv) == WithArguments(Parsed([Program(argv)], 1, map[]), Arguments(argv))
  {
    hide SwitchesOf, RestOf, SwitchesFrom, Program, Arguments;
    var program := [Program(argv)];
    assert program[..1] == program && program[1..] == [];
  }

  // The switches of a parsed vector come first, and its map is theirs.
  lemma ParseAgrees(argv: seq<string>)
    ensures var p := Parse(argv);
            && 1 <= p.beginArgs <= |p.argv| && p.argv[1..p.beginArgs] == SwitchesOf(Arguments(argv))
            && forall i | 1 <= i < p.beginArgs :: IsSwitch(Posix, p.argv[i]).Some?
  {
    hide SwitchesOf, RestOf, SwitchesFrom, Program, Arguments, IsSwitch;
    var p, kept := Parse(argv), SwitchesOf(Arguments(argv));
    assert p.argv[1..p.beginArgs] == kept;
    forall i | 1 <= i < p.beginArgs
      ensures IsSwitch(Posix, p.argv[i]).Some?
    {
      assert p.argv[i] == kept[i - 1];
      KeptIsSwitch(Arguments(argv), p.argv[i]);
    }
  }

  // ---------- Copying switches ----------

  /** What p becomes when the named switches of source are put in after its other switches. */
  function WithCopied(p: Parsed, source: SwitchMap, names: seq<string>): (p': Parsed)
    requires p.beginArgs <= |p.argv|
    ensures p'.beginArgs <= |p'.argv|
  {
    if names == [] then p
    else
      var n := |names| - 1;
      var before := WithCopied(p, source, names[..n]);
      if names[n] in source then WithSwitch(before, names[n], source[names[n]]) else before
  }

  // Names without a prefix are copied as they are: they hide those of the same name, and nothing else changes.
  lemma {:induction false} CopiesExactly(p: Parsed, source: SwitchMap, names: seq<string>)
    requires p.beginArgs <= |p.argv|
    requires forall k | k in names && k in source :: GetSwitchPrefixLength(Posix, k) == 0
    ensures WithCopied(p, source, names).switches == p.switches + map k | k in names && k in source :: source[k]
  {
    hide GetSwitchPrefixLength, Inserted, Combine;
    if names != [] {
      var n := |names| - 1;
      assert names == names[..n] + [names[n]];
      CopiesExactly(p, source, names[..n]);
    }
  }

  // A switch is found, with its value, under the name it was copied by, unless that name has a prefix; then it is
  // entered under another name, and found under this one only if it was there before.
  lemma CopiedIsFoundIff(p: Parsed, source: SwitchMap, name: string)
    requires p.beginArgs <= |p.argv| && name in source
    ensures var switches := WithCopied(p, source, [name]).switches;
            name in switches && switches[name] == source[name]
            <==> GetSwitchPrefixLength(Posix, name) == 0 || (name in p.switches && p.switches[name] == source[name])
  {
    assert [name][..0] == [];
    assert |Key(Posix, name)| == |name| - GetSwitchPrefixLength(Posix, name);
  }

  /** What p becomes when the named switches are copied from the command line itself, one after the other. */
  function WithSelfCopied(p: Parsed, names: seq<string>): (p': Parsed)
    requires p.beginArgs <= |p.argv|
    ensures p'.beginArgs <= |p'.argv|
  {
    if names == [] then p
    else
      var n := |names| - 1;
      var before := WithSelfCopied(p, names[..n]);
      if names[n] in before.switches then WithSwitch(before, names[n], before.switches[names[n]]) else before
  }

  // Copying names without a prefix from itself leaves the map alone.
  lemma {:induction false} SelfCopyKeepsMap(p: Parsed, names: seq<string>)
    requires p.beginArgs <= |p.argv| && forall k | k in names :: GetSwitchPrefixLength(Posix, k) == 0
    ensures WithSelfCopied(p, names).switches == p.switches
  {
    hide GetSwitchPrefixLength, Inserted, Combine;
    if names != [] {
      var n := |names| - 1;
      assert names == names[..n] + [names[n]];
      SelfCopyKeepsMap(p, names[..n]);
    }
  }

  // ---------- A command line appended to itself ----------

  /** One turn of the loop over the arguments when they are those of the command line itself. */
  function SelfTurn(p: Parsed, i: nat, isParsing: bool): (r: (Parsed, bool))
    requires p.beginArgs <= |p.argv| && i < |p.argv|
    ensures r.0.beginArgs <= |r.0.argv| == |p.argv| + 1
  {
    var arg := TrimWhitespace(p.argv[i]);
    var parse := isParsing && arg != SWITCH_TERMINATOR;
    match IsSwitch(Posix, arg)
    case Some(s) => (if parse then WithSwitch(p, s.name, s.value) else p.(argv := p.argv + [arg]), parse)
    case None => (p.(argv := p.argv + [arg]), parse)
  }

  /** The command line after n turns, and whether it is still parsing; the next argument is n + 1. */
  function SelfTurns(p: Parsed, n: nat): (r: (Parsed, bool))
    requires p.beginArgs <= |p.argv| && 1 < |p.argv|
    ensures r.0.beginArgs <= |r.0.argv| == |p.argv| + n
  {
    if n == 0 then (p, true)
    else
      var before := SelfTurns(p, n - 1);
      SelfTurn(before.0, n, before.1)
  }

  // The turns append what they have read, one argument after the other, as from another command line.
  lemma {:induction false} SelfTurnsAppend(p: Parsed, t: seq<string>)
    requires p.beginArgs <= |p.argv| && 1 < |p.argv|
    requires forall k | 0 <= k < |t| :: t[k] == TrimWhitespace(SelfTurns(p, k).0.argv[k + 1])
    ensures SelfTurns(p, |t|) == (WithArguments(p, t), "--" !in t)
  {
    hide WithArguments, TrimWhitespace, SelfTurn;
    if t == [] {
      WithNothing(p);
    } else {
      var n := |t| - 1;
      SelfTurnsAppend(p, t[..n]);
      SelfTurnAppends(p, t[..n], n + 1);
      assert t == t[..n] + [t[n]];
    }
  }

  lemma SelfTurnAppends(p: Parsed, t: seq<string>, i: nat)
    requires p.beginArgs <= |p.argv| && i < |WithArguments(p, t).argv|
    ensures var arg := TrimWhitespace(WithArguments(p, t).argv[i]);
            SelfTurn(WithArguments(p, t), i, "--" !in t) == (WithArguments(p, t + [arg]), "--" !in t + [arg])
  {
    hide WithArguments, TrimWhitespace, WithSwitch, IsSwitch;
    WithOneMore(p, t, TrimWhitespace(WithArguments(p, t).argv[i]));
  }

  // With anything after the program, the loop never comes to an end: there is always a next argument.
  lemma SelfAppendNeverEnds(p: Parsed, n: nat)
    requires p.beginArgs <= |p.argv| && 1 < |p.argv|
    ensures n + 1 < |SelfTurns(p, n).0.argv|
  {
  }

  // ---------- The class ----------

  class CommandLine {
    var argv: seq<string>
    var beginArgs: nat
    var switches: SwitchMap

    ghost predicate Valid()
      reads this
    {
      1 <= beginArgs <= |argv|
    }

    ghost function State(): Parsed
      reads this
    {
      Parsed(argv, beginArgs, switches)
    }

    /** The map is what the switches in argv say. */
    ghost predicate Agrees()
      reads this
    {
      && Valid()
      && (forall i | 1 <= i < beginArgs :: IsSwitch(Posix, argv[i]).Some?)
      && switches == SwitchesFrom(map[], argv[1..beginArgs])
    }

    constructor NoProgram()
      ensures argv == [""] && beginArgs == 1 && switches == map[]
      ensures Agrees()
    {
      argv, beginArgs, switches := [""], 1, map[];
    }

    constructor WithProgram(program: string)
      ensures argv == [TrimWhitespace(program)] && beginArgs == 1 && switches == map[]
      ensures Agrees()
    {
      argv, beginArgs, switches := [""], 1, map[];
      new;
      SetProgram(program);
    }

    constructor FromArgv(args: seq<string>)
      ensures Parsed(argv, beginArgs, switches) == Parse(args)
      ensures Agrees()
    {
      argv, beginArgs, switches := [""], 1, map[];
      new;
      InitFromArgv(args);
    }

    method SetProgram(program: string)
      requires Valid()
      modifies `argv
      ensures Valid() && argv == old(argv)[0 := TrimWhitespace(program)]
      ensures Agrees() == old(Agrees())
    {
      argv := argv[0 := TrimWhitespace(program)];
      assert argv[1..beginArgs] == old(argv)[1..beginArgs];
      assert forall i | 1 <= i < beginArgs :: argv[i] == old(argv)[i];
    }

    method AppendSwitchNative(switchString: string, value: string)
      requires Valid()
      modifies this
      ensures Valid() && State() == WithSwitch(old(State()), switchString, value)
      // The item put in between the switches and the arguments, and the entry of the map.
      ensures argv == old(argv)[..old(beginArgs)]
                      + [(if switchString != "" && switchString[0] == '-' then switchString else "--" + switchString)
                         + (if value != "" then "=" + value else "")]
                      + old(argv)[old(beginArgs)..]
      ensures beginArgs == old(beginArgs) + 1
      ensures switches == old(switches)[(if "--" <= switchString then switchString[2..]
                                         else if "-" <= switchString then switchString[1..] else switchString) := value]
      ensures old(Agrees()) ==> (Agrees() <==> '=' !in switchString)
    {
      hide IsSwitch, GetSwitchPrefixLength, Key;
      hide Combine, Inserted;
      InsertText(old(State()), switchString, value);
      var combined := Combine(Posix, switchString, value);
      switches := switches[Key(Posix, switchString) := value];
      argv := argv[..beginArgs] + [combined] + argv[beginArgs..];
      beginArgs := beginArgs + 1;
      ghost var before := old(argv)[1..old(beginArgs)];
      assert argv[1..beginArgs] == before + [combined];
      assert forall i | 1 <= i < old(beginArgs) :: argv[i] == old(argv)[i];
      CombineThenParse(Posix, switchString, value);
      SwitchesFromSnoc(map[], before, combined);
      if '=' in switchString {
        EqualsIsInKey(switchString);
        KeyMismatch(before + [combined], Key(Posix, switchString));
      }
    }

    method AppendSwitch(switchString: string)
      requires Valid()
      modifies this
      ensures Valid() && State() == WithSwitch(old(State()), switchString, "")
      ensures argv == old(argv)[..old(beginArgs)]
                      + [if switchString != "" && switchString[0] == '-' then switchString else "--" + switchString]
                      + old(argv)[old(beginArgs)..]
      ensures old(Agrees()) ==> (Agrees() <==> '=' !in switchString)
    {
      ghost var prefixed := if switchString != "" && switchString[0] == '-' then switchString else "--" + switchString;
      assert prefixed + "" == prefixed;
      AppendSwitchNative(switchString, "");
    }

    method AppendArgNative(value: string)
      requires Valid()
      modifies `argv
      ensures Valid() && argv == old(argv) + [value]
      ensures Agrees() == old(Agrees())
    {
      argv := argv + [value];
      assert argv[1..beginArgs] == old(argv)[1..beginArgs];
      assert forall i | 1 <= i < beginArgs :: argv[i] == old(argv)[i];
    }

    method AppendSwitchesAndArguments(args: seq<string>)
      requires Valid()
      modifies this
      ensures Valid() && State() == WithArguments(old(State()), Arguments(args))
      ensures old(Agrees()) ==> Agrees()
    {
      hide WithArguments, WithSwitch, Agrees, TrimWhitespace, Key, Combine;
      ghost var all := Arguments(args);
      WithNothing(State());
      var parseSwitches := true;
      var i := 1;
      ghost var t: seq<string> := [];
      while i < |args|
        invariant 1 <= i && |t| == i - 1 <= |all| && t == all[..i - 1]
        invariant Valid() && State() == WithArguments(old(State()), t)
        invariant parseSwitches == (SWITCH_TERMINATOR !in t)
        invariant old(Agrees()) ==> Agrees()
      {
        var arg := TrimWhitespace(args[i]);
        assert arg == all[i - 1] && all[..i] == t + [arg];
        parseSwitches := parseSwitches && arg != SWITCH_TERMINATOR;
        WithOneMore(old(State()), t, arg);
        var s := IsSwitch(Posix, arg);
        if parseSwitches && s.Some? {
          NameHasNoEquals(arg);
          AppendSwitchNative(s.value.name, s.value.value);
        } else {
          AppendArgNative(arg);
        }
        t := t + [arg];
        i := i + 1;
      }
      assert t == all;
    }

    method InitFromArgv(args: seq<string>)
      modifies this
      ensures argv == Parse(args).argv && beginArgs == Parse(args).beginArgs
      ensures switches == SwitchesFrom(old(switches), SwitchesOf(Arguments(args)))
      ensures Valid() && (Agrees() <==> old(switches).Keys <= Parse(args).switches.Keys)
    {
      hide SwitchesOf, RestOf, SwitchesFrom, Arguments, TrimWhitespace, IsSwitch, Inserted;
      argv, beginArgs := [""], 1;
      SetProgram(if args == [] then "" else args[0]);
      assert args == [] ==> TrimWhitespace("") == "" by { assert IsTrimmed(""); }
      assert argv == [Program(args)];
      AppendSwitchesAndArguments(args);
      ParseIsWithArguments(args);
      ParseAgrees(args);
      LeftoversShow(old(switches), SwitchesOf(Arguments(args)));
    }

    method CopySwitchesFrom(source: CommandLine, names: seq<string>)
      requires Valid() && source.Valid()
      modifies this
      ensures Valid()
      ensures State() == if source != this then WithCopied(old(State()), source.switches, names)
                         else WithSelfCopied(old(State()), names)
      ensures old(Agrees()) && old(source.Agrees()) ==> Agrees()
    {
      hide GetSwitchPrefixLength, SwitchesFrom, WithSwitch, IsSwitch;
      var i := 0;
      while i < |names|
        invariant 0 <= i <= |names| && Valid()
        invariant State() == if source != this then WithCopied(old(State()), source.switches, names[..i])
                             else WithSelfCopied(old(State()), names[..i])
        invariant source != this ==> source.State() == old(source.State())
        invariant old(Agrees()) && old(source.Agrees()) ==> Agrees() && source.Agrees()
      {
        assert names[..i + 1][..i] == names[..i];
        if source.HasSwitch(names[i]) {
          var value := source.GetSwitchValueNative(names[i]);
          if source.Agrees() {
            KeysHaveNoEquals(source.argv[1..source.beginArgs], names[i]);
          }
          AppendSwitchNative(names[i], value);
        }
        i := i + 1;
      }
      assert names[..|names|] == names;
    }

    /** Unless it is itself, and has anything after the program: then the loop has no end. */
    method AppendArguments(other: CommandLine, includeProgram: bool)
      requires Valid() && other.Valid() && (other != this || |other.argv| == 1)
      modifies this
      ensures Valid()
      ensures var program := if includeProgram then TrimWhitespace(old(other.argv)[0]) else old(argv)[0];
              State() == WithArguments(old(State()).(argv := old(argv)[0 := program]), Arguments(old(other.argv)))
      ensures old(Agrees()) ==> Agrees()
    {
      hide Agrees, WithArguments, TrimWhitespace;
      if includeProgram {
        SetProgram(other.argv[0]);
      }
      assert argv == old(argv)[0 := argv[0]];
      assert Arguments(other.argv) == Arguments(old(other.argv));
      AppendSwitchesAndArguments(other.argv);
    }

    /** The switches in argv. */
    ghost function SwitchItems(): seq<string>
      requires Valid()
      reads this
    {
      argv[1..beginArgs]
    }

    function HasSwitch(switchString: string): (r: bool)
      reads this
      ensures r <==> switchString in switches
      ensures Agrees() ==> (r <==> exists j :: Sets(SwitchItems(), j, switchString))
    {
      IsSetIff(switches, if Agrees() then SwitchItems() else [], switchString);
      switchString in switches
    }

    /** The value of the last switch of that name, or nothing if there is none. */
    function GetSwitchValueNative(switchString: string): (r: string)
      reads this
      ensures switchString !in switches ==> r == ""
      ensures switchString in switches ==> r == switches[switchString]
      ensures Agrees() ==>
                forall j: nat | SetsLast(SwitchItems(), j, switchString) :: r == IsSwitch(Posix, SwitchItems()[j]).value.value
    {
      LastValue(switches, if Agrees() then SwitchItems() else [], switchString);
      if switchString in switches then switches[switchString] else ""
    }

    /** What comes after the switches, without the first terminator. */
    function GetArgs(): (r: seq<string>)
      requires Valid()
      reads this
      ensures "--" !in argv[beginArgs..] ==> r == argv[beginArgs..]
      ensures forall i | beginArgs <= i < |argv| && argv[i] == "--" && "--" !in argv[beginArgs..i] ::
                r == argv[beginArgs..i] + argv[i + 1..]
    {
      WithoutFirstOfTail(argv, beginArgs);
      WithoutFirst(argv[beginArgs..], SWITCH_TERMINATOR)
    }
  }

  lemma WithoutFirstOfTail(argv: seq<string>, begin: nat)
    requires begin <= |argv|
    ensures "--" !in argv[begin..] ==> WithoutFirst(argv[begin..], "--") == argv[begin..]
    ensures forall i | begin <= i < |argv| && argv[i] == "--" && "--" !in argv[begin..i] ::
              WithoutFirst(argv[begin..], "--") == argv[begin..i] + argv[i + 1..]
  {
    hide WithoutFirst;
    if "--" !in argv[begin..] {
      WithoutFirstOf(argv[begin..], "--", []);
    }
    forall i | begin <= i < |argv| && argv[i] == "--" && "--" !in argv[begin..i]
      ensures WithoutFirst(argv[begin..], "--") == argv[begin..i] + argv[i + 1..]
    {
      assert argv[begin..] == argv[begin..i] + ["--"] + argv[i + 1..];
      WithoutFirstOf(argv[begin..i], "--", argv[i + 1..]);
    }
  }

  /** args[j] is the last switch of the key. */
  ghost predicate SetsLast(args: seq<string>, j: nat, key: string) {
    Sets(args, j, key) && forall i | j < i < |args| :: !Sets(args, i, key)
  }

  lemma IsSetIff(switches: SwitchMap, args: seq<string>, key: string)
    ensures switches == SwitchesFrom(map[], args) ==> (key in switches <==> exists j :: Sets(args, j, key))
  {
    hide SwitchesFrom, IsSwitch, Key;
    var j := LastWins(args, key);
  }

  lemma LastValue(switches: SwitchMap, args: seq<string>, key: string)
    ensures switches == SwitchesFrom(map[], args) ==>
              forall j: nat | SetsLast(args, j, key) :: key in switches && switches[key] == IsSwitch(Posix, args[j]).value.value
  {
    hide SwitchesFrom, IsSwitch, Key;
    var k := LastWins(args, key);
    forall j: nat | SetsLast(args, j, key)
      ensures j == k
    {
    }
  }

  // What WithSwitch yields, written out.
  lemma InsertText(p: Parsed, name: string, value: string)
    requires p.beginArgs <= |p.argv|
    ensures var item := (if name != "" && name[0] == '-' then name else "--" + name) + (if value != "" then "=" + value else "");
            && Combine(Posix, name, value) == item
            && WithSwitch(p, name, value).argv == p.argv[..p.beginArgs] + [item] + p.argv[p.beginArgs..]
    ensures var key := if "--" <= name then name[2..] else if "-" <= name then name[1..] else name;
            WithSwitch(p, name, value).switches == p.switches[key := value]
  {
    hide Combine, Key;
    ItemText(name, value);
  }

  // What Combine and Key yield, written out.
  lemma ItemText(name: string, value: string)
    ensures Combine(Posix, name, value)
            == (if name != "" && name[0] == '-' then name else "--" + name) + (if value != "" then "=" + value else "")
    ensures Key(Posix, name) == if "--" <= name then name[2..] else if "-" <= name then name[1..] else name
  {
  }

  lemma EqualsIsInKey(name: string)
    requires '=' in name
    ensures '=' in Key(Posix, name)
  {
    var i :| 0 <= i < |name| && name[i] == '=';
    var n := GetSwitchPrefixLength(Posix, name);
    assert name[n..][i - n] == '=';
  }

  lemma KeyMismatch(args: seq<string>, key: string)
    requires '=' in key
    ensures key !in SwitchesFrom(map[], args)
  {
    if key in SwitchesFrom(map[], args) {
      KeysHaveNoEquals(args, key);
    }
  }

  lemma NameHasNoEquals(arg: string)
    requires IsSwitch(Posix, arg).Some?
    ensures '=' !in IsSwitch(Posix, arg).value.name
  {
  }

  lemma KeptIsSwitch(args: seq<string>, x: string)
    requires x in SwitchesOf(args)
    ensures IsSwitch(Posix, x).Some?
  {
    SwitchesOfElements(args, x);
    var i :| 0 <= i < |args| && IsSwitchIn(args, i) && Normal(Posix, args[i]) == x;
    NormalIsStable(Posix, args[i]);
  }
}
