/**
 Model of the Windows side of base/command_line.cc: quoting arguments for a
 command line, and the splitting of a command line by CommandLineToArgvW, which
 has to undo it. The program name, which is split by other rules, is left out.
 */
module ArgvQuoting {
  import opened Wrappers
  import opened Switches

  predicate IsBlank(c: char) {
    c == ' ' || c == '\t'
  }

  /** The characters that make an argument be quoted. */
  predicate IsSpecial(c: char) {
    c == ' ' || c == '\\' || c == '"'
  }

  predicate NeedsQuotes(arg: string) {
    exists c | c in arg :: IsSpecial(c)
  }

  function Backslashes(n: nat): (s: string)
    ensures |s| == n && forall i | 0 <= i < n :: s[i] == '\\'
  {
    seq(n, _ => '\\')
  }

  function BackslashRun(s: string): (n: nat)
    ensures n <= |s| && s[..n] == Backslashes(n) && (n < |s| ==> s[n] != '\\')
  {
    if s == [] || s[0] != '\\' then 0
    else
      var n := 1 + BackslashRun(s[1..]);
      assert s[..n] == [s[0]] + s[1..][..n - 1];
      n
  }

  lemma RunIs(s: string, n: nat)
    requires n <= |s| && (n < |s| ==> s[n] != '\\') && forall i | 0 <= i < n :: s[i] == '\\'
    ensures BackslashRun(s) == n
  {
    var k := BackslashRun(s);
    assert forall i | 0 <= i < k :: s[i] == s[..k][i];
  }

  // ---------- Quoting ----------

  lemma BackslashesAdd(m: nat, n: nat)
    ensures Backslashes(m) + Backslashes(n) == Backslashes(m + n)
  {
  }

  /** Nothing but backslashes stands between the start of s and a quote, or the end. */
  predicate QuoteIsNext(s: string) {
    var n := BackslashRun(s);
    n == |s| || s[n] == '"'
  }

  /** A quote gets a backslash; a backslash gets another if a quote, or the closing quote, comes next. */
  function Escaped(arg: string): string {
    if arg == "" then ""
    else
      (if arg[0] == '"' || (arg[0] == '\\' && QuoteIsNext(arg)) then ['\\', arg[0]] else [arg[0]]) + Escaped(arg[1..])
  }

  function Quoted(arg: string): string {
    if NeedsQuotes(arg) then "\"" + Escaped(arg) + "\"" else arg
  }

  lemma RunOfTail(arg: string)
    requires BackslashRun(arg) > 0
    ensures BackslashRun(arg[1..]) == BackslashRun(arg) - 1 && QuoteIsNext(arg[1..]) == QuoteIsNext(arg)
  {
    assert arg[0] == '\\';
  }

  lemma EscapedBackslash(arg: string)
    requires BackslashRun(arg) > 0
    ensures Escaped(arg) == Backslashes(if QuoteIsNext(arg) then 2 else 1) + Escaped(arg[1..])
  {
    assert arg[0] == '\\';
    assert Backslashes(2) == ['\\', '\\'] && Backslashes(1) == ['\\'];
  }

  lemma {:induction false} EscapedRun(arg: string)
    ensures var n := BackslashRun(arg);
            Escaped(arg) == Backslashes(if QuoteIsNext(arg) then 2 * n else n) + Escaped(arg[n..])
  {
    hide QuoteIsNext, Escaped, BackslashRun, Backslashes;
    var n := BackslashRun(arg);
    if n > 0 {
      RunOfTail(arg);
      EscapedBackslash(arg);
      EscapedRun(arg[1..]);
      assert arg[1..][n - 1..] == arg[n..];
      if QuoteIsNext(arg) {
        BackslashesAdd(2, 2 * n - 2);
      } else {
        BackslashesAdd(1, n - 1);
      }
    } else {
      assert arg[0..] == arg && |Backslashes(0)| == 0;
    }
  }

  lemma EscapedOther(arg: string)
    requires arg != "" && arg[0] != '\\'
    ensures Escaped(arg) == (if arg[0] == '"' then "\\\"" else [arg[0]]) + Escaped(arg[1..])
  {
  }

  lemma {:induction false} NothingToEscape(arg: string)
    requires '\\' !in arg && '"' !in arg
    ensures Escaped(arg) == arg
  {
    if arg != "" {
      EscapedOther(arg);
      NothingToEscape(arg[1..]);
    }
  }

  // Quotes go around an argument with a space, a backslash or a quote; any other is left alone.
  lemma QuotedText(arg: string)
    ensures if ' ' in arg || '\\' in arg || '"' in arg
            then |Quoted(arg)| >= 2 && Quoted(arg)[0] == Quoted(arg)[|Quoted(arg)| - 1] == '"'
            else Quoted(arg) == arg
    ensures ' ' in arg && '\\' !in arg && '"' !in arg ==> Quoted(arg) == "\"" + arg + "\""
  {
    hide Escaped;
    assert IsSpecial(' ') && IsSpecial('\\') && IsSpecial('"');
    if '\\' !in arg && '"' !in arg {
      NothingToEscape(arg);
    }
  }

  // A quote comes out as \", a backslash doubled where a quote comes next, and alone elsewhere.
  lemma QuotedExample()
    ensures Quoted("\\\"") == "\"\\\\\\\"\""
    ensures Quoted("\\a\\") == "\"\\a\\\\\""
  {
    hide NeedsQuotes, QuoteIsNext;
    var s, t := "\\\"", "\\a\\";
    assert NeedsQuotes(s) && NeedsQuotes(t) && QuoteIsNext(s) && !QuoteIsNext(t) && QuoteIsNext("\\")
    by { QuotesAreNext(s, t); }
    assert s[1..] == "\"" && Escaped(s) == "\\\\" + Escaped("\"");
    assert t[1..] == "a\\" && "a\\"[1..] == "\\";
    assert Escaped("\\") == "\\\\";
    assert Escaped(t) == "\\a" + Escaped("\\");
  }

  lemma QuotesAreNext(s: string, t: string)
    requires s == "\\\"" && t == "\\a\\"
    ensures NeedsQuotes(s) && NeedsQuotes(t) && QuoteIsNext(s) && !QuoteIsNext(t) && QuoteIsNext("\\")
  {
    assert IsSpecial(s[0]) && IsSpecial(t[0]);
    RunIs(s, 1);
    RunIs(t, 1);
    RunIs("\\", 1);
  }

  method QuoteForCommandLineToArgvW(arg: string) returns (out: string)
    ensures out == Quoted(arg)
  {
    hide Escaped, BackslashRun;
    if !NeedsQuotes(arg) {
      return arg;
    }
    out := "\"";
    var i := 0;
    while i < |arg|
      invariant 0 <= i <= |arg|
      invariant out + Escaped(arg[i..]) == "\"" + Escaped(arg)
    {
      ghost var before := out;
      if arg[i] == '\\' {
        var start, end := i, i + 1;
        while end < |arg| && arg[end] == '\\'
          invariant start < end <= |arg| && forall k | start <= k < end :: arg[k] == '\\'
        {
          end := end + 1;
        }
        var backslashCount := end - start;
        RunIs(arg[start..], backslashCount);
        EscapedRun(arg[start..]);
        assert arg[start..][backslashCount..] == arg[end..];
        if end == |arg| || arg[end] == '"' {
          backslashCount := backslashCount * 2;
        }
        var j := 0;
        while j < backslashCount
          invariant 0 <= j <= backslashCount && out == before + Backslashes(j)
        {
          BackslashesAdd(j, 1);
          out := out + "\\";
          j := j + 1;
        }
        assert Escaped(arg[start..]) == Backslashes(backslashCount) + Escaped(arg[end..]);
        i := end - 1;
      } else {
        EscapedOther(arg[i..]);
        assert arg[i..][1..] == arg[i + 1..];
        if arg[i] == '"' {
          out := out + "\\" + "\"";
        } else {
          out := out + [arg[i]];
        }
      }
      i := i + 1;
    }
    assert Escaped(arg[i..]) == "" by { EscapedOfNothing(arg[i..]); }
    out := out + "\"";
  }

  lemma EscapedOfNothing(arg: string)
    requires arg == ""
    ensures Escaped(arg) == ""
  {
  }

  // ---------- Splitting ----------

  /** s begins with backslashes, if any, and a quote. */
  predicate QuoteFollows(s: string) {
    BackslashRun(s) < |s| && s[BackslashRun(s)] == '"'
  }

  /**
   Reads one argument off s: what it is, and what follows it. Of 2n backslashes
   before a quote n are kept and the quote begins or ends a quoted part; of 2n+1
   also n, and the quote is kept. A blank outside of quoted parts ends the argument.
   */
  function Token(s: string, quoted: bool): (r: (string, string))
    ensures |r.1| <= |s|
    ensures s != "" && (quoted || !IsBlank(s[0])) ==> |r.1| < |s|
  {
    if s == "" || (!quoted && IsBlank(s[0])) then ("", s)
    else
      var n := BackslashRun(s);
      if QuoteFollows(s) then
        var t := Token(s[n + 1..], quoted == (n % 2 == 1));
        (Unescaped(n) + t.0, t.1)
      else
        var t := Token(s[1..], quoted);
        ([s[0]] + t.0, t.1)
  }

  /** What n backslashes and a quote stand for. */
  function Unescaped(n: nat): (s: string)
    ensures |s| <= n
    ensures forall i | 0 <= i < |s| :: IsMark(s[i])
  {
    Backslashes(n / 2) + (if n % 2 == 1 then "\"" else "")
  }

  function SkipBlanks(s: string): (r: string)
    ensures |r| <= |s| && (r != "" ==> !IsBlank(r[0]))
  {
    if s != "" && IsBlank(s[0]) then SkipBlanks(s[1..]) else s
  }

  function Split(s: string): seq<string>
    decreases |s|
  {
    var s' := SkipBlanks(s);
    if s' == "" then []
    else
      var t := Token(s', false);
      [t.0] + Split(t.1)
  }

  predicate IsMark(c: char) {
    c == '\\' || c == '"'
  }

  /** Where an argument may end: nothing that quoting could be confused by. */
  predicate IsEnd(rest: string) {
    rest == "" || IsBlank(rest[0])
  }

  predicate IsNoMark(rest: string) {
    rest == "" || !IsMark(rest[0])
  }

  // ---------- Splitting undoes quoting ----------

  lemma TokenOfRun(n: nat, s: string, quoted: bool)
    ensures var t := Token(s, quoted == (n % 2 == 1));
            Token(Backslashes(n) + "\"" + s, quoted) == (Unescaped(n) + t.0, t.1)
  {
    var s' := Backslashes(n) + "\"" + s;
    RunIs(s', n);
    assert s'[n + 1..] == s;
  }

  lemma TokenOfOther(c: char, s: string, quoted: bool)
    requires c != '"' && (quoted || !IsBlank(c))
    requires c == '\\' ==> !QuoteFollows(s)
    ensures var t := Token(s, quoted);
            Token([c] + s, quoted) == ([c] + t.0, t.1)
  {
    hide BackslashRun;
    assert ([c] + s)[1..] == s;
    NoQuoteFollows(c, s);
  }

  lemma NoQuoteFollows(c: char, s: string)
    requires c != '"' && (c == '\\' ==> !QuoteFollows(s))
    ensures !QuoteFollows([c] + s)
  {
    assert ([c] + s)[1..] == s;
  }

  lemma UnescapedRun(n: nat)
    ensures Unescaped(2 * n) == Backslashes(n)
    ensures Unescaped(2 * n + 1) == Backslashes(n) + "\""
  {
  }

  // Splitting undoes escaping.
  lemma {:induction false} TokenOfEscaped(arg: string, rest: string)
    ensures var t := Token(rest, false);
            Token(Escaped(arg) + "\"" + rest, true) == (arg + t.0, t.1)
    decreases |arg|
  {
    hide Escaped, Token, Unescaped, Backslashes, BackslashRun, QuoteFollows;
    var n := BackslashRun(arg);
    ghost var t := Token(rest, false);
    if QuoteIsNext(arg) {
      EscapedRun(arg);
      UnescapedRun(n);
      if n == |arg| {
        EscapedOfNothing(arg[n..]);
        TokenOfRun(2 * n, rest, true);
        assert Escaped(arg) + "\"" + rest == Backslashes(2 * n) + "\"" + rest;
        assert arg == Backslashes(n);
      } else {
        var after := arg[n + 1..];
        EscapedOther(arg[n..]);
        assert arg[n..][1..] == after;
        EscapedQuote(n, Escaped(after), rest);
        TokenOfRun(2 * n + 1, Escaped(after) + "\"" + rest, true);
        TokenOfEscaped(after, rest);
        assert arg + t.0 == Backslashes(n) + "\"" + (after + t.0);
      }
    } else {
      var after := arg[1..];
      TokenOfEscaped(after, rest);
      EscapedUnchanged(arg);
      NoQuoteFollowsEscaped(arg, rest);
      assert Escaped(arg) + "\"" + rest == [arg[0]] + (Escaped(after) + "\"" + rest);
      TokenOfOther(arg[0], Escaped(after) + "\"" + rest, true);
      assert arg + t.0 == [arg[0]] + (after + t.0);
    }
  }

  lemma EscapedQuote(n: nat, escaped: string, rest: string)
    ensures Backslashes(2 * n) + ("\\\"" + escaped) + "\"" + rest
            == Backslashes(2 * n + 1) + "\"" + (escaped + "\"" + rest)
  {
    BackslashesAdd(2 * n, 1);
    assert "\\\"" == Backslashes(1) + "\"";
  }

  lemma EscapedUnchanged(arg: string)
    requires !QuoteIsNext(arg)
    ensures arg != "" && arg[0] != '"' && Escaped(arg) == [arg[0]] + Escaped(arg[1..])
  {
  }

  lemma NoQuoteFollowsEscaped(arg: string, rest: string)
    requires !QuoteIsNext(arg)
    ensures arg[0] == '\\' ==> !QuoteFollows(Escaped(arg[1..]) + "\"" + rest)
  {
    if arg[0] == '\\' {
      var after := arg[1..];
      var n := BackslashRun(after);
      RunOfTail(arg);
      EscapedRun(after);
      hide BackslashRun;
      assert Escaped(after[n..])[0] == after[n] by { EscapedOther(after[n..]); }
      RunIs(Escaped(after) + "\"" + rest, n);
    }
  }

  lemma NoQuoteFollowsLiteral(x: string, rest: string)
    requires '"' !in x
    requires IsNoMark(rest) || (x != "" && x[|x| - 1] != '\\')
    ensures !QuoteFollows(x + rest)
  {
    var n := BackslashRun(x + rest);
    assert forall i | 0 <= i < |x| :: (x + rest)[i] == x[i] && x[i] in x;
    assert rest != "" ==> (x + rest)[|x|] == rest[0];
    assert forall i | 0 <= i < n :: (x + rest)[i] == (x + rest)[..n][i];
  }

  // Text without blanks and quotes is read as it is, up to what may end it, or begin a quoted part.
  lemma {:induction false} TokenOfLiteral(x: string, rest: string)
    requires '"' !in x && forall c | c in x :: !IsBlank(c)
    requires IsNoMark(rest) || (x != "" && x[|x| - 1] != '\\')
    ensures var t := Token(rest, false);
            Token(x + rest, false) == (x + t.0, t.1)
  {
    hide Token, QuoteFollows;
    if x == "" {
      assert x + rest == rest && x + Token(rest, false).0 == Token(rest, false).0;
    } else {
      var x' := x[1..];
      assert x == [x[0]] + x';
      assert x + rest == [x[0]] + (x' + rest);
      if x' == "" {
        assert x' + rest == rest && x' + Token(rest, false).0 == Token(rest, false).0;
        if x[0] == '\\' {
          NoQuoteFollowsLiteral("", rest);
        }
      } else {
        TokenOfLiteral(x', rest);
        NoQuoteFollowsLiteral(x', rest);
      }
      TokenOfOther(x[0], x' + rest, false);
      assert x + Token(rest, false).0 == [x[0]] + (x' + Token(rest, false).0);
    }
  }

  /** Quoting guards the argument: it is there, and a tab, which is not quoted for, comes with something that is. */
  predicate IsSafe(arg: string) {
    arg != "" && ('\t' in arg ==> NeedsQuotes(arg))
  }

  lemma TokenOfEnd(rest: string)
    requires IsEnd(rest)
    ensures Token(rest, false) == ("", rest)
  {
  }

  lemma TokenOfQuoted(arg: string, rest: string)
    requires IsEnd(rest) && ('\t' in arg ==> NeedsQuotes(arg))
    ensures Token(Quoted(arg) + rest, false) == (arg, rest)
  {
    hide Escaped, Token;
    TokenOfEnd(rest);
    assert arg + "" == arg;
    if NeedsQuotes(arg) {
      TokenOfRun(0, Escaped(arg) + "\"" + rest, false);
      assert Unescaped(0) == "" && Backslashes(0) == "" && "" + arg == arg;
      assert Quoted(arg) + rest == Backslashes(0) + "\"" + (Escaped(arg) + "\"" + rest);
      TokenOfEscaped(arg, rest);
    } else {
      TokenOfLiteral(arg, rest);
    }
  }

  // ---------- The command line ----------

  /** How an argument goes on the command line; only the value of a switch is quoted, and its '=' goes if it is empty. */
  function Item(arg: string, isParsing: bool): string {
    var s := if isParsing then IsSwitch(Windows, arg) else None;
    match s
    case None => Quoted(arg)
    case Some(s) => s.name + (if s.value != "" then "=" + Quoted(s.value) else "")
  }

  /** The command line after the program. */
  function Tail(args: seq<string>, isParsing: bool): string {
    if args == [] then ""
    else
      var parse := isParsing && args[0] != SWITCH_TERMINATOR;
      " " + Item(args[0], parse) + Tail(args[1..], parse)
  }

  method GetCommandLineString(argv: seq<string>) returns (out: string)
    requires argv != []
    ensures out == Quoted(argv[0]) + Tail(argv[1..], true)
  {
    hide Item, Quoted, IsSwitch, Tail;
    out := QuoteForCommandLineToArgvW(argv[0]);
    var parseSwitches := true;
    var i := 1;
    while i < |argv|
      invariant 1 <= i <= |argv|
      invariant out + Tail(argv[i..], parseSwitches) == Quoted(argv[0]) + Tail(argv[1..], true)
    {
      ghost var before, wasParsing := out, parseSwitches;
      var arg := argv[i];
      parseSwitches := parseSwitches && arg != SWITCH_TERMINATOR;
      out := out + " ";
      var s := IsSwitch(Windows, arg);
      ItemParts(arg, parseSwitches);
      if parseSwitches && s.Some? {
        out := out + s.value.name;
        if s.value.value != "" {
          var quoted := QuoteForCommandLineToArgvW(s.value.value);
          out := out + ("=" + quoted);
        }
      } else {
        var quoted := QuoteForCommandLineToArgvW(arg);
        out := out + quoted;
      }
      assert out == before + (" " + Item(arg, parseSwitches));
      TailStep(argv, i, wasParsing);
      i := i + 1;
    }
    TailDone(argv[i..], parseSwitches);
  }

  lemma TailStep(argv: seq<string>, i: nat, isParsing: bool)
    requires i < |argv|
    ensures var parse := isParsing && argv[i] != SWITCH_TERMINATOR;
            Tail(argv[i..], isParsing) == " " + Item(argv[i], parse) + Tail(argv[i + 1..], parse)
  {
    assert argv[i..][1..] == argv[i + 1..];
  }

  // An argument with nothing to quote goes on the command line as it is, after one blank.
  lemma TailOfPlain(arg: string, args: seq<string>, isParsing: bool)
    requires ' ' !in arg && '\\' !in arg && '"' !in arg && (arg != "" ==> arg[|arg| - 1] != '=')
    ensures Tail([arg] + args, isParsing) == " " + arg + Tail(args, isParsing && arg != "--")
  {
    hide Quoted, IsSwitch, Tail, HasEmptyValue;
    var parse := isParsing && arg != "--";
    TailStep([arg] + args, 0, isParsing);
    assert ([arg] + args)[0..] == [arg] + args && ([arg] + args)[1..] == args;
    ItemParts(arg, parse);
    QuotedText(arg);
    if parse && IsSwitch(Windows, arg).Some? {
      SwitchParts(arg);
      var s := IsSwitch(Windows, arg).value;
      if s.value != "" {
        assert forall c | c in s.value :: c in arg;
        QuotedText(s.value);
      } else {
        assert HasEmptyValue(arg) ==> arg == s.name + "=";
      }
    }
  }

  // Of a switch the value is quoted, and the name is not.
  lemma TailOfSwitch(name: string, value: string, args: seq<string>)
    requires name != "" && name[0] in "-/" && '=' !in name && value != ""
    ensures Tail([name + "=" + value] + args, true) == " " + name + "=" + Quoted(value) + Tail(args, true)
  {
    hide Quoted, IsSwitch, Tail;
    var arg := name + "=" + value;
    CombineThenParse(Windows, name, value);
    assert Combine(Windows, name, value) == arg;
    TailStep([arg] + args, 0, true);
    assert ([arg] + args)[0..] == [arg] + args && ([arg] + args)[1..] == args;
    ItemParts(arg, true);
    assert arg[|name|] == '=';
  }

  lemma TailDone(args: seq<string>, isParsing: bool)
    requires args == []
    ensures Tail(args, isParsing) == ""
  {
  }

  lemma ItemParts(arg: string, isParsing: bool)
    ensures isParsing && IsSwitch(Windows, arg).Some? ==>
              var s := IsSwitch(Windows, arg).value;
              Item(arg, isParsing) == s.name + (if s.value != "" then "=" + Quoted(s.value) else "")
    ensures !(isParsing && IsSwitch(Windows, arg).Some?) ==> Item(arg, isParsing) == Quoted(arg)
  {
    hide Quoted;
  }

  // ---------- Which arguments survive ----------

  /** The name of a switch is never quoted, and the '=' of an empty value is lost. */
  predicate Survives(arg: string, isParsing: bool) {
    if isParsing && IsSwitch(Windows, arg).Some? then
      var s := IsSwitch(Windows, arg).value;
      && !HasBlankOrQuote(s.name)
      && !HasEmptyValue(arg)
      && ('\t' in s.value ==> NeedsQuotes(s.value))
    else
      IsSafe(arg)
  }

  predicate HasBlankOrQuote(name: string) {
    ' ' in name || '\t' in name || '"' in name
  }

  predicate AllSurvive(args: seq<string>, isParsing: bool) {
    args == []
    || (var parse := isParsing && args[0] != SWITCH_TERMINATOR; Survives(args[0], parse) && AllSurvive(args[1..], parse))
  }

  lemma TailIsEnd(args: seq<string>, isParsing: bool)
    ensures IsEnd(Tail(args, isParsing))
  {
  }

  lemma SplitBlank(c: char, s: string)
    requires IsBlank(c)
    ensures Split([c] + s) == Split(s)
  {
    assert ([c] + s)[1..] == s;
  }

  lemma SplitToken(s: string)
    requires s != "" && !IsBlank(s[0])
    ensures Split(s) == [Token(s, false).0] + Split(Token(s, false).1)
  {
  }

  lemma SwitchParts(arg: string)
    requires IsSwitch(Windows, arg).Some?
    ensures var s := IsSwitch(Windows, arg).value;
            && s.name != "" && (s.name[0] == '-' || s.name[0] == '/') && s.name[0] == arg[0]
            && (if s.value != "" then arg == s.name + "=" + s.value
                else if HasEmptyValue(arg) then arg == s.name + "=" else arg == s.name)
  {
    PrefixOfName(Windows, arg);
    var i := Find(arg, '=');
    hide Find;
    if i < |arg| {
      assert arg == arg[..i] + "=" + arg[i + 1..];
      assert i == |arg| - 1 ==> HasEmptyValue(arg);
    } else {
      assert arg[..i] == arg;
      assert arg[|arg| - 1] in arg;
    }
  }

  lemma TokenOfItem(arg: string, isParsing: bool, rest: string)
    requires Survives(arg, isParsing) && IsEnd(rest)
    ensures Token(Item(arg, isParsing) + rest, false) == (arg, rest)
    ensures Item(arg, isParsing) != "" && !IsBlank(Item(arg, isParsing)[0])
  {
    hide IsSwitch, Quoted, Token, HasEmptyValue;
    ItemParts(arg, isParsing);
    TokenOfEnd(rest);
    if isParsing && IsSwitch(Windows, arg).Some? {
      SwitchParts(arg);
      var s := IsSwitch(Windows, arg).value;
      if s.value == "" {
        TokenOfLiteral(s.name, rest);
        assert arg + "" == arg;
      } else {
        TokenOfQuoted(s.value, rest);
        TokenOfLiteral(s.name + "=", Quoted(s.value) + rest);
        assert Item(arg, isParsing) + rest == s.name + "=" + (Quoted(s.value) + rest);
      }
    } else {
      TokenOfQuoted(arg, rest);
      QuotedStart(arg);
    }
  }

  lemma QuotedStart(arg: string)
    requires IsSafe(arg)
    ensures Quoted(arg) != "" && !IsBlank(Quoted(arg)[0])
  {
    if !NeedsQuotes(arg) {
      assert arg[0] in arg;
    }
  }

  // ---------- Which do not ----------

  lemma RunChars(s: string)
    ensures forall i | 0 <= i < BackslashRun(s) :: s[i] == '\\'
  {
    var n := BackslashRun(s);
    forall i | 0 <= i < n
      ensures s[i] == '\\'
    {
      assert s[i] == s[..n][i];
    }
  }

  lemma MarkIsInside(u: string, rest: string)
    requires IsNoMark(rest) && QuoteFollows(u + rest)
    ensures var k := BackslashRun(u + rest);
            && k < |u| && (forall i | 0 <= i < k + 1 :: IsMark(u[i]))
            && (u + rest)[k + 1..] == u[k + 1..] + rest
  {
    hide BackslashRun;
    var k, s := BackslashRun(u + rest), u + rest;
    RunChars(s);
    assert rest != "" ==> s[|u|] == rest[0];
    assert forall i | 0 <= i < |u| :: s[i] == u[i];
  }

  lemma DropPrefix(e: string, t: string, n: nat)
    requires n <= |e| && n <= |t|
    ensures e <= t ==> e[n..] <= t[n..]
  {
  }

  /** What is left to be matched of marks and u once a run of u is read. */
  function MarksLeft(marks: string, u: string, k: nat): (left: string)
    requires k < |u|
    ensures left != "" && |left| <= |marks| + k + 1
  {
    (marks + u[..k + 1])[|Unescaped(k)|..]
  }

  lemma MarksLeftAre(marks: string, u: string, k: nat)
    requires k < |u| && (forall i | 0 <= i < k + 1 :: IsMark(u[i])) && forall i | 0 <= i < |marks| :: IsMark(marks[i])
    ensures forall i | 0 <= i < |MarksLeft(marks, u, k)| :: IsMark(MarksLeft(marks, u, k)[i])
    ensures (marks + u)[|Unescaped(k)|..] == MarksLeft(marks, u, k) + u[k + 1..]
  {
    var n := |Unescaped(k)|;
    assert marks + u == marks + u[..k + 1] + u[k + 1..];
    assert forall i | 0 <= i < |MarksLeft(marks, u, k)| :: MarksLeft(marks, u, k)[i] == (marks + u[..k + 1])[i + n];
  }

  lemma TokenAfterRun(s: string, quoted: bool)
    requires QuoteFollows(s)
    ensures var k := BackslashRun(s); var out := Unescaped(k);
            var t := Token(s, quoted).0;
            |out| <= |t| && t[|out|..] == Token(s[k + 1..], quoted == (k % 2 == 1)).0
  {
    RunChars(s);
  }

  lemma TokenAfterOther(s: string, quoted: bool)
    requires !QuoteFollows(s) && s != "" && (quoted || !IsBlank(s[0]))
    ensures var t := Token(s, quoted).0;
            t != "" && t[0] == s[0] && t[1..] == Token(s[1..], quoted).0
  {
  }

  lemma StartDiffers(marks: string, u: string, rest: string)
    requires marks != "" && IsMark(marks[0]) && IsNoMark(rest)
    requires u + rest != "" && !QuoteFollows(u + rest) && (u == "" || u[0] != '\\')
    ensures (marks + u)[0] != (u + rest)[0]
  {
    NoRunNoQuote(u + rest);
  }

  lemma MarkMovesOn(marks: string, u: string)
    requires marks != "" && u != "" && u[0] == '\\' && forall i | 0 <= i < |marks| :: IsMark(marks[i])
    ensures var left := marks[1..] + "\\";
            (marks + u)[1..] == left + u[1..] && forall i | 0 <= i < |left| :: IsMark(left[i])
  {
  }

  // What is read of u lags behind u once a mark was dropped: it never catches up.
  lemma {:induction false} TokenLags(marks: string, u: string, rest: string, quoted: bool)
    requires marks != "" && forall i | 0 <= i < |marks| :: IsMark(marks[i])
    requires IsNoMark(rest)
    ensures !(marks + u <= Token(u + rest, quoted).0)
    decreases |u|
  {
    hide BackslashRun, Unescaped, QuoteFollows, IsMark;
    var s := u + rest;
    var t := Token(s, quoted).0;
    if s == "" || (!quoted && IsBlank(s[0])) {
      assert t == "";
    } else {
      hide Token;
      if QuoteFollows(s) {
        var k := BackslashRun(s);
        MarkIsInside(u, rest);
        MarksLeftAre(marks, u, k);
        hide MarksLeft;
        TokenLags(MarksLeft(marks, u, k), u[k + 1..], rest, quoted == (k % 2 == 1));
        TokenAfterRun(s, quoted);
        DropPrefix(marks + u, t, |Unescaped(k)|);
      } else {
        TokenAfterOther(s, quoted);
        if u != "" && u[0] == '\\' {
          assert s[1..] == u[1..] + rest;
          MarkMovesOn(marks, u);
          TokenLags(marks[1..] + "\\", u[1..], rest, quoted);
          DropPrefix(marks + u, t, 1);
        } else {
          StartDiffers(marks, u, rest);
        }
      }
    }
  }

  lemma NoRunNoQuote(s: string)
    requires s != "" && !QuoteFollows(s)
    ensures s[0] != '"'
  {
    if s[0] == '"' {
      RunIs(s, 0);
    }
  }

  // A run with its quote is never read as it is.
  lemma RunIsLost(u: string, rest: string, quoted: bool)
    requires IsNoMark(rest) && QuoteFollows(u + rest)
    ensures !(u <= Token(u + rest, quoted).0)
  {
    hide BackslashRun, Unescaped, QuoteFollows, Token, IsMark;
    var s := u + rest;
    var k := BackslashRun(s);
    MarkIsInside(u, rest);
    MarksLeftAre("", u, k);
    assert "" + u == u;
    hide MarksLeft;
    TokenLags(MarksLeft("", u, k), u[k + 1..], rest, quoted == (k % 2 == 1));
    TokenAfterRun(s, quoted);
    UnescapedIsShort(u, k);
    DropPrefix(u, Token(s, quoted).0, |Unescaped(k)|);
  }

  // A quote is never read as it is.
  lemma {:induction false} QuoteIsLost(u: string, rest: string, quoted: bool)
    requires '"' in u && IsNoMark(rest)
    ensures !(u <= Token(u + rest, quoted).0)
  {
    hide BackslashRun, QuoteFollows, IsMark;
    var s := u + rest;
    var t := Token(s, quoted).0;
    if !quoted && IsBlank(s[0]) {
      assert t == "";
    } else {
      hide Token;
      if QuoteFollows(s) {
        RunIsLost(u, rest, quoted);
      } else {
        NoRunNoQuote(s);
        assert s[1..] == u[1..] + rest;
        assert s[0] == u[0] && u == [u[0]] + u[1..];
        QuoteIsLost(u[1..], rest, quoted);
        TokenAfterOther(s, quoted);
        DropPrefix(u, t, 1);
      }
    }
  }

  lemma UnescapedIsShort(u: string, k: nat)
    requires k < |u|
    ensures |Unescaped(k)| <= |u|
  {
  }

  // Without a quote, text is read up to its first blank.
  lemma {:induction false} BlankIsLost(u: string, rest: string)
    requires '"' !in u && (exists c | c in u :: IsBlank(c))
    ensures !(u <= Token(u + rest, false).0)
  {
    hide BackslashRun, QuoteFollows;
    var s := u + rest;
    var t := Token(s, false).0;
    if IsBlank(u[0]) {
      assert t == "";
    } else {
      hide Token;
      BlankComesFirst(u, rest);
      assert s[1..] == u[1..] + rest;
      BlankIsLost(u[1..], rest);
      TokenAfterOther(s, false);
      DropPrefix(u, t, 1);
    }
  }

  lemma BlankComesFirst(u: string, rest: string)
    requires '"' !in u && (exists c | c in u :: IsBlank(c))
    ensures !QuoteFollows(u + rest)
  {
    hide BackslashRun;
    var s := u + rest;
    RunChars(s);
    var i :| 0 <= i < |u| && IsBlank(u[i]);
    assert s[i] == u[i];
    assert forall j | 0 <= j < |u| :: s[j] == u[j] && u[j] in u;
  }

  // ---------- A command line is split into what it was made of ----------

  /** The arguments read do not begin with arg. */
  predicate BeginsOtherwise(args: seq<string>, arg: string) {
    args == [] || args[0] != arg
  }

  predicate IsSolid(arg: string) {
    exists i | 0 <= i < |arg| :: arg[i] != '\t'
  }

  lemma TokenStart(s: string)
    requires s != "" && !IsBlank(s[0]) && !IsMark(s[0])
    ensures Token(s, false).0 != "" && Token(s, false).0[0] == s[0]
  {
    RunIs(s, 0);
  }

  // Unquoted text that is not all tabs yields an argument that begins with no tab.
  lemma {:induction false} TabsAreSkipped(u: string, rest: string)
    requires !NeedsQuotes(u)
    ensures if IsSolid(u) then Split(u + rest) != [] && Split(u + rest)[0] != "" && Split(u + rest)[0][0] != '\t'
            else Split(u + rest) == Split(rest)
  {
    if u == "" {
      assert u + rest == rest;
    } else {
      assert u + rest == [u[0]] + (u[1..] + rest);
      assert u[0] in u;
      if u[0] == '\t' {
        hide Split, Token;
        assert forall c | c in u[1..] :: c in u;
        SplitBlank('\t', u[1..] + rest);
        TabsAreSkipped(u[1..], rest);
        assert IsSolid(u) == IsSolid(u[1..]) by { TabIsNotSolid(u); }
      } else {
        SplitToken(u + rest);
        TokenStart(u + rest);
      }
    }
  }

  lemma TabIsNotSolid(u: string)
    requires u != "" && u[0] == '\t'
    ensures IsSolid(u) == IsSolid(u[1..])
  {
    assert forall i | 0 < i < |u| :: u[i] == u[1..][i - 1];
  }

  lemma SpecialIsSolid(arg: string)
    requires NeedsQuotes(arg)
    ensures IsSolid(arg)
  {
    var c :| c in arg && IsSpecial(c);
    var i :| 0 <= i < |arg| && arg[i] == c;
  }

  lemma SwitchStart(arg: string, isParsing: bool, rest: string)
    requires isParsing && IsSwitch(Windows, arg).Some?
    ensures var r := Split(Item(arg, isParsing) + rest);
            r != [] && r[0] == Token(Item(arg, isParsing) + rest, false).0
            && r[0] != "" && r[0][0] != '\t'
  {
    hide Quoted, IsSwitch, Token, Split;
    SwitchParts(arg);
    ItemParts(arg, isParsing);
    SplitToken(Item(arg, isParsing) + rest);
    TokenStart(Item(arg, isParsing) + rest);
  }

  // The first argument read is never empty, nor all tabs.
  lemma {:induction false} FirstIsSolid(args: seq<string>, isParsing: bool)
    ensures var r := Split(Tail(args, isParsing)); r == [] || IsSolid(r[0])
  {
    hide Token, Split, Quoted, IsSwitch, Item;
    if args == [] {
      NothingToSplit();
    } else {
      var arg, parse := args[0], isParsing && args[0] != SWITCH_TERMINATOR;
      var rest := Tail(args[1..], parse);
      TailIsEnd(args[1..], parse);
      assert Tail(args, isParsing) == " " + (Item(arg, parse) + rest);
      SplitBlank(' ', Item(arg, parse) + rest);
      ItemParts(arg, parse);
      if parse && IsSwitch(Windows, arg).Some? {
        SwitchStart(arg, parse, rest);
      } else if NeedsQuotes(arg) {
        TokenOfQuoted(arg, rest);
        assert Quoted(arg) != "" && !IsBlank(Quoted(arg)[0]) by { QuotesComeFirst(arg); }
        SplitToken(Quoted(arg) + rest);
        SpecialIsSolid(arg);
      } else {
        NotQuoted(arg);
        TabsAreSkipped(arg, rest);
        FirstIsSolid(args[1..], parse);
      }
    }
  }

  lemma NothingToSplit()
    ensures Split("") == []
  {
  }

  lemma QuotesComeFirst(arg: string)
    requires NeedsQuotes(arg)
    ensures Quoted(arg) != "" && Quoted(arg)[0] == '"'
  {
  }

  lemma NotQuoted(arg: string)
    requires !NeedsQuotes(arg)
    ensures Quoted(arg) == arg && '"' !in arg
  {
  }

  // A switch that does not survive is not what is read first.
  lemma BadSwitchIsLost(arg: string, rest: string)
    requires IsSwitch(Windows, arg).Some? && !Survives(arg, true) && IsEnd(rest)
    ensures Token(Item(arg, true) + rest, false).0 != arg
  {
    hide Token, Quoted, IsSwitch, HasEmptyValue, BackslashRun;
    var s := IsSwitch(Windows, arg).value;
    SwitchParts(arg);
    ItemParts(arg, true);
    var more := if s.value != "" then "=" + Quoted(s.value) + rest else rest;
    assert Item(arg, true) + rest == s.name + more;
    if '"' in s.name {
      QuoteIsLost(s.name, more, false);
    } else if HasBlankOrQuote(s.name) {
      BlankIsLost(s.name, more);
    } else if HasEmptyValue(arg) {
      EmptyValueHasNoValue(arg);
      TokenOfLiteral(s.name, rest);
      TokenOfEnd(rest);
      assert s.name + "" == s.name;
    } else {
      NotQuoted(s.value);
      assert arg + rest == Item(arg, true) + rest;
      assert arg[|s.name + "="|..] == s.value;
      TabIsInside(arg, s.name + "=", s.value);
      BlankIsLost(arg, rest);
    }
  }

  lemma EmptyValueHasNoValue(arg: string)
    requires IsSwitch(Windows, arg).Some? && HasEmptyValue(arg)
    ensures IsSwitch(Windows, arg).value.value == ""
  {
    FindIn(arg[..|arg| - 1], '=', "");
    assert arg == arg[..|arg| - 1] + ['='] + "";
  }

  lemma TabIsInside(arg: string, name: string, value: string)
    requires arg == name + value && '\t' in value && '"' !in name && '"' !in value
    ensures '\t' in arg && '"' !in arg && exists c | c in arg :: IsBlank(c)
  {
    assert '\t' in arg && IsBlank('\t');
  }

  lemma BadArgumentIsLost(arg: string, args: seq<string>, isParsing: bool)
    requires !IsSafe(arg)
    ensures BeginsOtherwise(Split(Quoted(arg) + Tail(args, isParsing)), arg)
  {
    hide Token, Split, Tail, BackslashRun;
    var rest := Tail(args, isParsing);
    NotQuoted(arg);
    TabsAreSkipped(arg, rest);
    if !IsSolid(arg) {
      FirstIsSolid(args, isParsing);
    } else if arg[0] != '\t' {
      assert IsBlank('\t');
      BlankIsLost(arg, rest);
      assert arg[0] in arg;
      SplitToken(arg + rest);
    }
  }

  // A command line is split into the arguments it was made of exactly when all of them survive.
  lemma {:induction false} SplitUndoesTailIff(args: seq<string>, isParsing: bool)
    ensures Split(Tail(args, isParsing)) == args <==> AllSurvive(args, isParsing)
  {
    hide Token, Split, Quoted, IsSwitch, Item, Survives;
    if args == [] {
      NothingToSplit();
    } else {
      var arg, parse := args[0], isParsing && args[0] != SWITCH_TERMINATOR;
      var rest := Tail(args[1..], parse);
      TailIsEnd(args[1..], parse);
      assert Tail(args, isParsing) == " " + (Item(arg, parse) + rest);
      SplitBlank(' ', Item(arg, parse) + rest);
      var r := Split(Item(arg, parse) + rest);
      if Survives(arg, parse) {
        TokenOfItem(arg, parse, rest);
        SplitToken(Item(arg, parse) + rest);
        SplitUndoesTailIff(args[1..], parse);
        assert args == [arg] + args[1..];
        assert r == [arg] + Split(rest) && r[1..] == Split(rest);
      } else {
        ItemParts(arg, parse);
        if parse && IsSwitch(Windows, arg).Some? {
          SwitchStart(arg, parse, rest);
          BadSwitchIsLost(arg, rest);
        } else {
          NotASurvivor(arg, parse);
          BadArgumentIsLost(arg, args[1..], parse);
        }
        assert BeginsOtherwise(r, arg);
      }
    }
  }

  lemma NotASurvivor(arg: string, isParsing: bool)
    requires !Survives(arg, isParsing) && !(isParsing && IsSwitch(Windows, arg).Some?)
    ensures !IsSafe(arg)
  {
  }

  /** Arguments quoted and joined by blanks, as on a command line whose switches are not parsed. */
  function Joined(args: seq<string>): string {
    if args == [] then "" else " " + Quoted(args[0]) + Joined(args[1..])
  }

  lemma {:induction false} JoinedIsTail(args: seq<string>)
    ensures Joined(args) == Tail(args, false)
    ensures AllSurvive(args, false) <==> forall i | 0 <= i < |args| :: IsSafe(args[i])
  {
    if args != [] {
      JoinedIsTail(args[1..]);
      assert forall i | 0 < i < |args| :: args[i] == args[1..][i - 1];
    }
  }

  // Quoted arguments are split into themselves exactly when each is safe.
  lemma SplitUndoesQuotingIff(args: seq<string>)
    ensures Split(Joined(args)) == args <==> forall i | 0 <= i < |args| :: IsSafe(args[i])
  {
    JoinedIsTail(args);
    SplitUndoesTailIff(args, false);
  }

  // A tab goes unquoted, and splits the argument.
  lemma TabExample()
    ensures Split(Joined(["a\tb"])) != ["a\tb"]
  {
    hide Split, Joined;
    var arg := "a\tb";
    assert arg[1] == '\t' && arg[1] in arg;
    forall c | c in arg
      ensures !IsSpecial(c)
    {
    }
    assert !IsSafe(["a\tb"][0]);
    SplitUndoesQuotingIff(["a\tb"]);
  }
}
