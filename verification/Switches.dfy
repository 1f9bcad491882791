/**
 The syntax of a single argument, from base/command_line.cc: switch prefixes,
 names and values. A switch is `prefix name [= value]`.
 */
module Switches {
  import opened Wrappers

  datatype Platform = Posix | Windows

  const SWITCH_TERMINATOR := "--"

  /** A switch name, with its prefix, and its value; without a value the value is empty. */
  datatype Switch = Switch(name: string, value: string)

  /** The longest prefix comes first, so it is the one that matches. */
  function GetSwitchPrefixLength(platform: Platform, s: string): nat {
    if "--" <= s then 2
    else if "-" <= s then 1
    else if platform.Windows? && "/" <= s then 1
    else 0
  }

  // Two dashes count as two, a dash as one, and on Windows a slash as one.
  lemma PrefixLengthText(platform: Platform, s: string)
    ensures var n := GetSwitchPrefixLength(platform, s);
            && n <= 2
            && (n == 2 <==> |s| >= 2 && s[0] == '-' && s[1] == '-')
            && (n == 0 <==> s == "" || (s[0] != '-' && (platform == Windows ==> s[0] != '/')))
  {
  }

  /** The position of the first c in s, or the length of s. */
  function Find<T(==)>(s: seq<T>, c: T): (i: nat)
    ensures i <= |s| && c !in s[..i]
    ensures i < |s| ==> s[i] == c
  {
    if s == [] || s[0] == c then 0
    else
      var i := Find(s[1..], c);
      assert s[..i + 1] == [s[0]] + s[1..][..i];
      i + 1
  }

  /** The first '=' splits a switch. */
  function IsSwitch(platform: Platform, arg: string): Option<Switch> {
    if GetSwitchPrefixLength(platform, arg) == 0 then None
    else
      var equals := Find(arg, '=');
      Some(Switch(arg[..equals], if equals < |arg| then arg[equals + 1..] else ""))
  }

  /** A switch name without its prefix. */
  function Key(platform: Platform, name: string): string {
    name[GetSwitchPrefixLength(platform, name)..]
  }

  /** The argument that carries a switch: a prefix is added if there is none, an empty value leaves no '='. */
  function Combine(platform: Platform, name: string, value: string): string {
    (if GetSwitchPrefixLength(platform, name) == 0 then "--" + name else name)
    + (if value != "" then "=" + value else "")
  }

  lemma FindIn<T>(a: seq<T>, c: T, b: seq<T>)
    requires c !in a
    ensures Find(a, c) == |a|
    ensures Find(a + [c] + b, c) == |a|
  {
    var s := a + [c] + b;
    var i := Find(s, c);
    assert s[|a|] == c;
    assert forall k | 0 <= k < |a| :: s[k] == a[k] && a[k] in a;
    assert forall k | 0 <= k < i :: s[k] == s[..i][k] && s[..i][k] in s[..i];
  }

  /** The prefix is no longer than what comes before the first '='. */
  lemma PrefixOfName(platform: Platform, arg: string)
    ensures GetSwitchPrefixLength(platform, arg[..Find(arg, '=')]) == GetSwitchPrefixLength(platform, arg)
  {
    var i := Find(arg, '=');
    var name := arg[..i];
    assert arg == name + arg[i..];
    assert forall k | 0 <= k < i :: name[k] == arg[k];
    assert i == 0 && arg != [] ==> arg[0] == '=';
    assert i == 1 && |arg| > 1 ==> arg[1] == '=';
  }

  /** The text begins with one of the characters that make a switch. */
  predicate StartsAsSwitch(platform: Platform, s: string) {
    s != "" && (s[0] == '-' || (platform == Windows && s[0] == '/'))
  }

  // Parsing undoes combining exactly when the name has no '='; a prefix is added to a name that had none.
  lemma CombineThenParse(platform: Platform, name: string, value: string)
    ensures var arg := Combine(platform, name, value);
            && IsSwitch(platform, arg).Some?
            && '=' !in IsSwitch(platform, arg).value.name
            && ('=' !in name ==>
                  && IsSwitch(platform, arg).value.name == (if StartsAsSwitch(platform, name) then name else "--" + name)
                  && IsSwitch(platform, arg).value.value == value
                  && Key(platform, IsSwitch(platform, arg).value.name) == Key(platform, name))
  {
    var prefixed := if GetSwitchPrefixLength(platform, name) == 0 then "--" + name else name;
    var arg := Combine(platform, name, value);
    assert GetSwitchPrefixLength(platform, arg) != 0;
    if '=' !in name {
      assert '=' !in prefixed;
      if value == "" {
        assert arg == prefixed;
        FindIn(prefixed, '=', "");
        assert arg[..|arg|] == prefixed;
      } else {
        assert arg == prefixed + ['='] + value;
        FindIn(prefixed, '=', value);
        assert arg[..|prefixed|] == prefixed && arg[|prefixed| + 1..] == value;
      }
    }
  }

  /** The form in which a switch is kept. */
  function Normal(platform: Platform, arg: string): string
    requires GetSwitchPrefixLength(platform, arg) != 0
  {
    var s := IsSwitch(platform, arg).value;
    Combine(platform, s.name, s.value)
  }

  /** The switch has an '=' and nothing after it. */
  predicate HasEmptyValue(arg: string) {
    arg != "" && arg[|arg| - 1] == '=' && '=' !in arg[..|arg| - 1]
  }

  // A switch is kept as it is, except that the '=' of an empty value is dropped.
  lemma NormalForm(platform: Platform, arg: string)
    requires GetSwitchPrefixLength(platform, arg) != 0
    ensures Normal(platform, arg) == if HasEmptyValue(arg) then arg[..|arg| - 1] else arg
  {
    PrefixOfName(platform, arg);
    assert arg != "";
    hide GetSwitchPrefixLength;
    var i := Find(arg, '=');
    if i == |arg| {
      assert arg[..i] == arg;
    } else if i == |arg| - 1 {
      assert arg[i + 1..] == "";
    } else {
      assert arg == arg[..i] + ("=" + arg[i + 1..]);
      assert arg[..|arg| - 1][i] == '=';
    }
  }

  // The kept form is a switch, is its own kept form, and means the same.
  lemma NormalIsStable(platform: Platform, arg: string)
    requires GetSwitchPrefixLength(platform, arg) != 0
    ensures GetSwitchPrefixLength(platform, Normal(platform, arg)) != 0
    ensures Normal(platform, Normal(platform, arg)) == Normal(platform, arg)
    ensures IsSwitch(platform, Normal(platform, arg)) == IsSwitch(platform, arg)
  {
    PrefixOfName(platform, arg);
    NormalForm(platform, arg);
    if HasEmptyValue(arg) {
      var n := |arg| - 1;
      FindIn(arg[..n], '=', "");
      assert arg == arg[..n] + "=" + "";
      assert arg[..n][..n] == arg[..n];
      NormalForm(platform, arg[..n]);
      assert n > 0 ==> arg[..n][n - 1] in arg[..n];
    }
  }
}
