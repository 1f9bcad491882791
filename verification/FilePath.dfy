/**
 Model of base/file_path.cc as it is built for POSIX: '/' is the only separator
 and no path has a drive letter. A path is its string.

 Strip, DirName, BaseName and Append follow the code branch by branch. Root and
 Names describe a path independently of them, by its leading separators and by
 the names between separators; Components puts the two together and is what the
 loop of GetComponents is proved to compute.
 */
module FilePath {
  import opened Wrappers

  const CURRENT_DIRECTORY := "."
  const PARENT_DIRECTORY := ".."

  predicate IsSeparator(c: char) {
    c == '/'
  }

  predicate AllSeparators(s: string) {
    forall c | c in s :: IsSeparator(c)
  }

  predicate NoSeparators(s: string) {
    forall c | c in s :: !IsSeparator(c)
  }

  /** The position of the last c in s, or -1. */
  function LastIndex(s: string, c: char): (r: int)
    ensures -1 <= r < |s|
    ensures r >= 0 ==> s[r] == c
    ensures forall i | r < i < |s| :: s[i] != c
  {
    if s == "" then -1
    else if s[|s| - 1] == c then |s| - 1
    else LastIndex(s[..|s| - 1], c)
  }

  function DropTrailing(p: string): (r: string)
    ensures r <= p && (r != "" ==> !IsSeparator(r[|r| - 1]))
    ensures forall i | |r| <= i < |p| :: IsSeparator(p[i])
  {
    if p != "" && IsSeparator(p[|p| - 1]) then DropTrailing(p[..|p| - 1]) else p
  }

  /** p without its trailing separators; a path of separators only keeps one, or both if it has two. */
  function Strip(p: string): string {
    if AllSeparators(p) then
      if |p| <= 2 then p else "/"
    else
      DropTrailing(p)
  }

  method StripTrailingSeparators(p: string) returns (path: string)
    ensures path == Strip(p)
  {
    path := p;
    var start := 1;
    var lastStripped := -1;
    var pos := |path|;
    while pos > start && IsSeparator(path[pos - 1])
      invariant 0 <= pos <= |path| <= |p| && (|p| > 0 ==> pos >= 1)
      invariant path == p[..|path|]
      invariant forall k | |path| <= k < |p| :: IsSeparator(p[k])
      invariant |path| == pos || (pos == 1 && p == "//")
      invariant p == "//" ==> |path| == 2
      invariant lastStripped == if |path| < |p| then |path| + 1 else -1
    {
      if pos != start + 1 || lastStripped == start + 2 || !IsSeparator(path[start - 1]) {
        path := path[..pos - 1];
        lastStripped := pos;
      }
      pos := pos - 1;
    }
    StripFrom(p, path);
  }

  lemma StripFrom(p: string, path: string)
    requires path <= p && forall k | |path| <= k < |p| :: IsSeparator(p[k])
    requires if path == "" then p == "" else if p == "//" then path == p else |path| == 1 || !IsSeparator(path[|path| - 1])
    ensures path == Strip(p)
  {
    if AllSeparators(p) {
      assert path != "" ==> path[0] in p && path[|path| - 1] in p;
    } else {
      assert |DropTrailing(p)| == |path|;
    }
  }

  lemma StripIdempotent(p: string)
    ensures Strip(Strip(p)) == Strip(p)
  {
    if !AllSeparators(p) {
      assert !AllSeparators(DropTrailing(p)) by {
        StripKeepsAName(p);
      }
    }
  }

  lemma StripKeepsAName(p: string)
    requires !AllSeparators(p)
    ensures DropTrailing(p) != "" && !AllSeparators(DropTrailing(p))
  {
    var q := DropTrailing(p);
    if q != "" {
      assert q[|q| - 1] in q;
    }
  }

  // ---------- DirName, BaseName, Append: the code, on values ----------

  function DirName(p: string): string {
    var q := Strip(p);
    var last := LastIndex(q, '/');
    var cut :=
      if last == -1 then ""                                  // in the current directory
      else if last == 0 then q[..1]                          // in the root directory
      else if last == 1 && IsSeparator(q[0]) then q[..2]     // in "//", the alternate root
      else q[..last];
    var d := Strip(cut);
    if d == "" then CURRENT_DIRECTORY else d
  }

  function BaseName(p: string): string {
    var q := Strip(p);
    var last := LastIndex(q, '/');
    if last != -1 && last < |q| - 1 then q[last + 1..] else q
  }

  /** The caller's component is not an absolute path, as the code checks in debug builds. */
  function Append(p: string, component: string): string
    requires component == "" || !IsSeparator(component[0])
  {
    if p == CURRENT_DIRECTORY then component
    else
      var q := Strip(p);
      if component != "" && q != "" && !IsSeparator(q[|q| - 1]) then q + "/" + component
      else q + component
  }

  // ---------- What a path is made of ----------

  /** The root of p: "", "/" or "//". Two or three leading separators before a name make "//". */
  function Root(p: string): string {
    if p == "" || !IsSeparator(p[0]) then ""
    else if AllSeparators(p) then if |p| == 2 then "//" else "/"
    else if "//" <= p && !("////" <= p) then "//"
    else "/"
  }

  /** The non-empty names of p, between its separators. */
  function Names(p: string): seq<string>
    decreases |p|
  {
    var q := DropTrailing(p);
    if q == "" then []
    else
      var last := LastIndex(q, '/');
      Names(q[..if last == -1 then 0 else last]) + [q[last + 1..]]
  }

  /** A relative path does not count the "." it starts with, if anything follows or if it is "." itself. */
  predicate StartsWithDot(p: string) {
    && Root(p) == ""
    && var names := Names(p);
       names != [] && names[0] == CURRENT_DIRECTORY && (|names| >= 2 || p == CURRENT_DIRECTORY)
  }

  function Components(p: string): seq<string> {
    (if Root(p) == "" then [] else [Root(p)]) + (if StartsWithDot(p) then Names(p)[1..] else Names(p))
  }

  // ---------- DirName and BaseName against components ----------

  predicate IsName(name: string) {
    name != "" && NoSeparators(name)
  }

  predicate IsHead(head: string) {
    head == "" || IsSeparator(head[|head| - 1])
  }

  lemma StripHeadAndName(head: string, name: string)
    requires IsHead(head) && IsName(name)
    ensures !AllSeparators(head + name) && DropTrailing(head + name) == head + name
    ensures LastIndex(head + name, '/') == |head| - 1
  {
    var q := head + name;
    assert q[|q| - 1] == name[|name| - 1] && name[|name| - 1] in name && q[|q| - 1] in q;
    forall i | |head| <= i < |q|
      ensures q[i] != '/'
    {
      assert q[i] == name[i - |head|] && q[i] in name;
    }
    assert head != "" ==> q[|head| - 1] == '/';
  }

  lemma NamesOfHead(head: string)
    requires head != "" && IsHead(head)
    ensures Names(head) == Names(head[..|head| - 1])
  {
    assert DropTrailing(head) == DropTrailing(head[..|head| - 1]);
  }

  lemma NamesOfHeadAndName(head: string, name: string)
    requires IsHead(head) && IsName(name)
    ensures Names(head + name) == Names(head) + [name]
  {
    StripHeadAndName(head, name);
    var q := head + name;
    assert q[|head|..] == name;
    if head == "" {
      assert q[..0] == "";
    } else {
      NamesOfHead(head);
      assert q[..|head| - 1] == head[..|head| - 1];
    }
  }

  lemma HeadAndName(head: string, name: string)
    requires IsHead(head) && IsName(name)
    ensures !AllSeparators(head + name) && Strip(head + name) == head + name
    ensures LastIndex(head + name, '/') == |head| - 1
    ensures Names(head + name) == Names(head) + [name]
    ensures BaseName(head + name) == name
  {
    StripHeadAndName(head, name);
    NamesOfHeadAndName(head, name);
    assert (head + name)[|head|..] == name;
  }

  lemma NameAfter(q: string, last: int)
    requires -1 <= last < |q| - 1 && forall i | last < i < |q| :: q[i] != '/'
    ensures IsName(q[last + 1..])
  {
    var name := q[last + 1..];
    forall c | c in name
      ensures !IsSeparator(c)
    {
      var i :| 0 <= i < |name| && name[i] == c;
      assert c == q[last + 1 + i];
    }
  }

  lemma HeadUpTo(q: string, last: int)
    requires -1 <= last < |q| && (last >= 0 ==> q[last] == '/')
    ensures IsHead(q[..last + 1])
  {
  }

  lemma LastNameIsName(q: string) returns (head: string, name: string)
    requires q != "" && !IsSeparator(q[|q| - 1])
    ensures IsHead(head) && IsName(name) && q == head + name
  {
    hide LastIndex, IsHead, IsName;
    var last := LastIndex(q, '/');
    NameAfter(q, last);
    HeadUpTo(q, last);
    head, name := q[..last + 1], q[last + 1..];
  }

  // A path that is more than separators is, once stripped, head + name.
  lemma LastName(p: string) returns (head: string, name: string)
    requires !AllSeparators(p)
    ensures IsHead(head) && IsName(name)
    ensures Strip(p) == DropTrailing(p) == head + name
    ensures Names(p) == Names(head) + [name] && BaseName(p) == name
  {
    StripKeepsAName(p);
    head, name := LastNameIsName(DropTrailing(p));
    hide *;
    HeadAndName(head, name);
    NamesDropTrailing(p);
    BaseNameOfStripped(p);
  }

  lemma BaseNameOfStripped(p: string)
    requires !AllSeparators(p) && Strip(DropTrailing(p)) == DropTrailing(p)
    ensures BaseName(p) == BaseName(DropTrailing(p)) && Strip(p) == DropTrailing(p)
  {
  }

  lemma NamesDropTrailing(p: string)
    ensures Names(DropTrailing(p)) == Names(p)
  {
  }

  lemma DropTrailingOfSeparators(p: string)
    requires AllSeparators(p)
    ensures DropTrailing(p) == ""
  {
    if p != "" {
      assert p[|p| - 1] in p;
      DropTrailingOfSeparators(p[..|p| - 1]);
    }
  }

  lemma NamesEmptyIff(p: string)
    ensures Names(p) == [] <==> AllSeparators(p)
  {
    if !AllSeparators(p) {
      var head, name := LastName(p);
    } else {
      DropTrailingOfSeparators(p);
    }
  }

  lemma RootOfPrefix(q: string, p: string)
    requires q <= p && !AllSeparators(q)
    ensures Root(q) == Root(p)
  {
    var c :| c in q && !IsSeparator(c);
    assert c in p;
  }

  lemma StripOfSeparators(p: string)
    requires AllSeparators(p)
    ensures Strip(p) == if p == "" then "" else if |p| == 2 then "//" else "/"
  {
    if p != "" {
      assert p[0] in p;
    }
    if |p| == 2 {
      assert p[1] in p;
    }
  }

  lemma DirNameOfSeparators(p: string)
    requires AllSeparators(p)
    ensures DirName(p) == if p == "" then "." else Strip(p)
  {
    StripOfSeparators(p);
    assert LastIndex("", '/') == -1 && LastIndex("/", '/') == 0 && LastIndex("//", '/') == 1;
    assert AllSeparators("/") && AllSeparators("//");
  }

  /** What DirName keeps of a path whose last separator is the last character of head. */
  function Cut(head: string): string {
    var last := |head| - 1;
    if last == -1 then ""
    else if last == 0 || (last == 1 && IsSeparator(head[0])) then head
    else head[..last]
  }

  lemma DirNameCuts(p: string, head: string, name: string)
    requires IsHead(head) && IsName(name) && Strip(p) == head + name
    ensures DirName(p) == if Strip(Cut(head)) == "" then "." else Strip(Cut(head))
  {
    hide Names, LastIndex, DropTrailing, AllSeparators, Strip;
    HeadAndName(head, name);
    var q, last := head + name, |head| - 1;
    if last >= 0 {
      assert q[..last] == head[..last] && q[..last + 1] == head && q[0] == head[0];
    }
  }

  lemma StripOfCut(head: string)
    requires IsHead(head)
    ensures Strip(Cut(head)) == if head == "///" then "//" else Strip(head)
  {
    var last := |head| - 1;
    if head != "" && Cut(head) != head {
      assert head == head[..last] + "/";
      if AllSeparators(head) {
        assert AllSeparators(head[..last]);
        StripOfSeparators(head);
        StripOfSeparators(head[..last]);
        if last == 2 {
          assert head[0] in head && head[1] in head && head == "///";
        }
      } else {
        assert !AllSeparators(head[..last]);
        assert DropTrailing(head) == DropTrailing(head[..last]);
      }
    }
  }

  // DirName cuts the last name off; three separators before it become the alternate root.
  lemma DirNameOfHead(p: string, head: string, name: string)
    requires IsHead(head) && IsName(name) && Strip(p) == head + name
    ensures DirName(p) == if head == "" then "." else if head == "///" then "//" else Strip(head)
  {
    hide DirName;
    DirNameCuts(p, head, name);
    StripOfCut(head);
    StripEmptyIff(head);
  }

  lemma StripEmptyIff(p: string)
    ensures Strip(p) == "" <==> p == ""
  {
    if !AllSeparators(p) {
      StripKeepsAName(p);
    }
  }

  lemma RootAfterSeparators(head: string, name: string)
    requires head != "" && AllSeparators(head) && IsName(name)
    ensures Root(head + name) == if |head| == 2 || |head| == 3 then "//" else "/"
  {
    var q := head + name;
    assert head[0] in head && q[0] == head[0];
    assert name[0] in name && q[|head|] == name[0] && q[|head|] in q;
    if |head| >= 2 {
      assert head[1] in head && q[1] == head[1];
    }
    if |head| >= 4 {
      assert head[2] in head && q[2] == head[2];
      assert head[3] in head && q[3] == head[3];
      assert q[..4] == "////";
    } else if |q| >= 4 {
      assert q[|head|] != "////"[|head|];
    }
  }

  lemma RootsAreSeparators()
    ensures AllSeparators("/") && AllSeparators("//") && Root("/") == "/" && Root("//") == "//" && Root(".") == ""
  {
  }

  // The three places a path's last name can be in: the current directory, the root, a directory with a name.
  lemma DirNameOfLoneName(p: string, name: string)
    requires !AllSeparators(p) && IsName(name) && Strip(p) == DropTrailing(p) == name
    ensures DirName(p) == "." && Root(p) == ""
  {
    hide DirName, DropTrailing;
    assert "" + name == name;
    DirNameOfHead(p, "", name);
    HeadAndName("", name);
    RootOfPrefix(name, p);
    assert name[0] in name;
  }

  lemma DirNameUnderRoot(p: string, head: string, name: string)
    requires !AllSeparators(p) && IsHead(head) && IsName(name) && Strip(p) == DropTrailing(p) == head + name
    requires head != "" && AllSeparators(head)
    ensures DirName(p) == Root(p) && Root(p) in {"/", "//"} && |Root(p)| <= |head|
  {
    hide DirName, Root;
    DirNameOfHead(p, head, name);
    HeadAndName(head, name);
    RootOfPrefix(head + name, p);
    RootAfterSeparators(head, name);
    StripOfSeparators(head);
    if |head| == 3 {
      assert head[0] in head && head[1] in head && head[2] in head;
      assert head == "///";
    }
  }

  lemma DirNameBelow(p: string, head: string, name: string)
    requires !AllSeparators(p) && IsHead(head) && IsName(name) && Strip(p) == DropTrailing(p) == head + name
    requires !AllSeparators(head)
    ensures var d := DirName(p);
            d == Strip(d) == DropTrailing(head) && !AllSeparators(d) && Root(d) == Root(p) && Names(d) == Names(head)
  {
    hide DirName, LastIndex, Names;
    DirNameOfHead(p, head, name);
    NamesDropTrailing(head);
    StripKeepsAName(head);
    StripIdempotent(head);
    assert "///"[0] == '/' && "///"[1] == '/' && "///"[2] == '/';
    assert AllSeparators("///");
    assert DropTrailing(head) <= head <= head + name <= p;
    RootOfPrefix(DropTrailing(head), p);
  }

  // A stripped relative path with one name is that name.
  lemma LoneName(p: string)
    requires !AllSeparators(p) && Strip(p) == p && Root(p) == "" && |Names(p)| == 1
    ensures p == Names(p)[0]
  {
    hide LastIndex, DropTrailing;
    var head, name := LastName(p);
    NamesEmptyIff(head);
  }

  lemma ComponentsOfSeparators(p: string)
    requires p != "" && AllSeparators(p)
    ensures Components(p) == [Root(p)] && Root(p) == Strip(p) != ""
  {
    NamesEmptyIff(p);
    StripOfSeparators(p);
    assert p[0] in p;
  }

  lemma BaseNameOfSeparators(p: string)
    requires AllSeparators(p)
    ensures BaseName(p) == Strip(p) && AllSeparators(BaseName(p))
  {
    StripOfSeparators(p);
    assert LastIndex("", '/') == -1 && LastIndex("/", '/') == 0 && LastIndex("//", '/') == 1;
  }

  lemma ComponentsOfDot()
    ensures Components(".") == []
  {
    HeadAndName("", ".");
    NamesEmptyIff("");
    assert "" + "." == ".";
    assert Names(".") == ["."];
  }

  // One turn of the loop of GetComponents.
  lemma ComponentsStep(p: string)
    requires p != "" && p != DirName(p)
    ensures Components(p)
            == Components(DirName(p)) + (if AllSeparators(BaseName(p)) then [] else [BaseName(p)])
  {
    hide DirName, BaseName, LastIndex, DropTrailing, Names, Root;
    var d := DirName(p);
    RootsAreSeparators();
    if AllSeparators(p) {
      DirNameOfSeparators(p);
      StripOfSeparators(p);
      ComponentsOfSeparators(p);
      ComponentsOfSeparators(d);
      BaseNameOfSeparators(p);
    } else {
      var head, name := LastName(p);
      assert name[0] in name;
      if head == "" {
        DirNameOfLoneName(p, name);
        ComponentsOfDot();
        NamesEmptyIff("");
      } else if AllSeparators(head) {
        DirNameUnderRoot(p, head, name);
        NamesEmptyIff(head);
        ComponentsOfSeparators(d);
      } else {
        DirNameBelow(p, head, name);
        NamesEmptyIff(head);
        if |Names(d)| == 1 && Root(d) == "" {
          LoneName(d);
        }
      }
    }
  }

  // DirName stops at ".", "/" and "//", and nowhere else; until then it shortens the path or yields ".".
  lemma DirNameDescends(p: string)
    ensures DirName(p) == p <==> p in {".", "/", "//"}
    ensures DirName(p) != p ==> |DirName(p)| < |p| || DirName(p) == "."
    ensures DirName(p) != ""
  {
    hide BaseName, LastIndex, DropTrailing, Names, Root, DirName;
    RootsAreSeparators();
    if AllSeparators(p) {
      DirNameOfSeparators(p);
      StripOfSeparators(p);
    } else {
      var head, name := LastName(p);
      assert name[0] in name;
      if head == "" {
        DirNameOfLoneName(p, name);
      } else if AllSeparators(head) {
        DirNameUnderRoot(p, head, name);
      } else {
        DirNameBelow(p, head, name);
      }
    }
  }

  lemma TopComponents(p: string)
    requires DirName(p) == p
    ensures Components(p) == if BaseName(p) == CURRENT_DIRECTORY then [] else [BaseName(p)]
    ensures BaseName(p) != ""
  {
    hide BaseName, LastIndex, DropTrailing, Names, Root, DirName;
    DirNameDescends(p);
    RootsAreSeparators();
    if p == "." {
      assert "" + "." == ".";
      HeadAndName("", ".");
      ComponentsOfDot();
    } else {
      ComponentsOfSeparators(p);
      BaseNameOfSeparators(p);
    }
  }

  ghost function StepsToTop(p: string): nat {
    if p in {".", "/", "//"} then 0 else 1 + |p|
  }

  lemma {:induction false} DirNameTerminates(p: string)
    requires DirName(p) != p
    ensures StepsToTop(DirName(p)) < StepsToTop(p)
  {
    DirNameDescends(p);
  }

  function Reverse(s: seq<string>): seq<string> {
    if s == [] then [] else Reverse(s[1..]) + [s[0]]
  }

  lemma {:induction false} ReversePush(s: seq<string>, x: string)
    ensures Reverse(s + [x]) == [x] + Reverse(s)
  {
    if s == [] {
      assert [] + [x] == [x];
    } else {
      assert (s + [x])[1..] == s[1..] + [x];
      ReversePush(s[1..], x);
    }
  }

  lemma ComponentsOfEmpty()
    ensures Components("") == []
  {
    NamesEmptyIff("");
  }

  method GetComponents(p: string) returns (components: seq<string>)
    ensures components == Components(p)
  {
    hide DirName, BaseName, Components, StepsToTop;
    components := [];
    if p == "" {
      ComponentsOfEmpty();
      return;
    }
    var retVal: seq<string> := [];
    var current := p;
    while current != DirName(current)
      invariant current != ""
      invariant Components(p) == Components(current) + Reverse(retVal)
      decreases StepsToTop(current)
    {
      ComponentsStep(current);
      DirNameDescends(current);
      DirNameTerminates(current);
      var base := BaseName(current);
      if !AllSeparators(base) {
        ReversePush(retVal, base);
        retVal := retVal + [base];
      }
      current := DirName(current);
    }
    var base := BaseName(current);
    TopComponents(current);
    ReversePush(retVal, base);
    if base != "" && base != CURRENT_DIRECTORY {
      retVal := retVal + [base];
    }
    return Reverse(retVal);
  }

  // ---------- Append ----------

  /** p is "." with separators after it. */
  predicate IsDotWithSeparators(p: string) {
    |p| >= 2 && p[0] == '.' && AllSeparators(p[1..])
  }

  lemma AppendBelow(p: string, c: string)
    requires !AllSeparators(p) && p != CURRENT_DIRECTORY && IsName(c)
    ensures var r := Append(p, c);
            Root(r) == Root(p) && Names(r) == Names(p) + [c]
  {
    hide LastIndex, Names, Root;
    assert c[0] in c;
    StripKeepsAName(p);
    var q := DropTrailing(p);
    var head := q + "/";
    assert Append(p, c) == head + c;
    HeadAndName(head, c);
    NamesOfHead(head);
    assert head[..|head| - 1] == q;
    NamesDropTrailing(p);
    RootOfPrefix(q, p);
    RootOfPrefix(q, head + c);
  }

  // Relative, with "." as only name: "." itself, or "." and separators.
  lemma OnlyDot(p: string)
    requires Root(p) == "" && Names(p) == [CURRENT_DIRECTORY] && p != CURRENT_DIRECTORY
    ensures IsDotWithSeparators(p)
  {
    hide LastIndex, Names;
    NamesEmptyIff(p);
    assert !AllSeparators(p);
    StripKeepsAName(p);
    StripIdempotent(p);
    var q := DropTrailing(p);
    RootOfPrefix(q, p);
    NamesDropTrailing(p);
    LoneName(q);
    assert p[0] == '.';
    forall c | c in p[1..]
      ensures IsSeparator(c)
    {
      var i :| 1 <= i < |p| && p[i] == c;
    }
  }

  lemma DotWithSeparators(p: string)
    requires IsDotWithSeparators(p)
    ensures Root(p) == "" && Names(p) == [CURRENT_DIRECTORY] && !AllSeparators(p)
  {
    hide LastIndex, Names;
    assert p[0] in p;
    var q := DropTrailing(p);
    assert forall i | 1 <= i < |p| :: p[i] == p[1..][i - 1] && p[i] in p[1..];
    assert q == ".";
    NamesDropTrailing(p);
    HeadAndName("", ".");
    assert "" + "." == ".";
    NamesEmptyIff("");
  }

  /** When appending c to p adds exactly the component c. */
  predicate AppendsOne(p: string, c: string) {
    !IsDotWithSeparators(p) && (p == "" || p == CURRENT_DIRECTORY ==> c != CURRENT_DIRECTORY)
  }

  lemma ComponentsOfName(c: string)
    requires IsName(c)
    ensures Components(c) == if c == CURRENT_DIRECTORY then [] else [c]
  {
    hide LastIndex, Names;
    assert "" + c == c;
    HeadAndName("", c);
    NamesEmptyIff("");
    assert c[0] in c;
  }

  lemma AppendToSeparators(p: string, c: string)
    requires AllSeparators(p) && p != "" && IsName(c)
    ensures Components(Append(p, c)) == Components(p) + [c]
    ensures !IsDotWithSeparators(p)
  {
    hide LastIndex, Names, DropTrailing;
    assert c[0] in c && p[0] in p;
    StripOfSeparators(p);
    var q := Strip(p);
    assert Append(p, c) == q + c;
    HeadAndName(q, c);
    RootAfterSeparators(q, c);
    ComponentsOfSeparators(p);
    NamesEmptyIff(q);
    assert Names(q + c) == [c];
  }

  lemma AppendToNothing(p: string, c: string)
    requires (p == "" || p == CURRENT_DIRECTORY) && IsName(c)
    ensures Components(p) == [] && Components(Append(p, c)) == if c == CURRENT_DIRECTORY then [] else [c]
  {
    hide Components, LastIndex, DropTrailing;
    assert c[0] in c;
    StripOfSeparators("");
    assert "" + c == c;
    ComponentsOfName(c);
    ComponentsOfEmpty();
    ComponentsOfDot();
  }

  lemma AppendToDirectory(p: string, c: string)
    requires !AllSeparators(p) && p != CURRENT_DIRECTORY && IsName(c)
    ensures Components(Append(p, c)) == Components(p) + [c] <==> !IsDotWithSeparators(p)
  {
    hide LastIndex, Names, Root, DropTrailing, Append;
    assert c[0] in c;
    AppendBelow(p, c);
    NamesEmptyIff(p);
    if IsDotWithSeparators(p) {
      DotWithSeparators(p);
    } else if Root(p) == "" && Names(p) == [CURRENT_DIRECTORY] {
      OnlyDot(p);
    }
  }

  // Append adds exactly its component, except to "." with separators, and except "." to nothing.
  lemma AppendIsSnocIff(p: string, c: string)
    requires IsName(c)
    ensures !IsSeparator(c[0])
    ensures Components(Append(p, c)) == Components(p) + [c] <==> AppendsOne(p, c)
  {
    hide Components, Names, Root, DropTrailing, Append;
    assert c[0] in c;
    if p == "" || p == CURRENT_DIRECTORY {
      AppendToNothing(p, c);
    } else if AllSeparators(p) {
      AppendToSeparators(p, c);
    } else {
      AppendToDirectory(p, c);
    }
  }

  // ---------- AppendRelativePath, IsParent ----------

  ghost predicate AreNames(names: seq<string>) {
    forall c | c in names :: IsName(c)
  }

  ghost function AppendAll(p: string, names: seq<string>): string
    requires AreNames(names)
    decreases |names|
  {
    if names == [] then p
    else
      assert names[0] in names && names[0][0] in names[0];
      AppendAll(Append(p, names[0]), names[1..])
  }

  // What Append puts before its component: nothing, or something that ends with a separator.
  lemma AppendShape(p: string, c: string) returns (head: string)
    requires IsName(c) && !IsSeparator(c[0])
    ensures IsHead(head) && Append(p, c) == head + c
    ensures head == "" <==> p == "" || p == CURRENT_DIRECTORY
  {
    if p == CURRENT_DIRECTORY {
      head := "";
      assert "" + c == c;
    } else {
      var q := Strip(p);
      head := if q != "" && !IsSeparator(q[|q| - 1]) then q + "/" else q;
      assert Append(p, c) == head + c;
      StripEmptyIff(p);
    }
  }

  // Past the first name, appending never meets one of the exceptions again.
  lemma AppendAgain(p: string, c: string, c': string)
    requires IsName(c) && IsName(c') && !IsSeparator(c[0])
    requires p == "" || p == CURRENT_DIRECTORY ==> c != CURRENT_DIRECTORY
    ensures AppendsOne(Append(p, c), c')
  {
    hide Strip, Append;
    var head := AppendShape(p, c);
    var r := head + c;
    assert r[|r| - 1] == c[|c| - 1] && c[|c| - 1] in c;
    if |r| >= 2 {
      assert r[1..][|r| - 2] == r[|r| - 1] && r[1..][|r| - 2] in r[1..];
    }
  }

  lemma {:induction false} AppendAllComponents(p: string, names: seq<string>)
    requires AreNames(names) && (names != [] ==> AppendsOne(p, names[0]))
    ensures Components(AppendAll(p, names)) == Components(p) + names
    decreases |names|
  {
    hide Components, Append;
    if names != [] {
      var c := names[0];
      assert c in names;
      AppendIsSnocIff(p, c);
      var r := Append(p, c);
      if |names| > 1 {
        assert names[1] in names;
        AppendAgain(p, c, names[1]);
        assert names[1..][0] == names[1];
      }
      AppendAllComponents(r, names[1..]);
      assert names == [c] + names[1..];
    }
  }

  // ---------- Round trip ----------

  /** A list that starts with a root or not, and goes on with names. */
  ghost predicate IsComponentList(list: seq<string>) {
    if list != [] && list[0] in {"/", "//"} then AreNames(list[1..]) else AreNames(list)
  }

  ghost function Join(list: seq<string>): string
    requires IsComponentList(list)
  {
    if list != [] && list[0] in {"/", "//"} then AppendAll(list[0], list[1..]) else AppendAll("", list)
  }

  lemma AppendToNothingIs(p: string, c: string)
    requires (p == "" || p == CURRENT_DIRECTORY) && IsName(c)
    ensures !IsSeparator(c[0]) && Append(p, c) == c
  {
    assert c[0] in c && "" + c == c;
  }

  lemma {:induction false} JoinLosesDots(names: seq<string>)
    requires AreNames(names)
    ensures |Components(AppendAll("", names))| <= |names|
    ensures names != [] && names[0] == CURRENT_DIRECTORY ==> |Components(AppendAll("", names))| < |names|
    decreases |names|
  {
    hide Components, Append, AppendsOne;
    if names == [] {
      ComponentsOfEmpty();
    } else if names[0] != CURRENT_DIRECTORY {
      AppendsOneToNothing(names[0]);
      AppendAllComponents("", names);
      ComponentsOfEmpty();
    } else {
      AppendToNothingIs("", names[0]);
      if names[1..] == [] {
        ComponentsOfDot();
      } else {
        assert names[1] in names;
        AppendToNothingIs(".", names[1]);
        AppendToNothingIs("", names[1]);
        JoinLosesDots(names[1..]);
      }
    }
  }

  lemma AppendsOneToNothing(c: string)
    requires c != CURRENT_DIRECTORY
    ensures AppendsOne("", c)
  {
  }

  // Joining a list and taking it apart again gives the list, unless it is relative and starts with ".".
  lemma JoinThenComponents(list: seq<string>)
    requires IsComponentList(list)
    ensures Components(Join(list)) == list <==> list == [] || list[0] != CURRENT_DIRECTORY
  {
    hide Components, Append, AppendAll;
    ComponentsOfEmpty();
    RootsAreSeparators();
    if list == [] {
      assert Join(list) == "" by {
        JoinOfNothing();
      }
    } else if list[0] in {"/", "//"} {
      ComponentsOfSeparators(list[0]);
      AppendAllComponents(list[0], list[1..]);
    } else if list[0] != CURRENT_DIRECTORY {
      AppendAllComponents("", list);
    } else {
      JoinLosesDots(list);
    }
  }

  lemma JoinOfNothing()
    ensures Join([]) == ""
  {
  }

  // Appending a list of names adds exactly these components, as long as the first one does.
  lemma AppendAllIff(p: string, names: seq<string>)
    requires AreNames(names) && names != []
    ensures Components(AppendAll(p, names)) == Components(p) + names <==> AppendsOne(p, names[0])
  {
    hide Components, Append;
    var c := names[0];
    assert c in names;
    if AppendsOne(p, c) {
      AppendAllComponents(p, names);
    } else if IsDotWithSeparators(p) {
      AppendToDot(p, c);
      AppendIsSnocIff(p, c);
      if |names| > 1 {
        assert names[1] in names;
        AppendAgain(p, c, names[1]);
      }
      AppendAllComponents(Append(p, c), names[1..]);
    } else {
      AppendToNothingIs(p, c);
      AppendToNothingIs("", c);
      ComponentsOfEmpty();
      ComponentsOfDot();
      JoinLosesDots(names);
    }
  }

  // ---------- Append, by its text ----------

  // One separator goes between a path and a component, unless the path is nothing, "." or a root.
  lemma AppendText(p: string, c: string)
    requires c != "" && !IsSeparator(c[0])
    ensures p == "" || p == "." ==> Append(p, c) == c
    ensures p == "/" || p == "//" ==> Append(p, c) == p + c
    ensures p != "" && p != "." && !IsSeparator(p[|p| - 1]) ==> Append(p, c) == p + "/" + c
  {
    hide LastIndex;
    if p != "" && !IsSeparator(p[|p| - 1]) {
      assert p[|p| - 1] in p;
    }
    assert AllSeparators("/") && AllSeparators("//") && AllSeparators("");
  }

  // Separators at the end of a path do not matter, unless they are all of it; then a root is left.
  lemma AppendAfterSeparators(p: string, separators: string, c: string)
    requires c != "" && !IsSeparator(c[0]) && AllSeparators(separators) && separators != ""
    requires p == "" || !IsSeparator(p[|p| - 1])
    ensures Append(p + separators, c)
            == if p != "" then p + "/" + c else if |separators| == 2 then "//" + c else "/" + c
  {
    var q := p + separators;
    assert separators[0] in separators;
    if p == "" {
      assert q == separators;
      StripOfSeparators(separators);
    } else {
      StripSeparators(p, separators);
      assert p[|p| - 1] == q[|p| - 1] && q[|p| - 1] in q;
      assert q != ".";
    }
  }

  // An empty component leaves the path, without the separators at its end.
  lemma AppendNothing(p: string)
    ensures Append(p, "") == if p == "." then "" else Strip(p)
  {
    hide Strip;
    assert Strip(p) + "" == Strip(p);
  }

  /** Nothing, or a name alone, below a root, or one separator after another path than ".". */
  predicate IsPlain(p: string) {
    p == ""
    || (!IsSeparator(p[|p| - 1])
        && |BaseName(p)| <= |p|
        && IsPlainHead(p[..|p| - |BaseName(p)|]))
  }

  predicate IsPlainHead(head: string) {
    head == "" || head == "/" || head == "//" || (|head| >= 2 && head[|head| - 2] != '/' && head != "./")
  }

  lemma AppendToCut(head: string, name: string)
    requires IsHead(head) && IsName(name)
    ensures !IsSeparator(name[0])
    ensures var d := if head == "" then "." else if head == "///" then "//" else Strip(head);
            Append(d, name) == head + name
            <==> IsPlainHead(head)
  {
    hide DropTrailing, LastIndex;
    assert name[0] in name;
    if head == "" {
      assert head + name == name;
    } else if AllSeparators(head) {
      assert head[|head| - 1] in head;
      StripOfSeparators(head);
      AppendText("//", name);
      AppendText("/", name);
      assert |head| >= 2 ==> head[|head| - 2] in head;
      assert |head| == 1 ==> head == "/";
      assert |head| == 2 ==> head == "//";
    } else {
      CutHead(head);
      var q := DropTrailing(head);
      AppendText(q, name);
      if q != "." {
        assert q + "/" + name == head + name ==> q + "/" == head by {
          assert |q + "/" + name| == |head + name| ==> (q + "/" + name)[..|head|] == q + "/" && (head + name)[..|head|] == head;
        }
      }
      DotHead(head);
    }
  }

  lemma CutHead(head: string)
    requires IsHead(head) && !AllSeparators(head)
    ensures var q := DropTrailing(head);
            && Strip(head) == q && q != "" && !IsSeparator(q[|q| - 1]) && |q| < |head| && q <= head
            && (head == q + "/" <==> |head| >= 2 && head[|head| - 2] != '/')
            && (q == "." && |head| >= 2 && head[|head| - 2] != '/' ==> head == "./")
  {
    StripKeepsAName(head);
    var q := DropTrailing(head);
    if |q| == |head| - 1 {
      assert head == q + [head[|q|]];
    }
  }

  lemma DotHead(head: string)
    ensures head == "./" ==> DropTrailing(head) == "."
  {
    assert head == "./" ==> head[..1] == ".";
  }

  // Appending its last name to what is before it gives back a path, exactly when it is plain.
  lemma DirNameAppendBaseNameIff(p: string)
    requires BaseName(p) == "" || !IsSeparator(BaseName(p)[0])
    ensures Append(DirName(p), BaseName(p)) == p <==> IsPlain(p)
  {
    hide DirName, BaseName, Append, Strip, DropTrailing, LastIndex, Names, IsPlainHead, IsPlain;
    if AllSeparators(p) {
      BaseNameOfSeparators(p);
      NothingIsPlain(p);
    } else {
      var head, name := LastName(p);
      DirNameOfHead(p, head, name);
      AppendToCut(head, name);
      PlainIff(p, head, name);
      if Strip(p) != p {
        var end := AppendShape(DirName(p), name);
        assert (end + name)[|end + name| - 1] == name[|name| - 1] && name[|name| - 1] in name;
      }
    }
  }

  lemma PlainIff(p: string, head: string, name: string)
    requires IsName(name) && BaseName(p) == name && DropTrailing(p) == head + name
    ensures if DropTrailing(p) == p then IsPlain(p) <==> IsPlainHead(head)
            else !IsPlain(p) && p != "" && IsSeparator(p[|p| - 1])
  {
    hide BaseName, IsPlainHead, DropTrailing;
    assert (head + name)[..|head|] == head && (head + name)[|head + name| - 1] == name[|name| - 1];
    assert name[|name| - 1] in name;
  }

  lemma NothingIsPlain(p: string)
    requires AllSeparators(p) && BaseName(p) == Strip(p) && (BaseName(p) == "" || !IsSeparator(BaseName(p)[0]))
    ensures p == "" && IsPlain(p) && Append(DirName(p), BaseName(p)) == p
  {
    StripOfSeparators(p);
    DirNameOfSeparators(p);
  }

  // Appending "a" to "./" replaces the ".".
  lemma AppendExample()
    ensures Components("./") == ["."] && Components(Append("./", "a")) == ["a"]
  {
    hide Components, Append;
    assert IsDotWithSeparators("./");
    AppendToDot("./", "a");
  }

  lemma AppendToDot(p: string, c: string)
    requires IsDotWithSeparators(p) && IsName(c)
    ensures !IsSeparator(c[0]) && Components(Append(p, c)) == [c] && Components(p) == [CURRENT_DIRECTORY]
  {
    hide Append, Names, Root;
    assert c[0] in c;
    DotWithSeparators(p);
    AppendBelow(p, c);
  }

  // ---------- AppendRelativePath, IsParent ----------

  /** The components of p are a strict prefix of those of child, and not empty. */
  predicate IsParentOf(p: string, child: string) {
    Components(p) != [] && Components(p) < Components(child)
  }

  lemma {:induction false} NamesAreNames(p: string)
    ensures AreNames(Names(p))
    decreases |p|
  {
    if AllSeparators(p) {
      NamesEmptyIff(p);
    } else {
      var head, name := LastName(p);
      assert |head| < |p|;
      NamesAreNames(head);
    }
  }

  lemma ComponentsAreList(p: string)
    ensures IsComponentList(Components(p))
    ensures Components(p) != [] ==> AreNames(Components(p)[1..])
  {
    hide Names;
    NamesAreNames(p);
    assert forall s: seq<string> | s != [] :: forall c | c in s[1..] :: c in s;
  }

  lemma RemainderAreNames(p: string, child: string)
    requires IsParentOf(p, child)
    ensures AreNames(Components(child)[|Components(p)|..])
  {
    hide Components;
    ComponentsAreList(child);
    var n := |Components(p)|;
    assert Components(child)[n..] == Components(child)[1..][n - 1..];
    assert forall c | c in Components(child)[1..][n - 1..] :: c in Components(child)[1..];
  }

  method AppendRelativePath(parent: string, child: string, path: Option<string>) returns (ok: bool, result: Option<string>)
    ensures ok <==> IsParentOf(parent, child)
    ensures ok ==> AreNames(Components(child)[|Components(parent)|..])
    ensures result == if ok && path.Some? then Some(AppendAll(path.value, Components(child)[|Components(parent)|..])) else path
  {
    hide Components, Append;
    result := path;
    var parentComponents := GetComponents(parent);
    var childComponents := GetComponents(child);
    if |parentComponents| == 0 || |parentComponents| >= |childComponents| {
      return false, path;
    }
    var i := 0;
    while i < |parentComponents|
      invariant 0 <= i <= |parentComponents| && parentComponents[..i] == childComponents[..i]
    {
      if parentComponents[i] != childComponents[i] {
        return false, path;
      }
      i := i + 1;
    }
    RemainderAreNames(parent, child);
    ghost var rest := childComponents[i..];
    if path.Some? {
      var out := path.value;
      while i < |childComponents|
        invariant |parentComponents| <= i <= |childComponents| && AreNames(childComponents[i..])
        invariant AppendAll(path.value, rest) == AppendAll(out, childComponents[i..])
      {
        assert childComponents[i] in childComponents[i..];
        assert childComponents[i][0] in childComponents[i];
        assert childComponents[i..][1..] == childComponents[i + 1..];
        assert forall c | c in childComponents[i + 1..] :: c in childComponents[i..];
        out := Append(out, childComponents[i]);
        i := i + 1;
      }
      result := Some(out);
    }
    return true, result;
  }

  method IsParent(p: string, child: string) returns (r: bool)
    ensures r <==> IsParentOf(p, child)
  {
    hide Components;
    var path;
    r, path := AppendRelativePath(p, child, None);
  }

  lemma IsParentOfIsStrictOrder(a: string, b: string, c: string)
    ensures !IsParentOf(a, a)
    ensures IsParentOf(a, b) && IsParentOf(b, c) ==> IsParentOf(a, c)
    ensures IsParentOf(a, b) ==> !IsParentOf(b, a)
  {
  }

  // DirName of a path is its parent, unless it is the current directory.
  lemma DirNameIsParent(p: string)
    requires p != DirName(p)
    ensures IsParentOf(DirName(p), p) <==> Components(DirName(p)) != [] && !AllSeparators(p)
  {
    hide Components, DirName, Names, BaseName, DropTrailing;
    if p == "" {
      DirNameOfSeparators(p);
      ComponentsOfDot();
    } else {
      ComponentsStep(p);
      if AllSeparators(p) {
        BaseNameOfSeparators(p);
      } else {
        var head, name := LastName(p);
        assert name[0] in name;
      }
    }
  }

  // What the relative path adds to another path.
  lemma RelativePathComponents(parent: string, child: string, path: string)
    requires IsParentOf(parent, child)
    ensures AreNames(Components(child)[|Components(parent)|..])
    ensures var rest := Components(child)[|Components(parent)|..];
            Components(AppendAll(path, rest)) == Components(path) + rest <==> AppendsOne(path, rest[0])
  {
    RemainderAreNames(parent, child);
    AppendAllIff(path, Components(child)[|Components(parent)|..]);
  }

  // ---------- Extensions ----------

  const EXTENSION_SEPARATOR := '.'

  function ToLowerASCII(c: char): char {
    if 'A' <= c <= 'Z' then (c as int + 32) as char else c
  }

  /** a equals b when its ASCII letters are lowered. */
  predicate LowerCaseEqualsASCII(a: string, b: string) {
    |a| == |b| && forall i | 0 <= i < |a| :: ToLowerASCII(a[i]) == b[i]
  }

  predicate IsCommonDoubleExtension(extension: string) {
    || LowerCaseEqualsASCII(extension, "gz")
    || LowerCaseEqualsASCII(extension, "z")
    || LowerCaseEqualsASCII(extension, "bz2")
  }

  /** The position of the dot before the extension, or -1. */
  function ExtensionSeparatorPosition(path: string): (r: int)
    ensures -1 <= r < |path| && (r >= 0 ==> path[r] == '.')
  {
    if path == CURRENT_DIRECTORY || path == PARENT_DIRECTORY then -1
    else
      var lastDot := LastIndex(path, EXTENSION_SEPARATOR);
      if lastDot == -1 || lastDot == 0 then lastDot
      else if !IsCommonDoubleExtension(path[lastDot + 1..]) then lastDot
      else
        var penultimateDot := LastIndex(path[..lastDot], EXTENSION_SEPARATOR);
        var lastSeparator := LastIndex(path[..lastDot], '/');
        if && penultimateDot != -1
           && (lastSeparator == -1 || penultimateDot > lastSeparator)
           && lastDot - penultimateDot <= 5
           && lastDot - penultimateDot > 1
        then penultimateDot
        else lastDot
  }

  function Extension(p: string): string {
    var base := BaseName(p);
    var dot := ExtensionSeparatorPosition(base);
    if dot == -1 then "" else base[dot..]
  }

  function RemoveExtension(p: string): string {
    if Extension(p) == "" then p
    else
      var dot := ExtensionSeparatorPosition(p);
      if dot == -1 then p else p[..dot]
  }

  predicate IsEmptyOrSpecialCase(path: string) {
    path == "" || path == CURRENT_DIRECTORY || path == PARENT_DIRECTORY
  }

  function InsertBeforeExtension(p: string, suffix: string): string {
    if suffix == "" then p
    else if IsEmptyOrSpecialCase(BaseName(p)) then ""
    else RemoveExtension(p) + suffix + Extension(p)
  }

  lemma LastIndexConcat(a: string, b: string, c: char)
    ensures LastIndex(a + b, c) == if LastIndex(b, c) >= 0 then |a| + LastIndex(b, c) else LastIndex(a, c)
  {
    var s := a + b;
    assert forall i | 0 <= i < |a| :: s[i] == a[i];
    assert forall i | |a| <= i < |s| :: s[i] == b[i - |a|];
    var i := if LastIndex(b, c) >= 0 then |a| + LastIndex(b, c) else LastIndex(a, c);
    var r := LastIndex(s, c);
    if i >= 0 {
      assert s[i] == c;
    }
    if r < |a| {
      assert r >= 0 ==> a[r] == c;
    }
  }

  // The search in the whole path finds the dot that the search in the base name finds.
  lemma SameDot(head: string, name: string)
    requires IsHead(head) && NoSeparators(name) && ExtensionSeparatorPosition(name) >= 0
    ensures ExtensionSeparatorPosition(head + name) == |head| + ExtensionSeparatorPosition(name)
  {
    hide LastIndex, IsCommonDoubleExtension;
    var p := head + name;
    if head == "" {
      assert p == name;
    } else {
      assert p[|head| - 1] == '/';
      LastIndexConcat(head, name, '.');
      var d := LastIndex(name, '.');
      assert p[|head| + d + 1..] == name[d + 1..];
      assert p[..|head| + d] == head + name[..d];
      LastIndexConcat(head, name[..d], '.');
      LastIndexConcat(head, name[..d], '/');
      assert forall c | c in name[..d] :: c in name;
      assert LastIndex(name[..d], '/') == -1;
      assert LastIndex(head, '/') == |head| - 1;
      var e := LastIndex(head, '.');
      assert e < |head| && (e >= 0 ==> head[e] == '.');
    }
  }

  lemma NoExtensionInSeparators(p: string)
    ensures AllSeparators(p) ==> Extension(p) == ""
  {
    if AllSeparators(p) {
      BaseNameOfSeparators(p);
      var base := BaseName(p);
      assert forall i | 0 <= i < |base| :: base[i] in base;
    }
  }

  // A path with an extension, once stripped, is head + name, and the extension is a suffix of name.
  lemma ExtensionOf(p: string) returns (head: string, name: string, dot: nat)
    requires Extension(p) != ""
    ensures !AllSeparators(p) && Strip(p) == DropTrailing(p) == head + name && IsHead(head) && IsName(name)
    ensures dot == ExtensionSeparatorPosition(name) < |name| && Extension(p) == name[dot..]
  {
    hide ExtensionSeparatorPosition, Names, LastIndex, DropTrailing;
    NoExtensionInSeparators(p);
    head, name := LastName(p);
    dot := ExtensionSeparatorPosition(name);
  }

  lemma StripChangesTheEnd(p: string)
    requires DropTrailing(p) != p
    ensures p != "" && IsSeparator(p[|p| - 1])
  {
  }

  lemma SplitOfStripped(p: string)
    requires Extension(p) != "" && Strip(p) == p
    ensures RemoveExtension(p) + Extension(p) == p
  {
    hide ExtensionSeparatorPosition, Strip, DropTrailing, Extension;
    var head, name, dot := ExtensionOf(p);
    SameDot(head, name);
    assert p[|head| + dot..] == name[dot..];
  }

  lemma ExtensionEndsInName(p: string)
    requires Extension(p) != ""
    ensures !IsSeparator(Extension(p)[|Extension(p)| - 1])
  {
    hide ExtensionSeparatorPosition, Strip, DropTrailing, Extension;
    var head, name, dot := ExtensionOf(p);
    assert name[|name| - 1] in name;
  }

  /** The last name has no dot, or is one of the two that are not taken apart. */
  predicate HasNoExtension(p: string) {
    BaseName(p) == CURRENT_DIRECTORY || BaseName(p) == PARENT_DIRECTORY || EXTENSION_SEPARATOR !in BaseName(p)
  }

  lemma ExtensionEmptyIff(p: string)
    ensures Extension(p) == "" <==> HasNoExtension(p)
  {
    var base := BaseName(p);
    var last := LastIndex(base, EXTENSION_SEPARATOR);
    assert last >= 0 ==> base[last] in base;
  }

  // RemoveExtension and Extension split a path, unless there is an extension and a separator after it.
  lemma ExtensionSplitIff(p: string)
    ensures RemoveExtension(p) + Extension(p) == p <==> HasNoExtension(p) || Strip(p) == p
  {
    hide HasNoExtension;
    ExtensionEmptyIff(p);
    var e := Extension(p);
    if e == "" {
      assert p + "" == p;
    } else if Strip(p) == p {
      SplitOfStripped(p);
    } else {
      hide ExtensionSeparatorPosition, Extension, RemoveExtension, Strip;
      EndsInSeparator(p);
      ExtensionEndsInName(p);
      assert (RemoveExtension(p) + e)[|RemoveExtension(p) + e| - 1] == e[|e| - 1];
    }
  }

  lemma EndsInSeparator(p: string)
    requires Extension(p) != "" && Strip(p) != p
    ensures p != "" && IsSeparator(p[|p| - 1])
  {
    hide Extension, Strip;
    NoExtensionInSeparators(p);
    StripIsDropTrailing(p);
    StripChangesTheEnd(p);
  }

  // A name with an extension and a separator after it is not what it is taken apart into; "a.b/" is one.
  lemma SeparatorAfterExtension(name: string)
    requires IsName(name) && EXTENSION_SEPARATOR in name && name != CURRENT_DIRECTORY && name != PARENT_DIRECTORY
    ensures RemoveExtension(name + "/") + Extension(name + "/") != name + "/"
  {
    hide Extension, RemoveExtension, Strip, BaseName, IsName;
    StripOfName(name);
    ExtensionSplitIff(name + "/");
  }

  lemma StripOfName(name: string)
    requires IsName(name)
    ensures Strip(name + "/") == name && BaseName(name + "/") == name
  {
    hide Strip, BaseName, DropTrailing, Names, LastIndex;
    assert "" + name == name;
    HeadAndName("", name);
    StripHeadAndName("", name);
    NamedWithSeparator(name);
    assert name[0] in name && (name + "/")[0] == name[0];
    NoAllSeparators(name + "/");
    hide IsName, AllSeparators;
    BaseNameOfStripped(name + "/");
  }

  lemma ExtensionSplitExample()
    ensures RemoveExtension("a.b/") + Extension("a.b/") != "a.b/"
  {
    hide Extension, RemoveExtension;
    var name := "a.b";
    assert name + "/" == "a.b/" && name[1] in name;
    SeparatorAfterExtension(name);
  }

  lemma NamedWithSeparator(p: string)
    ensures DropTrailing(p + "/") == DropTrailing(p)
  {
    assert (p + "/")[..|p|] == p;
  }

  lemma NoAllSeparators(p: string)
    requires p != "" && !IsSeparator(p[0])
    ensures !AllSeparators(p)
  {
    assert p[0] in p;
  }

  lemma StripIsDropTrailing(p: string)
    requires !AllSeparators(p)
    ensures Strip(p) == DropTrailing(p)
  {
  }

  lemma SuffixOfConcat(head: string, name: string, dot: nat)
    requires dot <= |name|
    ensures (head + name)[|head + name| - |name[dot..]|..] == name[dot..]
  {
  }

  lemma ExtensionIsShort(p: string)
    ensures |Extension(p)| <= |p|
    ensures Extension(p) != "" && Strip(p) == p ==> p[|p| - |Extension(p)|..] == Extension(p)
  {
    hide ExtensionSeparatorPosition, Strip, DropTrailing, Extension, IsHead, IsName, AllSeparators;
    if Extension(p) != "" {
      var head, name, dot := ExtensionOf(p);
      SuffixOfConcat(head, name, dot);
    }
  }

  // The suffix goes between what Extension yields and what is before it, exactly when the path is not one of
  // those left out, and has no extension or no separator to strip.
  lemma InsertBeforeExtensionIff(p: string, suffix: string)
    ensures var k := |p| - |Extension(p)|;
            && 0 <= k
            && (InsertBeforeExtension(p, suffix) == p[..k] + suffix + p[k..]
                <==> suffix == "" || (!IsEmptyOrSpecialCase(BaseName(p)) && (HasNoExtension(p) || Strip(p) == p)))
  {
    hide Strip, Extension, BaseName, RemoveExtension, HasNoExtension, IsEmptyOrSpecialCase;
    ExtensionIsShort(p);
    ExtensionEmptyIff(p);
    ExtensionSplitIff(p);
    var e := Extension(p);
    var k := |p| - |e|;
    assert p[..k] + p[k..] == p;
    if suffix == "" {
      assert p[..k] + "" + p[k..] == p;
    } else if !IsEmptyOrSpecialCase(BaseName(p)) {
      var r := RemoveExtension(p) + suffix + e;
      if e == "" {
        assert r == p[..k] + suffix + p[k..] by { NothingRemoved(p); }
      } else if Strip(p) == p {
        SplitIsAt(p);
      } else {
        EndsInSeparator(p);
        ExtensionEndsInName(p);
        assert r[|r| - 1] == e[|e| - 1] && (p[..k] + suffix + p[k..])[|p| + |suffix| - 1] == p[|p| - 1];
      }
    }
  }

  lemma NothingRemoved(p: string)
    requires Extension(p) == ""
    ensures RemoveExtension(p) == p
  {
    hide Extension;
  }

  lemma SplitIsAt(p: string)
    requires Extension(p) != "" && Strip(p) == p
    ensures var k := |p| - |Extension(p)|; 0 <= k && RemoveExtension(p) == p[..k] && Extension(p) == p[k..]
  {
    hide Extension, RemoveExtension, Strip;
    SplitOfStripped(p);
    ExtensionIsShort(p);
    assert (RemoveExtension(p) + Extension(p))[..|RemoveExtension(p)|] == RemoveExtension(p);
  }

  // ---------- Extensions, by the text of the last name ----------

  lemma {:induction false} LastIndexBefore(a: string, c: char, b: string)
    requires c !in b
    ensures LastIndex(a + [c] + b, c) == |a|
  {
    if b != "" {
      var n := |b| - 1;
      assert b[n] in b && forall d | d in b[..n] :: d in b;
      assert (a + [c] + b)[..|a| + 1 + n] == a + [c] + b[..n];
      LastIndexBefore(a, c, b[..n]);
    }
  }

  lemma NoIndex(s: string, c: char)
    requires c !in s
    ensures LastIndex(s, c) == -1
  {
    hide LastIndex;
    assert forall i | 0 <= i < |s| :: s[i] in s;
  }

  /** The second extensions before which a first one counts, in all spellings. */
  predicate IsSecondExtension(y: string) {
    || y == "gz" || y == "gZ" || y == "Gz" || y == "GZ"
    || y == "z" || y == "Z"
    || y == "bz2" || y == "bZ2" || y == "Bz2" || y == "BZ2"
  }

  lemma SecondExtensionIff(y: string)
    ensures IsCommonDoubleExtension(y) <==> IsSecondExtension(y)
  {
    if |y| == 1 {
      assert y == [y[0]];
    } else if |y| == 2 {
      assert y == [y[0], y[1]];
    } else if |y| == 3 {
      assert y == [y[0], y[1], y[2]];
    }
  }

  lemma DotOfTwo(a: string, x: string, y: string)
    requires '.' !in x && '.' !in y && NoSeparators(a + "." + x + "." + y) && a + "." + x + "." + y != ".."
    ensures ExtensionSeparatorPosition(a + "." + x + "." + y)
            == if 1 <= |x| <= 4 && IsSecondExtension(y) then |a| else |a| + 1 + |x|
  {
    hide LastIndex, IsCommonDoubleExtension, IsSecondExtension;
    var name := a + "." + x + "." + y;
    var d := |a| + 1 + |x|;
    assert a + "." + x == a + ['.'] + x && name == (a + "." + x) + ['.'] + y;
    LastIndexBefore(a + "." + x, '.', y);
    LastIndexBefore(a, '.', x);
    assert name[..d] == a + "." + x && name[d + 1..] == y;
    SecondExtensionIff(y);
    assert '/' !in name[..d] by {
      assert forall c | c in name[..d] :: c in name;
    }
    NoIndex(name[..d], '/');
  }

  lemma DotOfOne(a: string, y: string)
    requires '.' !in a && '.' !in y && a + "." + y != "."
    ensures ExtensionSeparatorPosition(a + "." + y) == |a|
  {
    hide LastIndex, IsCommonDoubleExtension;
    var name := a + "." + y;
    assert name == a + ['.'] + y && name[..|a|] == a;
    LastIndexBefore(a, '.', y);
    NoIndex(a, '.');
    assert forall i | 0 <= i < |a| :: name[i] == a[i] && a[i] in a;
    assert forall i | |a| < i < |name| :: name[i] == y[i - |a| - 1] && y[i - |a| - 1] in y;
    assert ".."[0] == '.' && ".."[1] == '.';
  }

  lemma BaseNameWithDot(p: string)
    requires '.' in BaseName(p)
    ensures NoSeparators(BaseName(p))
  {
    if AllSeparators(p) {
      BaseNameOfSeparators(p);
    } else {
      var head, name := LastName(p);
    }
  }

  // With two dots or more in the last name, the last two parts are the extension exactly when the first of
  // them has one to four characters and the second is one of those it counts before; else the last part is.
  lemma ExtensionOfTwo(p: string, a: string, x: string, y: string)
    requires BaseName(p) == a + "." + x + "." + y && '.' !in x && '.' !in y && BaseName(p) != ".."
    ensures Extension(p) == if 1 <= |x| <= 4 && IsSecondExtension(y) then "." + x + "." + y else "." + y
  {
    hide BaseName, ExtensionSeparatorPosition;
    var name := a + "." + x + "." + y;
    assert name[|a|] == '.' && name[|a|] in name;
    BaseNameWithDot(p);
    DotOfTwo(a, x, y);
    assert name[|a|..] == "." + x + "." + y && name[|a| + 1 + |x|..] == "." + y;
  }

  // With one dot the part after it is, even if nothing comes before it.
  lemma ExtensionOfOne(p: string, a: string, y: string)
    requires BaseName(p) == a + "." + y && '.' !in a && '.' !in y && BaseName(p) != "."
    ensures Extension(p) == "." + y
  {
    hide BaseName, ExtensionSeparatorPosition;
    DotOfOne(a, y);
    assert (a + "." + y)[|a|..] == "." + y;
  }

  lemma ExtensionOfTwoExample()
    ensures Extension("foo.tar.gz") == ".tar.gz" && Extension("foo.12345.gz") == ".gz"
  {
    hide Extension, IsSecondExtension, BaseName;
    var name, name' := "foo" + "." + "tar" + "." + "gz", "foo" + "." + "12345" + "." + "gz";
    assert name == "foo.tar.gz" && name' == "foo.12345.gz";
    NameIsBaseName("foo.tar.gz");
    NameIsBaseName("foo.12345.gz");
    assert IsSecondExtension("gz") by { GzIsSecond(); }
    ExtensionOfTwo("foo.tar.gz", "foo", "tar", "gz");
    ExtensionOfTwo("foo.12345.gz", "foo", "12345", "gz");
    assert "." + "tar" + "." + "gz" == ".tar.gz" && "." + "gz" == ".gz";
  }

  lemma GzIsSecond()
    ensures IsSecondExtension("gz")
  {
  }

  lemma NameIsBaseName(name: string)
    requires IsName(name)
    ensures BaseName(name) == name
  {
    hide BaseName;
    assert "" + name == name;
    HeadAndName("", name);
  }

  lemma {:induction false} StripSeparators(q: string, separators: string)
    requires AllSeparators(separators)
    ensures DropTrailing(q + separators) == DropTrailing(q)
  {
    if separators == "" {
      assert q + separators == q;
    } else {
      var n := |separators| - 1;
      assert separators[n] in separators && forall c | c in separators[..n] :: c in separators;
      assert (q + separators)[..|q| + n] == q + separators[..n];
      StripSeparators(q, separators[..n]);
    }
  }

  lemma BaseNameBeforeSeparators(head: string, name: string, separators: string)
    requires IsHead(head) && IsName(name) && AllSeparators(separators)
    ensures BaseName(head + name + separators) == name && Strip(head + name + separators) == head + name
  {
    hide BaseName, Strip, DropTrailing, LastIndex, Names;
    var p := head + name + separators;
    HeadAndName(head, name);
    StripHeadAndName(head, name);
    StripSeparators(head + name, separators);
    assert p[|head|] == name[0] && name[0] in name && p[|head|] in p;
    hide IsName, IsHead;
    BaseNameOfStripped(p);
  }

  // Where separators come after the name, what is removed begins at its last dot, and includes them.
  // A dot with no second extension after it is the one that is found.
  lemma DotBeforeSeparators(a: string, y: string)
    requires '.' !in y && y != "" && y[|y| - 1] == '/'
    ensures ExtensionSeparatorPosition(a + "." + y) == |a|
  {
    hide LastIndex, IsCommonDoubleExtension;
    var p := a + "." + y;
    assert p == a + ['.'] + y && p[|p| - 1] == '/';
    LastIndexBefore(a, '.', y);
    assert p[|a| + 1..] == y;
    SecondExtensionIff(y);
  }

  lemma RemoveExtensionBeforeSeparators(head: string, a: string, y: string, separators: string)
    requires IsHead(head) && NoSeparators(a + "." + y) && '.' !in y && a + "." + y != "." && a + "." + y != ".."
    requires AllSeparators(separators) && separators != ""
    ensures RemoveExtension(head + (a + "." + y) + separators) == head + a
  {
    hide BaseName, Strip, Extension, ExtensionSeparatorPosition;
    var name := a + "." + y;
    var p := head + name + separators;
    assert name[|a|] == '.' && name[|a|] in name;
    BaseNameBeforeSeparators(head, name, separators);
    ExtensionEmptyIff(p);
    assert separators[|separators| - 1] in separators && (y + separators)[|y + separators| - 1] == '/';
    assert '.' !in y + separators;
    DotBeforeSeparators(head + a, y + separators);
    assert p == (head + a) + "." + (y + separators);
    assert p[..|head + a|] == head + a;
  }

  // For the last names left out the result is the empty path.
  lemma InsertIntoSpecialName(p: string, suffix: string)
    requires suffix != ""
    ensures BaseName(p) == "" || BaseName(p) == "." || BaseName(p) == ".." ==> InsertBeforeExtension(p, suffix) == ""
    ensures InsertBeforeExtension(p, suffix) == "" ==> BaseName(p) == "" || BaseName(p) == "." || BaseName(p) == ".."
  {
    hide BaseName, Extension, RemoveExtension;
  }

  lemma InsertBeforeSeparators(head: string, a: string, y: string, separators: string, suffix: string)
    requires IsHead(head) && NoSeparators(a + "." + y) && '.' !in y && a + "." + y != "." && a + "." + y != ".."
    requires AllSeparators(separators) && separators != "" && suffix != ""
    ensures var p := head + (a + "." + y) + separators;
            InsertBeforeExtension(p, suffix) == head + a + suffix + Extension(p)
  {
    hide BaseName, Strip, Extension, RemoveExtension;
    RemoveExtensionBeforeSeparators(head, a, y, separators);
    var name := a + "." + y;
    assert name[|a|] == '.' && name[|a|] in name;
    BaseNameBeforeSeparators(head, name, separators);
  }

  predicate NoDots(s: string) {
    forall c | c in s :: c != '.'
  }

  /** ".x", or ".x.y" with x of one to four characters and y one of the common second extensions. */
  ghost predicate IsExtension(e: string) {
    && e != "" && e[0] == '.'
    && (|| NoDots(e[1..])
        || exists i | 2 <= i <= 5 && i < |e| :: e[i] == '.' && NoDots(e[1..i]) && NoDots(e[i + 1..]) && IsCommonDoubleExtension(e[i + 1..]))
  }

  lemma NoDotsAfter(s: string, from: nat)
    requires from <= |s| && forall i | from <= i < |s| :: s[i] != '.'
    ensures NoDots(s[from..])
  {
  }

  lemma ShapeOfDot(name: string)
    requires ExtensionSeparatorPosition(name) >= 0
    ensures IsExtension(name[ExtensionSeparatorPosition(name)..])
  {
    hide IsCommonDoubleExtension, NoDots;
    var dot, d := ExtensionSeparatorPosition(name), LastIndex(name, '.');
    hide LastIndex;
    var e := name[dot..];
    NoDotsAfter(name, d + 1);
    if dot == d {
      assert e[1..] == name[d + 1..];
    } else {
      var i := d - dot;
      NoDotsAfter(name[..d], dot + 1);
      assert e[i] == '.' && e[i + 1..] == name[d + 1..] && e[1..i] == name[..d][dot + 1..];
    }
  }

  lemma ExtensionShape(p: string)
    requires Extension(p) != ""
    ensures IsExtension(Extension(p)) && NoSeparators(Extension(p))
  {
    hide Strip, DropTrailing, Extension, IsExtension, ExtensionSeparatorPosition;
    var head, name, dot := ExtensionOf(p);
    ShapeOfDot(name);
    assert forall c | c in name[dot..] :: c in name;
  }
}
