/** Model of CreateDirectory in base/file_util_posix.cc, over FileTree and the DirName of FilePath. */
module CreateDirectory {
  import opened Wrappers
  import opened FileTree
  import opened FilePath

  // ---------- How the system finds the file a string names ----------

  /** Where the name leads from a directory. */
  function Enter(at: Path, name: string): Path {
    if name == CURRENT_DIRECTORY then at
    else if name == PARENT_DIRECTORY then (if at == [] then [] else Parent(at))
    else at + [name]
  }

  /** The system's walk along names; it goes on only from a directory. */
  function Walk(t: Tree, at: Path, names: seq<string>): Option<Path>
    decreases |names|
  {
    if names == [] then Some(at)
    else if !IsDirectory(t, at) then None
    else Walk(t, Enter(at, names[0]), names[1..])
  }

  /** Where p starts: an absolute path at the root, another one in the working directory. */
  function Start(cwd: Path, p: string): Path {
    if Root(p) != "" then [] else cwd
  }

  // A name and then ".." lead back to where they started; from the root ".." leads nowhere else.
  lemma UpAgain(t: Tree, at: Path, x: string, names: seq<string>)
    requires IsDirectory(t, at)
    ensures IsPlainName(x) && IsDirectory(t, at + [x]) ==> Walk(t, at, [x, ".."] + names) == Walk(t, at, names)
    ensures at == [] ==> Walk(t, at, [".."] + names) == Walk(t, at, names)
  {
    assert ([x, ".."] + names)[1..] == [".."] + names && ([".."] + names)[1..] == names;
    assert Parent(at + [x]) == at;
  }

  function Resolve(t: Tree, cwd: Path, p: string): Option<Path> {
    if p == "" then None else Walk(t, Start(cwd, p), Names(p))
  }

  predicate DirectoryExists(t: Tree, cwd: Path, p: string) {
    var r := Resolve(t, cwd, p);
    r.Some? && IsDirectory(t, r.value)
  }

  method MakeDirectory(fs: FileSystem, cwd: Path, p: string) returns (ok: bool)
    modifies fs
    ensures var r := Resolve(old(fs.tree), cwd, p);
            var can := r.Some? && CanMake(old(fs.tree), r.value);
            && (ok ==> can)
            && (ok || fs.tree != old(fs.tree) ==> can && fs.tree == old(fs.tree)[r.value := Directory])
            && (fs.reliable && can ==> ok)
  {
    var r := Resolve(fs.tree, cwd, p);
    if r == None {
      return false;
    }
    ok := fs.Mkdir(r.value);
  }

  // ---------- The chain of DirName ----------

  /** p, its DirName, and so on up to the one that is its own DirName. */
  function Chain(p: string): seq<string>
    decreases StepsToTop(p)
  {
    if DirName(p) == p then [p]
    else
      DirNameTerminates(p);
      [p] + Chain(DirName(p))
  }

  method CollectParents(fullPath: string) returns (subpaths: seq<string>)
    ensures subpaths == Chain(fullPath)
  {
    hide DirName, StepsToTop;
    var lastPath := fullPath;
    subpaths := [fullPath];
    var path := DirName(fullPath);
    while path != lastPath
      invariant path == DirName(lastPath)
      invariant Chain(fullPath) == subpaths + Chain(lastPath)[1..]
      decreases StepsToTop(lastPath)
    {
      DirNameTerminates(lastPath);
      assert Chain(lastPath) == [lastPath] + Chain(path);
      subpaths := subpaths + [path];
      lastPath := path;
      path := DirName(path);
    }
  }

  /** The place p names if every directory on the way is there. */
  function Place(cwd: Path, p: string): Path {
    EnterAll(Start(cwd, p), Names(p))
  }

  function EnterAll(at: Path, names: seq<string>): Path
    decreases |names|
  {
    if names == [] then at else Enter(EnterAll(at, names[..|names| - 1]), names[|names| - 1])
  }

  lemma {:induction false} WalkOneFurther(t: Tree, at: Path, names: seq<string>, n: string)
    ensures var w := Walk(t, at, names);
            Walk(t, at, names + [n]) == if w.Some? && IsDirectory(t, w.value) then Some(Enter(w.value, n)) else None
    decreases |names|
  {
    if names == [] {
      assert [] + [n] == [n];
      assert [n][1..] == [];
    } else {
      assert (names + [n])[1..] == names[1..] + [n];
      if IsDirectory(t, at) {
        WalkOneFurther(t, Enter(at, names[0]), names[1..], n);
      }
    }
  }

  lemma EnterAllOneFurther(at: Path, names: seq<string>, n: string)
    ensures EnterAll(at, names + [n]) == Enter(EnterAll(at, names), n)
  {
    assert (names + [n])[..|names|] == names;
  }

  /** The system finds p at its place, and a directory there. */
  ghost predicate IsThere(t: Tree, cwd: Path, p: string) {
    Resolve(t, cwd, p) == Some(Place(cwd, p)) && IsDirectory(t, Place(cwd, p))
  }

  lemma DotIsCwd(t: Tree, cwd: Path)
    ensures Place(cwd, ".") == cwd
    ensures Resolve(t, cwd, ".") == if IsDirectory(t, cwd) then Some(cwd) else None
  {
    hide Names;
    RootsAreSeparators();
    assert Names(".") == ["."] by {
      assert "" + "." == ".";
      HeadAndName("", ".");
      NamesEmptyIff("");
    }
    assert ["."][..0] == [] && ["."][1..] == [];
  }

  lemma SeparatorsAreRoot(t: Tree, cwd: Path, p: string)
    requires AllSeparators(p) && p != ""
    ensures Place(cwd, p) == [] && Resolve(t, cwd, p) == Some([])
  {
    hide Names, Root;
    NamesEmptyIff(p);
    ComponentsOfSeparators(p);
  }

  // Once its DirName is there, the system looks for p at its place.
  lemma FoundAtPlace(t: Tree, cwd: Path, p: string) returns (name: string)
    requires p != "" && DirName(p) != p && IsThere(t, cwd, DirName(p))
    ensures Resolve(t, cwd, p) == Some(Place(cwd, p))
    ensures Place(cwd, p) == Place(cwd, DirName(p)) || (IsName(name) && Place(cwd, p) == Enter(Place(cwd, DirName(p)), name))
  {
    hide Names, Root, DirName, LastIndex, DropTrailing, Walk, EnterAll;
    name := "";
    if AllSeparators(p) {
      SeparatorsAreRoot(t, cwd, p);
      DirNameOfSeparators(p);
      StripOfSeparators(p);
      SeparatorsAreRoot(t, cwd, DirName(p));
    } else {
      var head;
      head, name := LastName(p);
      WalkOneFurther(t, Start(cwd, p), Names(head), name);
      EnterAllOneFurther(Start(cwd, p), Names(head), name);
      if head == "" {
        DirNameOfLoneName(p, name);
        DotIsCwd(t, cwd);
        NamesEmptyIff("");
        WalkNowhere(t, cwd);
      } else if AllSeparators(head) {
        DirNameUnderRoot(p, head, name);
        RootsAreSeparators();
        NamesEmptyIff(head);
        NamesEmptyIff(DirName(p));
      } else {
        DirNameBelow(p, head, name);
      }
    }
  }

  lemma WalkNowhere(t: Tree, at: Path)
    ensures Walk(t, at, []) == Some(at) && EnterAll(at, []) == at
  {
  }

  lemma TopIsThere(t: Tree, cwd: Path, p: string)
    requires ValidTree(t) && IsDirectory(t, cwd) && DirName(p) == p
    ensures IsThere(t, cwd, p)
  {
    hide DirName, Names, Root, Place, Resolve;
    DirNameDescends(p);
    RootsAreSeparators();
    if p == "." {
      DotIsCwd(t, cwd);
    } else {
      SeparatorsAreRoot(t, cwd, p);
    }
  }

  // What is not there yet can be made, and then is there.
  lemma CanBeMade(t: Tree, cwd: Path, p: string)
    requires ValidTree(t) && p != "" && DirName(p) != p && IsThere(t, cwd, DirName(p)) && Place(cwd, p) !in t
    ensures CanMake(t, Place(cwd, p))
  {
    hide DirName, Names, Root, Place, Resolve;
    var name := FoundAtPlace(t, cwd, p);
    var at := Place(cwd, DirName(p));
    assert name == PARENT_DIRECTORY && at != [] ==> IsDirectory(t, Parent(at));
  }

  lemma MakeKeepsValid(t: Tree, p: Path)
    requires ValidTree(t) && CanMake(t, p)
    ensures ValidTree(t[p := Directory])
  {
  }

  lemma {:induction false} MoreDirectories(t: Tree, t': Tree, at: Path, names: seq<string>)
    requires forall x | IsDirectory(t, x) :: IsDirectory(t', x)
    requires Walk(t, at, names).Some?
    ensures Walk(t', at, names) == Walk(t, at, names)
    decreases |names|
  {
    if names != [] {
      MoreDirectories(t, t', Enter(at, names[0]), names[1..]);
    }
  }

  // ---------- CreateDirectory ----------

  /** now is t with a directory at the place of each member. */
  ghost predicate Made(t: Tree, now: Tree, cwd: Path, members: seq<string>) {
    && (forall x | x in t :: x in now && now[x] == t[x])
    && (forall x | x in now && x !in t :: now[x] == Directory && exists m | m in members :: x == Place(cwd, m))
    && (forall m | m in members :: Place(cwd, m) in now)
  }

  /** No member's place holds anything but a directory. */
  ghost predicate Unobstructed(t: Tree, cwd: Path, members: seq<string>) {
    forall m | m in members && Place(cwd, m) in t :: IsDirectory(t, Place(cwd, m))
  }

  lemma {:induction false} ChainLinks(p: string)
    ensures var c := Chain(p);
            && c != [] && c[0] == p && DirName(c[|c| - 1]) == c[|c| - 1]
            && (forall k | 0 <= k < |c| - 1 :: c[k + 1] == DirName(c[k]) != c[k])
            && (forall k | 0 < k < |c| :: c[k] != "")
    decreases StepsToTop(p)
  {
    hide DirName;
    DirNameDescends(p);
    if DirName(p) != p {
      DirNameTerminates(p);
      ChainLinks(DirName(p));
    }
  }

  // One turn of the loop of CreateDirectory, when the member is there at its end.
  lemma OneMoreMade(t: Tree, now: Tree, now': Tree, cwd: Path, members: seq<string>, m: string)
    requires Made(t, now, cwd, members) && Unobstructed(t, cwd, members)
    requires now' == now || (Place(cwd, m) !in now && now' == now[Place(cwd, m) := Directory])
    requires IsDirectory(now', Place(cwd, m))
    ensures Made(t, now', cwd, [m] + members) && Unobstructed(t, cwd, [m] + members)
  {
    hide Place;
    assert ([m] + members)[0] == m && forall n | n in members :: n in [m] + members;
    forall n | n in [m] + members
      ensures n == m || n in members
    {
    }
  }

  lemma NothingMade(t: Tree, cwd: Path)
    ensures Made(t, t, cwd, []) && Unobstructed(t, cwd, [])
  {
  }

  // A member that is not there and cannot be made, once its DirName is there, is obstructed.
  lemma Obstructed(t: Tree, now: Tree, cwd: Path, members: seq<string>, m: string, all: seq<string>)
    requires Made(t, now, cwd, members) && m in all
    requires Place(cwd, m) in now && !IsDirectory(now, Place(cwd, m))
    ensures !Unobstructed(t, cwd, all)
  {
  }

  /** The member before m in the loop, which is its DirName, is there; or m comes first. */
  ghost predicate CanBeLookedUp(now: Tree, cwd: Path, m: string) {
    ValidTree(now) && IsDirectory(now, cwd) && (DirName(m) == m || IsThere(now, cwd, DirName(m)))
  }

  lemma LookUp(now: Tree, cwd: Path, m: string)
    requires CanBeLookedUp(now, cwd, m)
    ensures Resolve(now, cwd, m) == if m == "" then None else Some(Place(cwd, m))
    ensures m != "" && Place(cwd, m) !in now ==> CanMake(now, Place(cwd, m))
  {
    hide DirName, Place, Resolve, CanMake, ValidTree;
    if m == "" {
      NoEmptyPath(now, cwd);
    } else if DirName(m) == m {
      TopIsThere(now, cwd, m);
    } else {
      var name := FoundAtPlace(now, cwd, m);
      if Place(cwd, m) !in now {
        CanBeMade(now, cwd, m);
      }
    }
  }

  lemma NoEmptyPath(t: Tree, cwd: Path)
    ensures Resolve(t, cwd, "") == None
  {
  }

  lemma MadeIsThere(now: Tree, cwd: Path, m: string)
    requires Resolve(now, cwd, m) == Some(Place(cwd, m)) && Place(cwd, m) !in now
    ensures IsThere(now[Place(cwd, m) := Directory], cwd, m)
  {
    hide Place, Names, Root;
    MoreDirectories(now, now[Place(cwd, m) := Directory], Start(cwd, m), Names(m));
  }

  /** One turn of the loop of CreateDirectory: sees to it that member is a directory. */
  method EnsureDirectory(fs: FileSystem, cwd: Path, member: string) returns (ok: bool)
    requires CanBeLookedUp(fs.tree, cwd, member)
    modifies fs
    ensures ValidTree(fs.tree) && IsDirectory(fs.tree, cwd)
    ensures ok ==> member != "" && IsThere(fs.tree, cwd, member)
    ensures fs.tree == old(fs.tree)
            || (ok && Place(cwd, member) !in old(fs.tree) && fs.tree == old(fs.tree)[Place(cwd, member) := Directory])
    ensures !ok && fs.reliable ==>
              member == "" || (Place(cwd, member) in fs.tree && !IsDirectory(fs.tree, Place(cwd, member)))
  {
    hide DirName, Place, Resolve, ValidTree;
    LookUp(fs.tree, cwd, member);
    if DirectoryExists(fs.tree, cwd, member) {
      return true;
    }
    ghost var now := fs.tree;
    var made := MakeDirectory(fs, cwd, member);
    if fs.tree != now {
      MakeKeepsValid(now, Place(cwd, member));
      MadeIsThere(now, cwd, member);
    }
    if made {
      return true;
    }
    return DirectoryExists(fs.tree, cwd, member);
  }

  method CreateDirectory(fs: FileSystem, cwd: Path, fullPath: string) returns (ok: bool)
    requires ValidTree(fs.tree) && IsDirectory(fs.tree, cwd)
    modifies fs
    ensures ValidTree(fs.tree)
    ensures ok ==> IsThere(fs.tree, cwd, fullPath) && Made(old(fs.tree), fs.tree, cwd, Chain(fullPath))
    ensures ok ==> fullPath != "" && Unobstructed(old(fs.tree), cwd, Chain(fullPath))
    ensures !ok ==> exists i | 0 <= i <= |Chain(fullPath)| :: Made(old(fs.tree), fs.tree, cwd, Chain(fullPath)[i..])
    ensures fs.reliable && fullPath != "" && Unobstructed(old(fs.tree), cwd, Chain(fullPath)) ==> ok
  {
    hide ValidTree, DirName, Place, Resolve, Made, Unobstructed, CanMake, Chain, IsThere;
    ghost var t := fs.tree;
    NothingMade(t, cwd);
    ChainLinks(fullPath);
    var subpaths := CollectParents(fullPath);
    var i := |subpaths|;
    assert subpaths[i..] == [];
    while i > 0
      invariant 0 <= i <= |subpaths| && ValidTree(fs.tree) && IsDirectory(fs.tree, cwd)
      invariant Made(t, fs.tree, cwd, subpaths[i..]) && Unobstructed(t, cwd, subpaths[i..])
      invariant i < |subpaths| ==> IsThere(fs.tree, cwd, subpaths[i])
      invariant i == 0 ==> fullPath != ""
    {
      ghost var now, member := fs.tree, subpaths[i - 1];
      assert subpaths[i - 1..] == [member] + subpaths[i..];
      ok := EnsureDirectory(fs, cwd, subpaths[i - 1]);
      if !ok {
        if fs.reliable && member != "" {
          Obstructed(t, now, cwd, subpaths[i..], member, subpaths);
        }
        return;
      }
      ThereIsDirectory(fs.tree, cwd, member);
      OneMoreMade(t, now, fs.tree, cwd, subpaths[i..], member);
      i := i - 1;
    }
    assert subpaths[0..] == subpaths;
    return true;
  }

  lemma ThereIsDirectory(t: Tree, cwd: Path, m: string)
    requires IsThere(t, cwd, m)
    ensures IsDirectory(t, Place(cwd, m))
  {
  }
}
