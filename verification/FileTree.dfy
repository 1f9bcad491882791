/**
 A finite tree of files, as the calls in base/file_util_posix.cc see it: lstat,
 unlink, rmdir and the reading of a directory. A path is the list of names from
 the root; how a string spells such a list is the subject of module FilePath.
 */
module FileTree {
  import opened Wrappers

  type Path = seq<string>

  /** What lstat tells apart. A symbolic link is not followed: it is neither opened nor entered. */
  datatype Kind = File | Link | Directory

  type Tree = map<Path, Kind>

  function Parent(p: Path): Path
    requires p != []
  {
    p[..|p| - 1]
  }

  predicate IsDirectory(t: Tree, p: Path) {
    p in t && t[p] == Directory
  }

  predicate IsPlainName(name: string) {
    name != "" && name != "." && name != ".."
  }

  /** Everything but the root lies in a directory, under a name that is not "." or "..". */
  ghost predicate ValidTree(t: Tree) {
    && IsDirectory(t, [])
    && forall p | p in t && p != [] :: IsDirectory(t, Parent(p)) && IsPlainName(p[|p| - 1])
  }

  lemma {:induction false} AncestorsAreDirectories(t: Tree, a: Path, p: Path)
    requires ValidTree(t) && p in t && a < p
    ensures IsDirectory(t, a)
    decreases |p|
  {
    if a != Parent(p) {
      assert a < Parent(p);
      AncestorsAreDirectories(t, a, Parent(p));
    }
  }

  ghost predicate IsEmptyDirectory(t: Tree, p: Path) {
    IsDirectory(t, p) && forall q | q in t && q != [] :: Parent(q) != p
  }

  lemma EmptyDirectoryIsAlone(t: Tree, p: Path)
    requires ValidTree(t) && IsEmptyDirectory(t, p)
    ensures forall q | q in t && p <= q :: q == p
  {
    forall q | q in t && p < q
      ensures false
    {
      var child := q[..|p| + 1];
      assert Parent(child) == p && (child == q || child < q);
      if child < q {
        AncestorsAreDirectories(t, child, q);
      }
    }
  }

  predicate CanMake(t: Tree, p: Path) {
    p !in t && p != [] && IsDirectory(t, Parent(p)) && IsPlainName(p[|p| - 1])
  }

  /** One entry of a directory, with what stat said of it. */
  datatype DirectoryEntryInfo = DirectoryEntryInfo(name: string, isDir: bool)

  predicate DistinctNames(es: seq<DirectoryEntryInfo>) {
    forall i, j | 0 <= i < j < |es| :: es[i].name != es[j].name
  }

  /** es lists directory p in some order: ".", ".." and its children. */
  predicate Lists(t: Tree, p: Path, es: seq<DirectoryEntryInfo>) {
    && DistinctNames(es)
    && (forall e | e in es ::
          || (e.isDir && (e.name == "." || e.name == ".."))
          || (p + [e.name] in t && e.isDir == t[p + [e.name]].Directory?))
    && (forall q | q in t && q != [] && Parent(q) == p :: DirectoryEntryInfo(q[|p|], t[q].Directory?) in es)
    && (exists e | e in es :: e.name == ".")
    && DirectoryEntryInfo("..", true) in es
  }

  /** The system calls. Any of them may fail, unless the system is reliable and the call makes sense. */
  class FileSystem {
    var tree: Tree
    const reliable: bool

    constructor (tree: Tree, reliable: bool)
      ensures this.tree == tree && this.reliable == reliable
    {
      this.tree := tree;
      this.reliable := reliable;
    }

    function Lstat(p: Path): (kind: Option<Kind>)
      reads this
    {
      if p in tree then Some(tree[p]) else None
    }

    method Unlink(p: Path) returns (ok: bool)
      modifies this
      ensures ok ==> p in old(tree) && !old(tree)[p].Directory? && tree == old(tree) - {p}
      ensures !ok ==> tree == old(tree)
      ensures reliable && p in old(tree) && !old(tree)[p].Directory? ==> ok
    {
      var granted: bool := *;
      ok := p in tree && !tree[p].Directory? && (granted || reliable);
      if ok {
        tree := tree - {p};
      }
    }

    method Rmdir(p: Path) returns (ok: bool)
      modifies this
      ensures ok ==> p != [] && IsEmptyDirectory(old(tree), p) && tree == old(tree) - {p}
      ensures !ok ==> tree == old(tree)
      ensures reliable && p != [] && IsEmptyDirectory(old(tree), p) ==> ok
    {
      var granted: bool := *;
      ok := p != [] && IsDirectory(tree, p) && (forall q | q in tree :: q != [] ==> Parent(q) != p) && (granted || reliable);
      if ok {
        tree := tree - {p};
      }
    }

    /** Another process may create the same directory first; then the call fails all the same. */
    method Mkdir(p: Path) returns (ok: bool)
      modifies this
      ensures ok ==> CanMake(old(tree), p) && tree == old(tree)[p := Directory]
      ensures !ok ==> tree == old(tree) || (CanMake(old(tree), p) && tree == old(tree)[p := Directory])
      ensures reliable && CanMake(old(tree), p) ==> ok
    {
      var granted: bool := *;
      var raced: bool := *;
      ok := false;
      if CanMake(tree, p) {
        if granted || reliable {
          tree := tree[p := Directory];
          ok := true;
        } else if raced {
          tree := tree[p := Directory];
        }
      }
    }

    method ReadDirectory(p: Path) returns (ok: bool, es: seq<DirectoryEntryInfo>)
      requires ValidTree(tree)
      ensures ok ==> IsDirectory(tree, p) && Lists(tree, p, es)
      ensures reliable && IsDirectory(tree, p) ==> ok
    {
      es := [];
      var granted: bool := *;
      ok := IsDirectory(tree, p) && (granted || reliable);
      if ok {
        ListingExists(tree, p);
        es :| Lists(tree, p, es);
      }
    }
  }

  // A directory can be listed.
  lemma ListingExists(t: Tree, p: Path)
    requires ValidTree(t)
    ensures exists es :: Lists(t, p, es)
  {
    var es := ListChildren(t, p, set q | q in t && q != [] && Parent(q) == p);
    AddDots(t, p, es);
  }

  lemma AddDots(t: Tree, p: Path, es: seq<DirectoryEntryInfo>)
    requires ValidTree(t) && DistinctNames(es)
    requires forall e | e in es :: p + [e.name] in t && e.isDir == t[p + [e.name]].Directory?
    requires forall q | q in t && q != [] && Parent(q) == p :: DirectoryEntryInfo(q[|p|], t[q].Directory?) in es
    ensures Lists(t, p, es + [DirectoryEntryInfo(".", true), DirectoryEntryInfo("..", true)])
  {
    var dot, dotDot := DirectoryEntryInfo(".", true), DirectoryEntryInfo("..", true);
    var all := es + [dot, dotDot];
    assert all[|es|] == dot && all[|es| + 1] == dotDot;
    forall e | e in es
      ensures IsPlainName(e.name)
    {
      assert (p + [e.name])[|p|] == e.name;
    }
  }

  lemma ListChildren(t: Tree, p: Path, children: set<Path>) returns (es: seq<DirectoryEntryInfo>)
    requires forall q | q in children :: q in t && |q| == |p| + 1 && q[..|p|] == p
    ensures forall e | e in es :: p + [e.name] in children && e.isDir == t[p + [e.name]].Directory?
    ensures forall q | q in children :: DirectoryEntryInfo(q[|p|], t[q].Directory?) in es
    ensures DistinctNames(es)
    decreases |children|
  {
    if q :| q in children {
      var rest := children - {q};
      assert |rest| < |children|;
      es := ListChildren(t, p, rest);
      assert q == p + [q[|p|]];
      es := [DirectoryEntryInfo(q[|p|], t[q].Directory?)] + es;
      assert forall c | c in children :: c == q || c in rest;
    } else {
      es := [];
    }
  }
}
