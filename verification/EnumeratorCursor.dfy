/**
 The state of FileEnumerator in base/file_util_posix.cc, without a pattern, as a
 value: a stack of directories still to read, and the listing of the one being
 returned. A directory is read at a time, and an entry returned at a time.
 */
module EnumeratorCursor {
  import opened Wrappers
  import opened FileTree

  /** The FileType mask. Symbolic links are always shown, never followed. */
  datatype FileTypes = FileTypes(files: bool, directories: bool, includeDotDot: bool)

  predicate IsSelected(types: FileTypes, isDir: bool) {
    if isDir then types.directories else types.files
  }

  predicate ShouldSkip(types: FileTypes, name: string) {
    name == "." || (name == ".." && !types.includeDotDot)
  }

  /** q is to be returned for the directory p on the stack. */
  ghost predicate InListing(t: Tree, recursive: bool, types: FileTypes, p: Path, q: Path) {
    && IsDirectory(t, p)
    && (|| (q in t && p < q && (recursive || |q| == |p| + 1) && IsSelected(types, t[q].Directory?))
        || (types.includeDotDot && types.directories && q == p + [".."]))
  }

  /**
   The enumerator between two calls: the stack, whose top is last, and the
   listing of directory root, of which the entries from `next` on are to come.
   */
  datatype Cursor = Cursor(pending: seq<Path>, root: Path, listed: seq<DirectoryEntryInfo>, next: nat)

  ghost predicate IsSibling(c: Cursor, q: Path) {
    exists k | c.next <= k < |c.listed| :: q == c.root + [c.listed[k].name]
  }

  ghost predicate IsPending(t: Tree, recursive: bool, types: FileTypes, pending: seq<Path>, q: Path) {
    exists i | 0 <= i < |pending| :: InListing(t, recursive, types, pending[i], q)
  }

  /** q has yet to be returned. */
  ghost predicate IsToCome(t: Tree, recursive: bool, types: FileTypes, c: Cursor, q: Path) {
    IsSibling(c, q) || IsPending(t, recursive, types, c.pending, q)
  }

  ghost predicate Unrelated(p: Path, q: Path) {
    !(p <= q) && !(q <= p)
  }

  ghost predicate PairwiseUnrelated(pending: seq<Path>) {
    forall i, j | 0 <= i < j < |pending| :: Unrelated(pending[i], pending[j])
  }

  ghost predicate EntryOk(t: Tree, types: FileTypes, root: Path, e: DirectoryEntryInfo) {
    if e.name == ".." then e.isDir && types.includeDotDot && types.directories
    else
      && root + [e.name] in t && e.isDir == t[root + [e.name]].Directory?
      && IsSelected(types, e.isDir)
  }

  ghost predicate CursorOk(t: Tree, recursive: bool, types: FileTypes, c: Cursor) {
    && PairwiseUnrelated(c.pending)
    && (!recursive ==> |c.pending| <= 1 && (c.listed != [] ==> c.pending == []))
    && DistinctNames(c.listed)
    && (forall k | c.next <= k < |c.listed| :: EntryOk(t, types, c.root, c.listed[k]))
    && (c.listed != [] ==> forall i | 0 <= i < |c.pending| :: !(c.pending[i] <= c.root))
  }

  // ---------- Reading a directory ----------

  /** The sub-directories that the listing es of p puts on the stack. */
  function Pushed(recursive: bool, types: FileTypes, p: Path, es: seq<DirectoryEntryInfo>): seq<Path> {
    if es == [] then []
    else
      var e := es[|es| - 1];
      Pushed(recursive, types, p, es[..|es| - 1])
      + (if !ShouldSkip(types, e.name) && recursive && e.isDir then [p + [e.name]] else [])
  }

  /** The entries of es to be returned. */
  function Kept(types: FileTypes, es: seq<DirectoryEntryInfo>): seq<DirectoryEntryInfo> {
    if es == [] then []
    else
      var e := es[|es| - 1];
      Kept(types, es[..|es| - 1])
      + (if !ShouldSkip(types, e.name) && IsSelected(types, e.isDir) then [e] else [])
  }

  lemma {:induction false} PushedMembers(recursive: bool, types: FileTypes, p: Path, es: seq<DirectoryEntryInfo>)
    ensures forall q :: q in Pushed(recursive, types, p, es)
              <==> exists e | e in es :: !ShouldSkip(types, e.name) && recursive && e.isDir && q == p + [e.name]
    ensures |Pushed(recursive, types, p, es)| <= |es|
  {
    if es != [] {
      var n := |es| - 1;
      PushedMembers(recursive, types, p, es[..n]);
      assert es == es[..n] + [es[n]];
    }
  }

  lemma {:induction false} PushedUnrelated(recursive: bool, types: FileTypes, p: Path, es: seq<DirectoryEntryInfo>)
    requires DistinctNames(es)
    ensures PairwiseUnrelated(Pushed(recursive, types, p, es))
  {
    if es != [] {
      var n := |es| - 1;
      var init, e := es[..n], es[n];
      PushedUnrelated(recursive, types, p, init);
      PushedMembers(recursive, types, p, init);
      var ps := Pushed(recursive, types, p, init);
      forall i | 0 <= i < |ps|
        ensures Unrelated(ps[i], p + [e.name])
      {
        assert ps[i] in ps;
        var f :| f in init && ps[i] == p + [f.name];
        assert (p + [f.name])[|p|] == f.name && (p + [e.name])[|p|] == e.name;
      }
    }
  }

  lemma {:induction false} KeptMembers(types: FileTypes, es: seq<DirectoryEntryInfo>)
    ensures forall e :: e in Kept(types, es) <==> e in es && !ShouldSkip(types, e.name) && IsSelected(types, e.isDir)
  {
    if es != [] {
      var n := |es| - 1;
      KeptMembers(types, es[..n]);
      assert es == es[..n] + [es[n]];
    }
  }

  lemma {:induction false} KeptDistinct(types: FileTypes, es: seq<DirectoryEntryInfo>)
    requires DistinctNames(es)
    ensures DistinctNames(Kept(types, es))
  {
    if es != [] {
      var n := |es| - 1;
      KeptDistinct(types, es[..n]);
      KeptMembers(types, es[..n]);
      var kept := Kept(types, es[..n]);
      forall i | 0 <= i < |kept|
        ensures kept[i].name != es[n].name
      {
        assert kept[i] in kept;
      }
    }
  }

  lemma NoEntryYet(recursive: bool, types: FileTypes)
    ensures forall p :: Pushed(recursive, types, p, []) == []
    ensures Kept(types, []) == []
  {
  }

  lemma OneEntryFurther(recursive: bool, types: FileTypes, p: Path, es: seq<DirectoryEntryInfo>, i: nat)
    requires i < |es|
    ensures var e := es[i];
            && Pushed(recursive, types, p, es[..i + 1]) == Pushed(recursive, types, p, es[..i])
               + (if !ShouldSkip(types, e.name) && recursive && e.isDir then [p + [e.name]] else [])
            && Kept(types, es[..i + 1]) == Kept(types, es[..i])
               + (if !ShouldSkip(types, e.name) && IsSelected(types, e.isDir) then [e] else [])
  {
    assert es[..i + 1][..i] == es[..i];
  }

  /** The cursor once the top of the stack has been read. */
  function AfterRead(recursive: bool, types: FileTypes, c: Cursor, es: seq<DirectoryEntryInfo>): Cursor
    requires c.pending != []
  {
    var n := |c.pending| - 1;
    var p := c.pending[n];
    Cursor(c.pending[..n] + Pushed(recursive, types, p, es), p, Kept(types, es), 0)
  }

  lemma UnrelatedToChild(q: Path, p: Path, child: Path)
    requires Unrelated(q, p) && p < child && |child| == |p| + 1
    ensures Unrelated(q, child) && !(q <= p)
  {
  }

  lemma AfterReadUnrelated(recursive: bool, types: FileTypes, c: Cursor, es: seq<DirectoryEntryInfo>)
    requires PairwiseUnrelated(c.pending) && c.pending != [] && DistinctNames(es)
    ensures var c' := AfterRead(recursive, types, c, es);
            PairwiseUnrelated(c'.pending) && forall i | 0 <= i < |c'.pending| :: !(c'.pending[i] <= c'.root)
  {
    hide Pushed, Kept;
    var n := |c.pending| - 1;
    var p := c.pending[n];
    var ps := Pushed(recursive, types, p, es);
    var all := c.pending[..n] + ps;
    PushedMembers(recursive, types, p, es);
    PushedUnrelated(recursive, types, p, es);
    forall j | 0 <= j < |ps|
      ensures p < ps[j] && |ps[j]| == |p| + 1
    {
      assert ps[j] in ps;
    }
    forall i, j | 0 <= i < n && 0 <= j < |ps|
      ensures Unrelated(c.pending[i], ps[j])
    {
      UnrelatedToChild(c.pending[i], p, ps[j]);
    }
    forall i | 0 <= i < |all|
      ensures !(all[i] <= p)
    {
      if i < n {
        assert Unrelated(c.pending[i], c.pending[n]);
      }
    }
  }

  lemma KeptOk(t: Tree, types: FileTypes, p: Path, es: seq<DirectoryEntryInfo>)
    requires Lists(t, p, es)
    ensures forall k | 0 <= k < |Kept(types, es)| :: EntryOk(t, types, p, Kept(types, es)[k])
  {
    hide Kept;
    KeptMembers(types, es);
    forall k | 0 <= k < |Kept(types, es)|
      ensures EntryOk(t, types, p, Kept(types, es)[k])
    {
      var e := Kept(types, es)[k];
      assert e in Kept(types, es) && e in es;
      if e.name == ".." {
        DotDotIsDirectory(t, p, es, e);
      }
    }
  }

  lemma DotDotIsDirectory(t: Tree, p: Path, es: seq<DirectoryEntryInfo>, e: DirectoryEntryInfo)
    requires Lists(t, p, es) && e in es && e.name == ".."
    ensures e.isDir
  {
    var dotDot := DirectoryEntryInfo("..", true);
    var i :| 0 <= i < |es| && es[i] == e;
    var j :| 0 <= j < |es| && es[j] == dotDot;
    assert i == j;
  }

  lemma AfterReadOk(t: Tree, recursive: bool, types: FileTypes, c: Cursor, es: seq<DirectoryEntryInfo>)
    requires CursorOk(t, recursive, types, c) && c.pending != []
    requires Lists(t, c.pending[|c.pending| - 1], es)
    ensures CursorOk(t, recursive, types, AfterRead(recursive, types, c, es))
  {
    hide Pushed, Kept, EntryOk;
    var p := c.pending[|c.pending| - 1];
    AfterReadUnrelated(recursive, types, c, es);
    PushedMembers(recursive, types, p, es);
    assert !recursive ==> Pushed(recursive, types, p, es) == [] by {
      assert forall q :: q in Pushed(recursive, types, p, es) ==> recursive;
      if Pushed(recursive, types, p, es) != [] {
        assert Pushed(recursive, types, p, es)[0] in Pushed(recursive, types, p, es);
      }
    }
    KeptDistinct(types, es);
    KeptOk(t, types, p, es);
  }

  lemma ChildDirectoryIsPushed(t: Tree, recursive: bool, types: FileTypes, p: Path, es: seq<DirectoryEntryInfo>, d: Path)
    requires ValidTree(t) && Lists(t, p, es) && recursive
    requires IsDirectory(t, d) && d != [] && Parent(d) == p
    ensures d in Pushed(recursive, types, p, es)
  {
    hide Pushed, Lists, ValidTree, IsDirectory;
    var e := DirectoryEntryInfo(d[|p|], true);
    ChildIsListed(t, p, es, d);
    assert !ShouldSkip(types, e.name);
    PushedMembers(recursive, types, p, es);
  }

  lemma ChildIsListed(t: Tree, p: Path, es: seq<DirectoryEntryInfo>, d: Path)
    requires ValidTree(t) && Lists(t, p, es) && IsDirectory(t, d) && d != [] && Parent(d) == p
    ensures |d| == |p| + 1 && d == p + [d[|p|]] && IsPlainName(d[|p|]) && DirectoryEntryInfo(d[|p|], true) in es
  {
    hide IsPlainName, DistinctNames;
    assert d == Parent(d) + [d[|p|]];
    assert IsPlainName(d[|d| - 1]) by {
      hide Lists;
    }
    hide ValidTree;
    assert DirectoryEntryInfo(d[|p|], t[d].Directory?) in es;
  }

  lemma BranchBelow(t: Tree, recursive: bool, types: FileTypes, p: Path, q: Path)
    requires ValidTree(t) && q in t && p < q && |q| > |p| + 1 && InListing(t, recursive, types, p, q) && recursive
    ensures var d := q[..|p| + 1];
            d != [] && Parent(d) == p && IsDirectory(t, d) && InListing(t, recursive, types, d, q)
  {
    var d := q[..|p| + 1];
    assert d < q && Parent(d) == p;
    AncestorsAreDirectories(t, d, q);
  }

  lemma ReadForwardDeep(t: Tree, recursive: bool, types: FileTypes, c: Cursor, es: seq<DirectoryEntryInfo>, q: Path)
    requires ValidTree(t) && c.pending != [] && Lists(t, c.pending[|c.pending| - 1], es)
    requires var p := c.pending[|c.pending| - 1];
             q in t && p < q && |q| > |p| + 1 && InListing(t, recursive, types, p, q) && recursive
    ensures IsPending(t, recursive, types, AfterRead(recursive, types, c, es).pending, q)
  {
    hide Pushed, Kept, EntryOk, Lists, InListing, ValidTree, IsDirectory;
    var n := |c.pending| - 1;
    var p := c.pending[n];
    var ps := Pushed(recursive, types, p, es);
    var d := q[..|p| + 1];
    BranchBelow(t, recursive, types, p, q);
    ChildDirectoryIsPushed(t, recursive, types, p, es, d);
    var j :| 0 <= j < |ps| && ps[j] == d;
    assert (c.pending[..n] + ps)[n + j] == d;
  }

  lemma ReadForwardEntry(t: Tree, recursive: bool, types: FileTypes, c: Cursor, es: seq<DirectoryEntryInfo>, q: Path)
    requires ValidTree(t) && c.pending != [] && Lists(t, c.pending[|c.pending| - 1], es)
    requires var p := c.pending[|c.pending| - 1];
             InListing(t, recursive, types, p, q) && |q| == |p| + 1
    ensures IsSibling(AfterRead(recursive, types, c, es), q)
  {
    hide Pushed, Kept, EntryOk;
    var p := c.pending[|c.pending| - 1];
    var c' := AfterRead(recursive, types, c, es);
    KeptMembers(types, es);
    assert q[..|p|] == p && q == p + [q[|p|]];
    var e := DirectoryEntryInfo(q[|p|], if q in t then t[q].Directory? else true);
    assert q in t ==> Parent(q) == p && IsPlainName(q[|p|]);
    assert e in es && e in c'.listed;
    var k :| 0 <= k < |c'.listed| && c'.listed[k] == e;
  }

  lemma DeepListing(t: Tree, recursive: bool, types: FileTypes, p: Path, q: Path)
    requires InListing(t, recursive, types, p, q) && |q| != |p| + 1
    ensures recursive && q in t && p < q && |q| > |p| + 1
  {
  }

  lemma ReadBackwardEntry(t: Tree, recursive: bool, types: FileTypes, c: Cursor, es: seq<DirectoryEntryInfo>, q: Path)
    requires c.pending != [] && Lists(t, c.pending[|c.pending| - 1], es)
    requires IsDirectory(t, c.pending[|c.pending| - 1])
    requires IsSibling(AfterRead(recursive, types, c, es), q)
    ensures InListing(t, recursive, types, c.pending[|c.pending| - 1], q)
  {
    hide Pushed, Kept, Lists;
    var p := c.pending[|c.pending| - 1];
    var c' := AfterRead(recursive, types, c, es);
    KeptOk(t, types, p, es);
    var k :| 0 <= k < |c'.listed| && q == p + [c'.listed[k].name];
    assert EntryOk(t, types, p, c'.listed[k]);
  }

  lemma ReadBackwardDeep(t: Tree, recursive: bool, types: FileTypes, c: Cursor, es: seq<DirectoryEntryInfo>, q: Path)
    requires c.pending != [] && IsDirectory(t, c.pending[|c.pending| - 1]) && !(recursive && types.includeDotDot)
    requires IsPending(t, recursive, types, AfterRead(recursive, types, c, es).pending, q)
    ensures IsPending(t, recursive, types, c.pending, q)
  {
    hide Pushed, Kept;
    var n := |c.pending| - 1;
    var p := c.pending[n];
    var ps := Pushed(recursive, types, p, es);
    var all := c.pending[..n] + ps;
    var i :| 0 <= i < |all| && InListing(t, recursive, types, all[i], q);
    if i < n {
      assert all[i] == c.pending[i];
    } else {
      assert all[i] == ps[i - n] && ps[i - n] in ps;
      PushedMembers(recursive, types, p, es);
      assert InListing(t, recursive, types, c.pending[n], q);
    }
  }

  // Reading a directory changes nothing about what is to come.
  lemma AfterReadToCome(t: Tree, recursive: bool, types: FileTypes, c: Cursor, es: seq<DirectoryEntryInfo>, q: Path)
    requires ValidTree(t) && c.pending != [] && |c.listed| <= c.next
    requires !(recursive && types.includeDotDot)
    requires Lists(t, c.pending[|c.pending| - 1], es) && IsDirectory(t, c.pending[|c.pending| - 1])
    ensures IsToCome(t, recursive, types, c, q) <==> IsToCome(t, recursive, types, AfterRead(recursive, types, c, es), q)
  {
    hide Pushed, Kept, InListing;
    var n := |c.pending| - 1;
    var c' := AfterRead(recursive, types, c, es);
    if IsToCome(t, recursive, types, c, q) {
      var i :| 0 <= i < |c.pending| && InListing(t, recursive, types, c.pending[i], q);
      if i == n {
        if |q| == |c.pending[n]| + 1 {
          ReadForwardEntry(t, recursive, types, c, es, q);
        } else {
          assert q in t && c.pending[n] < q && recursive by {
            DeepListing(t, recursive, types, c.pending[n], q);
          }
          ReadForwardDeep(t, recursive, types, c, es, q);
        }
      } else {
        assert c'.pending[i] == c.pending[i];
      }
    }
    if IsToCome(t, recursive, types, c', q) {
      if IsSibling(c', q) {
        ReadBackwardEntry(t, recursive, types, c, es, q);
      } else {
        ReadBackwardDeep(t, recursive, types, c, es, q);
      }
    }
  }

  // A directory that cannot be read is dropped with all that lies below it.
  lemma AfterDrop(t: Tree, recursive: bool, types: FileTypes, c: Cursor)
    requires CursorOk(t, recursive, types, c) && c.pending != [] && |c.listed| <= c.next
    ensures var n := |c.pending| - 1;
            var c' := Cursor(c.pending[..n], c.pending[n], c.listed, c.next);
            && CursorOk(t, recursive, types, c')
            && (forall q | IsToCome(t, recursive, types, c', q) :: IsToCome(t, recursive, types, c, q))
            && (!IsDirectory(t, c.pending[n]) ==>
                  forall q | IsToCome(t, recursive, types, c, q) :: IsToCome(t, recursive, types, c', q))
  {
    var n := |c.pending| - 1;
    var c' := Cursor(c.pending[..n], c.pending[n], c.listed, c.next);
    forall q | IsToCome(t, recursive, types, c', q)
      ensures IsToCome(t, recursive, types, c, q)
    {
      var i :| 0 <= i < n && InListing(t, recursive, types, c'.pending[i], q);
      assert c.pending[i] == c'.pending[i];
    }
    if !IsDirectory(t, c.pending[n]) {
      forall q | IsToCome(t, recursive, types, c, q)
        ensures IsToCome(t, recursive, types, c', q)
      {
        var i :| 0 <= i <= n && InListing(t, recursive, types, c.pending[i], q);
        assert c.pending[i] == c'.pending[i];
      }
    }
  }

  // Returning one entry takes exactly that path from what is to come; no directory above it is left.
  lemma ReturnOne(t: Tree, recursive: bool, types: FileTypes, c: Cursor)
    requires CursorOk(t, recursive, types, c) && c.next < |c.listed|
    ensures var r := c.root + [c.listed[c.next].name];
            var c' := c.(next := c.next + 1);
            && CursorOk(t, recursive, types, c')
            && IsToCome(t, recursive, types, c, r)
            && EntryOk(t, types, c.root, c.listed[c.next])
            && (forall q :: IsToCome(t, recursive, types, c', q) <==> IsToCome(t, recursive, types, c, q) && q != r)
            && (forall q | IsToCome(t, recursive, types, c', q) :: !(q < r))
  {
    var r := c.root + [c.listed[c.next].name];
    var c' := c.(next := c.next + 1);
    forall q | IsPending(t, recursive, types, c.pending, q)
      ensures q != r && !(q < r)
    {
      var i :| 0 <= i < |c.pending| && InListing(t, recursive, types, c.pending[i], q);
      assert !(c.pending[i] <= c.root);
      assert r[..|c.root|] == c.root;
    }
    forall q | IsSibling(c, q)
      ensures q == r || IsSibling(c', q)
    {
    }
    forall q | IsSibling(c', q)
      ensures q != r && !(q < r) && IsSibling(c, q)
    {
      var k :| c.next + 1 <= k < |c.listed| && q == c.root + [c.listed[k].name];
      assert q[|c.root|] == c.listed[k].name && r[|c.root|] == c.listed[c.next].name;
    }
  }

  /** The directories among `directories` that are still to be read. */
  ghost function Unread(directories: set<Path>, pending: seq<Path>): set<Path> {
    set d | d in directories && exists i | 0 <= i < |pending| :: pending[i] <= d
  }

  ghost function Directories(t: Tree): set<Path> {
    set d | d in t && t[d].Directory?
  }

  // Each directory read leaves fewer to be read.
  lemma UnreadAfterRead(directories: set<Path>, recursive: bool, types: FileTypes, c: Cursor, es: seq<DirectoryEntryInfo>)
    requires PairwiseUnrelated(c.pending) && c.pending != [] && c.pending[|c.pending| - 1] in directories
    ensures Unread(directories, AfterRead(recursive, types, c, es).pending)
            <= Unread(directories, c.pending) - {c.pending[|c.pending| - 1]}
    ensures c.pending[|c.pending| - 1] in Unread(directories, c.pending)
  {
    hide Pushed, Kept;
    var n := |c.pending| - 1;
    var p := c.pending[n];
    var ps := Pushed(recursive, types, p, es);
    var all := c.pending[..n] + ps;
    PushedMembers(recursive, types, p, es);
    forall i | 0 <= i < |all|
      ensures !(all[i] <= p) && (i < n || p <= all[i])
    {
      if i < n {
        assert all[i] == c.pending[i] && Unrelated(c.pending[i], c.pending[n]);
      } else {
        assert all[i] == ps[i - n] && ps[i - n] in ps;
      }
    }
    forall d | d in Unread(directories, all)
      ensures d in Unread(directories, c.pending)
    {
      var i :| 0 <= i < |all| && all[i] <= d;
      assert if i < n then c.pending[i] <= d else c.pending[n] <= d;
    }
  }

  lemma UnreadAfterDrop(directories: set<Path>, pending: seq<Path>)
    requires PairwiseUnrelated(pending) && pending != []
    ensures Unread(directories, pending[..|pending| - 1]) <= Unread(directories, pending)
    ensures PairwiseUnrelated(pending[..|pending| - 1])
  {
    var n := |pending| - 1;
    forall d | d in Unread(directories, pending[..n])
      ensures d in Unread(directories, pending)
    {
      var i :| 0 <= i < n && pending[..n][i] <= d;
      assert pending[i] <= d;
    }
  }

  // No path still to come lies in a directory above the one being returned.
  lemma NoneAbove(t: Tree, recursive: bool, types: FileTypes, c: Cursor)
    requires CursorOk(t, recursive, types, c) && c.listed != []
    ensures forall q | IsToCome(t, recursive, types, c, q) && q != [] :: !(Parent(q) < c.root)
  {
    forall q | IsPending(t, recursive, types, c.pending, q) && q != []
      ensures !(Parent(q) < c.root)
    {
      var i :| 0 <= i < |c.pending| && InListing(t, recursive, types, c.pending[i], q);
      assert !(c.pending[i] <= c.root);
    }
  }

  lemma PendingAreUnrelated(t: Tree, recursive: bool, types: FileTypes, c: Cursor)
    requires CursorOk(t, recursive, types, c)
    ensures PairwiseUnrelated(c.pending)
  {
  }

  lemma NothingToCome(t: Tree, recursive: bool, types: FileTypes, c: Cursor, c': Cursor)
    requires CursorOk(t, recursive, types, c) && c.pending == [] && |c.listed| <= c.next
    requires c' == c.(next := c.next + 1)
    ensures forall q :: !IsToCome(t, recursive, types, c, q)
    ensures forall q :: !IsToCome(t, recursive, types, c', q)
    ensures CursorOk(t, recursive, types, c')
  {
    forall q
      ensures !IsToCome(t, recursive, types, c, q) && !IsToCome(t, recursive, types, c', q)
    {
      assert |c.pending| == 0;
    }
  }
}
