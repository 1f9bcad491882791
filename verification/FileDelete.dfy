/** Model of Delete in base/file_util_posix.cc, over FileTree and FileEnumerator. */
module FileDelete {
  import opened Wrappers
  import opened FileTree
  import opened EnumeratorCursor
  import opened DirectoryWalk
  import opened FileEnumerator

  const ALL_TYPES := FileTypes(true, true, false)

  /** t without root and all that lies below it. */
  ghost function WithoutSubtree(t: Tree, root: Path): Tree {
    map q | q in t && !(root <= q) :: t[q]
  }

  /** now is t less some paths at or below root. */
  ghost predicate OnlyBelowRemoved(t: Tree, root: Path, now: Tree) {
    && (forall q | q in now :: q in t && now[q] == t[q])
    && (forall q | q in t && !(root <= q) :: q in now)
  }

  /** No directory comes after one of its ancestors on the way down the stack. */
  ghost predicate DeepestLast(directories: seq<Path>) {
    forall i, j | 0 <= i < j < |directories| :: !(directories[j] <= directories[i])
  }

  lemma RemovingLeafKeepsValid(t: Tree, p: Path)
    requires ValidTree(t) && p in t && p != [] && (t[p].Directory? ==> IsEmptyDirectory(t, p))
    ensures ValidTree(t - {p})
  {
    forall q | q in t && q != [] && q != p
      ensures Parent(q) != p
    {
    }
  }

  lemma SubtreeHasRoot(now: Tree, root: Path)
    requires ValidTree(now)
    ensures forall q | q in now && root <= q :: root in now
  {
    forall q | q in now && root <= q
      ensures root in now
    {
      if |root| == |q| {
        assert root == q;
      } else {
        AncestorsAreDirectories(now, root, q);
      }
    }
  }

  lemma SubtreeGone(t: Tree, root: Path, now: Tree)
    requires ValidTree(now) && OnlyBelowRemoved(t, root, now) && root !in now
    ensures now == WithoutSubtree(t, root)
  {
    SubtreeHasRoot(now, root);
    assert now.Keys == WithoutSubtree(t, root).Keys;
  }

  lemma LeafGone(t: Tree, root: Path)
    requires ValidTree(t) && root in t && root != [] && (t[root].Directory? ==> IsEmptyDirectory(t, root))
    ensures var now := t - {root};
            ValidTree(now) && OnlyBelowRemoved(t, root, now) && now == WithoutSubtree(t, root)
  {
    RemovingLeafKeepsValid(t, root);
    if t[root].Directory? {
      EmptyDirectoryIsAlone(t, root);
      assert t - {root} == WithoutSubtree(t, root);
    } else {
      SubtreeGone(t, root, t - {root});
    }
  }

  lemma UnlinkKeepsListing(t: Tree, p: Path, d: Path, q: Path)
    requires p in t && !t[p].Directory? && q != p
    ensures InListing(t - {p}, true, ALL_TYPES, d, q) <==> InListing(t, true, ALL_TYPES, d, q)
  {
  }

  lemma UnlinkKeepsPending(t: Tree, pending: seq<Path>, p: Path, q: Path)
    requires p in t && !t[p].Directory? && q != p
    ensures IsPending(t - {p}, true, ALL_TYPES, pending, q) <==> IsPending(t, true, ALL_TYPES, pending, q)
  {
    hide InListing;
    forall i | 0 <= i < |pending|
      ensures InListing(t - {p}, true, ALL_TYPES, pending[i], q) <==> InListing(t, true, ALL_TYPES, pending[i], q)
    {
      UnlinkKeepsListing(t, p, pending[i], q);
    }
  }

  lemma UnlinkedIsNotToCome(t: Tree, c: Cursor, p: Path)
    requires !IsSibling(c, p)
    ensures !IsToCome(t - {p}, true, ALL_TYPES, c, p)
  {
  }

  /** The cursor of the traversal in Delete does not see the unlinking of a path it has returned. */
  lemma UnlinkKeepsCursor(t: Tree, c: Cursor, p: Path)
    requires p in t && !t[p].Directory?
    requires CursorOk(t, true, ALL_TYPES, c) && !IsToCome(t, true, ALL_TYPES, c, p)
    ensures CursorOk(t - {p}, true, ALL_TYPES, c)
    ensures forall q :: IsToCome(t - {p}, true, ALL_TYPES, c, q) <==> IsToCome(t, true, ALL_TYPES, c, q)
  {
    hide IsPending;
    forall k | c.next <= k < |c.listed|
      ensures EntryOk(t - {p}, ALL_TYPES, c.root, c.listed[k])
    {
      assert IsSibling(c, c.root + [c.listed[k].name]);
    }
    UnlinkedIsNotToCome(t, c, p);
    forall q | q != p
      ensures IsPending(t - {p}, true, ALL_TYPES, c.pending, q) <==> IsPending(t, true, ALL_TYPES, c.pending, q)
    {
      UnlinkKeepsPending(t, c.pending, p, q);
    }
  }

  lemma RemovingBelow(t: Tree, root: Path, now: Tree, p: Path)
    requires OnlyBelowRemoved(t, root, now) && root <= p
    ensures OnlyBelowRemoved(t, root, now - {p})
  {
  }

  /** The stack of Delete: root first, then directories at or below it, no one above or equal to an earlier one. */
  ghost predicate StackOk(now: Tree, root: Path, directories: seq<Path>) {
    && (directories != [] ==> directories[0] == root)
    && DeepestLast(directories)
    && (forall d | d in directories :: IsDirectory(now, d) && root <= d)
  }

  lemma TopIsEmpty(now: Tree, root: Path, directories: seq<Path>)
    requires ValidTree(now) && StackOk(now, root, directories) && directories != []
    requires forall q | q in now && root <= q :: q in directories
    ensures IsEmptyDirectory(now, directories[|directories| - 1])
  {
    var n := |directories| - 1;
    var d := directories[n];
    assert d in directories;
    forall i | 0 <= i < |directories| && directories[i] != []
      ensures Parent(directories[i]) != d
    {
      if i < n {
        assert !(directories[n] <= directories[i]);
      }
    }
  }

  lemma TopIsDeepest(now: Tree, root: Path, rest: seq<Path>, top: Path)
    requires StackOk(now, root, rest + [top])
    ensures root <= top && forall d | d in rest :: d != top && IsDirectory(now, d) && root <= d
  {
    var directories := rest + [top];
    assert directories[|rest|] == top && top in directories;
    forall i | 0 <= i < |rest|
      ensures rest[i] != top && IsDirectory(now, rest[i]) && root <= rest[i]
    {
      assert rest[i] == directories[i] && directories[i] in directories;
      assert !(directories[|rest|] <= directories[i]);
    }
  }

  lemma PoppedStack(now: Tree, root: Path, directories: seq<Path>)
    requires StackOk(now, root, directories) && directories != []
    ensures var n := |directories| - 1;
            && StackOk(now - {directories[n]}, root, directories[..n])
            && directories[n] in directories && root <= directories[n]
            && (forall q | q in directories && q != directories[n] :: q in directories[..n])
  {
    var n := |directories| - 1;
    var top, rest := directories[n], directories[..n];
    assert directories == rest + [top];
    TopIsDeepest(now, root, rest, top);
    assert DeepestLast(rest) by {
      assert forall i | 0 <= i < n :: rest[i] == directories[i];
    }
    hide DeepestLast;
    assert top in directories;
    assert forall d | d in rest :: IsDirectory(now - {top}, d);
  }

  /** Removes the stacked directories, deepest first. */
  method RemoveDirectories(fs: FileSystem, path: Path, stack: seq<Path>, ghost t: Tree) returns (success: bool)
    requires ValidTree(fs.tree) && OnlyBelowRemoved(t, path, fs.tree)
    requires stack != [] && StackOk(fs.tree, path, stack)
    modifies fs
    ensures ValidTree(fs.tree) && OnlyBelowRemoved(t, path, fs.tree)
    ensures success ==> path !in fs.tree
    ensures fs.reliable && path != [] && old(forall q | q in fs.tree && path <= q :: q in stack) ==> success
  {
    hide ValidTree, OnlyBelowRemoved, IsEmptyDirectory, StackOk;
    var directories := stack;
    success := true;
    while success && directories != []
      invariant ValidTree(fs.tree) && OnlyBelowRemoved(t, path, fs.tree)
      invariant success ==> StackOk(fs.tree, path, directories)
      invariant success && directories == [] ==> path !in fs.tree
      invariant fs.reliable && path != [] && old(forall q | q in fs.tree && path <= q :: q in stack) ==>
                  success && forall q | q in fs.tree && path <= q :: q in directories
      decreases directories, success
    {
      ghost var now := fs.tree;
      if fs.reliable && path != [] && old(forall q | q in fs.tree && path <= q :: q in stack) {
        TopIsEmpty(fs.tree, path, directories);
      }
      PoppedStack(now, path, directories);
      BottomIsRoot(now, path, directories);
      var dir := directories[|directories| - 1];
      directories := directories[..|directories| - 1];
      success := fs.Rmdir(dir);
      if success {
        RemovingLeafKeepsValid(now, dir) by {
          EmptyIsDirectory(now, dir);
        }
        RemovingBelow(t, path, now, dir);
      }
    }
  }

  lemma EmptyIsDirectory(t: Tree, p: Path)
    requires IsEmptyDirectory(t, p)
    ensures IsDirectory(t, p)
  {
  }

  lemma BottomIsRoot(now: Tree, root: Path, directories: seq<Path>)
    requires StackOk(now, root, directories)
    ensures |directories| == 1 ==> directories[0] == root
    ensures directories != [] && root != [] ==> directories[|directories| - 1] != []
  {
    if directories != [] {
      assert directories[|directories| - 1] in directories;
    }
  }

  lemma PushDirectory(now: Tree, root: Path, directories: seq<Path>, d: Path)
    requires StackOk(now, root, directories) && directories != [] && IsDirectory(now, d) && root <= d
    requires AboveNone(directories, d)
    ensures StackOk(now, root, directories + [d])
  {
    assert forall i | 0 <= i < |directories| :: directories[i] in directories;
  }

  lemma UnlinkKeepsStack(now: Tree, root: Path, directories: seq<Path>, p: Path)
    requires StackOk(now, root, directories) && !IsDirectory(now, p)
    ensures StackOk(now - {p}, root, directories)
  {
  }

  /** q is neither a member of directories nor above one. */
  ghost predicate AboveNone(directories: seq<Path>, q: Path) {
    forall d | d in directories :: !(q <= d)
  }

  /**
   In the middle of the traversal, at the cursor c, of the tree t of which `now` is
   left: what is still to be returned can go on the stack, and on a reliable system
   nothing else is left but the directories on the stack.
   */
  ghost predicate Underway(t: Tree, path: Path, reliable: bool, now: Tree, directories: seq<Path>, c: Cursor, unseen: set<Path>) {
    && ValidTree(now) && OnlyBelowRemoved(t, path, now)
    && StackOk(now, path, directories) && directories != []
    && (forall q | IsToCome(now, true, ALL_TYPES, c, q) :: q in now && path < q && q in unseen && AboveNone(directories, q))
    && (reliable ==> forall q | q in now && path <= q :: IsToCome(now, true, ALL_TYPES, c, q) || q in directories)
  }

  lemma AtTheStart(t: Tree, path: Path, reliable: bool, c: Cursor)
    requires ValidTree(t) && IsDirectory(t, path)
    requires forall q :: IsToCome(t, true, ALL_TYPES, c, q) <==> InListing(t, true, ALL_TYPES, path, q)
    ensures Underway(t, path, reliable, t, [path], c, t.Keys)
  {
    hide IsToCome, ValidTree, OnlyBelowRemoved, StackOk, AboveNone, InListing;
    OnlyPath(t, path);
    BelowIsListed(t, path);
    assert [path][0] == path;
  }

  lemma OnlyPath(t: Tree, path: Path)
    requires IsDirectory(t, path)
    ensures OnlyBelowRemoved(t, path, t) && StackOk(t, path, [path])
  {
  }

  lemma BelowIsListed(t: Tree, path: Path)
    requires IsDirectory(t, path)
    ensures forall q | InListing(t, true, ALL_TYPES, path, q) :: q in t && path < q && AboveNone([path], q)
    ensures forall q | q in t && path <= q && q != path :: InListing(t, true, ALL_TYPES, path, q)
  {
  }

  // A directory that is returned goes on the stack.
  lemma DirectoryStacked(t: Tree, path: Path, reliable: bool, now: Tree, directories: seq<Path>, c0: Cursor, c: Cursor,
                         read0: Listings, read: Listings, unseen: set<Path>, r: Path)
    requires Underway(t, path, reliable, now, directories, c0, unseen) && IsDirectory(now, r)
    requires Answered(now, reliable, true, ALL_TYPES, c0, c, read0, read, Some(r))
    ensures Underway(t, path, reliable, now, directories + [r], c, unseen - {r})
  {
    hide IsToCome, ValidTree, OnlyBelowRemoved, StackOk, CursorOk, Lists, Rest;
    PushDirectory(now, path, directories, r);
    assert (directories + [r])[|directories|] == r;
    assert forall d | d in directories :: d in directories + [r];
    forall q | IsToCome(now, true, ALL_TYPES, c, q)
      ensures AboveNone(directories + [r], q)
    {
      assert IsToCome(now, true, ALL_TYPES, c0, q);
    }
  }

  // A file that is returned can be unlinked.
  lemma FileUnlinked(t: Tree, path: Path, reliable: bool, now: Tree, directories: seq<Path>, c0: Cursor, c: Cursor,
                     read0: Listings, read: Listings, unseen: set<Path>, r: Path)
    requires Underway(t, path, reliable, now, directories, c0, unseen) && r in now && !now[r].Directory?
    requires Answered(now, reliable, true, ALL_TYPES, c0, c, read0, read, Some(r))
    ensures Underway(t, path, reliable, now - {r}, directories, c, unseen - {r})
    ensures CursorOk(now - {r}, true, ALL_TYPES, c)
  {
    hide IsToCome, ValidTree, OnlyBelowRemoved, StackOk, CursorOk, Lists, Rest, AboveNone;
    RemovingFileKeepsValid(now, r);
    RemovingBelow(t, path, now, r);
    UnlinkKeepsStack(now, path, directories, r);
    UnlinkKeepsCursor(now, c, r);
  }

  lemma RemovingFileKeepsValid(t: Tree, r: Path)
    requires ValidTree(t) && r in t && !t[r].Directory?
    ensures ValidTree(t - {r})
  {
    RootIsDirectory(t);
    RemovingLeafKeepsValid(t, r);
  }

  // A file that cannot be unlinked stays; the traversal ends.
  lemma FileKept(t: Tree, path: Path, now: Tree, directories: seq<Path>, c0: Cursor, c: Cursor,
                 read0: Listings, read: Listings, unseen: set<Path>, r: Path)
    requires Underway(t, path, false, now, directories, c0, unseen)
    requires Answered(now, false, true, ALL_TYPES, c0, c, read0, read, Some(r))
    ensures Underway(t, path, false, now, directories, c, unseen - {r})
  {
    hide IsToCome, ValidTree, OnlyBelowRemoved, StackOk, CursorOk, Lists, Rest, AboveNone;
  }

  lemma AtTheEnd(t: Tree, path: Path, now: Tree, directories: seq<Path>, c0: Cursor, c: Cursor,
                 read0: Listings, read: Listings, unseen: set<Path>)
    requires Underway(t, path, true, now, directories, c0, unseen)
    requires Answered(now, true, true, ALL_TYPES, c0, c, read0, read, None)
    ensures forall q | q in now && path <= q :: q in directories
  {
    hide IsToCome, ValidTree, OnlyBelowRemoved, StackOk, CursorOk, Lists, Rest, AboveNone;
  }

  lemma ReturnedIsThere(t: Tree, path: Path, reliable: bool, now: Tree, directories: seq<Path>, c0: Cursor, c: Cursor,
                        read0: Listings, read: Listings, unseen: set<Path>, r: Path)
    requires Underway(t, path, reliable, now, directories, c0, unseen)
    requires Answered(now, reliable, true, ALL_TYPES, c0, c, read0, read, Some(r))
    ensures r in now && r in unseen
  {
    hide IsToCome, ValidTree, OnlyBelowRemoved, StackOk, CursorOk, Lists, Rest, AboveNone;
  }

  /** The body of the first loop of Delete, for the path returned last. */
  method StackOrUnlink(fs: FileSystem, traversal: FileEnumerator, stack: seq<Path>, current: Path,
                       ghost t: Tree, ghost path: Path, ghost c0: Cursor, ghost read0: Listings, ghost unseen: set<Path>)
    returns (success: bool, directories: seq<Path>)
    requires traversal.fs == fs && traversal.recursive && traversal.fileTypes == ALL_TYPES
    requires traversal.Valid() && traversal.last == Some(current)
    requires Underway(t, path, fs.reliable, fs.tree, stack, c0, unseen)
    requires Answered(fs.tree, fs.reliable, true, ALL_TYPES, c0, traversal.Position(), read0, traversal.read, Some(current))
    modifies fs
    ensures traversal.Valid()
    ensures Underway(t, path, fs.reliable, fs.tree, directories, traversal.Position(), unseen - {current})
    ensures fs.reliable ==> success
  {
    hide Underway, Answered, ValidTree, CursorOk, Unread;
    ghost var now, c, read := fs.tree, traversal.Position(), traversal.read;
    ReturnedIsThere(t, path, fs.reliable, now, stack, c0, c, read0, read, unseen, current);
    success, directories := true, stack;
    var info := traversal.GetFindInfo();
    if info.Some? && info.value.isDir {
      directories := stack + [current];
      DirectoryStacked(t, path, fs.reliable, now, stack, c0, c, read0, read, unseen, current);
    } else {
      success := fs.Unlink(current);
      if success {
        FileUnlinked(t, path, fs.reliable, now, stack, c0, c, read0, read, unseen, current);
        RemovingFileKeepsValid(now, current) by { UnderwayIsValid(t, path, fs.reliable, now, stack, c0, unseen); }
      } else {
        FileKept(t, path, now, stack, c0, c, read0, read, unseen, current);
      }
    }
  }

  lemma UnderwayIsValid(t: Tree, path: Path, reliable: bool, now: Tree, directories: seq<Path>, c: Cursor, unseen: set<Path>)
    requires Underway(t, path, reliable, now, directories, c, unseen)
    ensures ValidTree(now) && OnlyBelowRemoved(t, path, now) && StackOk(now, path, directories) && directories != []
  {
  }

  /**
   The traversal of Delete: unlinks all files below path and stacks the
   directories, path first. On a reliable system nothing else is left.
   */
  method UnlinkFiles(fs: FileSystem, path: Path) returns (success: bool, directories: seq<Path>)
    requires ValidTree(fs.tree) && IsDirectory(fs.tree, path)
    modifies fs
    ensures ValidTree(fs.tree) && OnlyBelowRemoved(old(fs.tree), path, fs.tree)
    ensures StackOk(fs.tree, path, directories) && directories != []
    ensures fs.reliable ==> success && forall q | q in fs.tree && path <= q :: q in directories
  {
    hide Underway, Answered, ValidTree, OnlyBelowRemoved, StackOk, InListing, IsToCome, CursorOk;
    ghost var t, unseen := fs.tree, fs.tree.Keys;
    success := true;
    directories := [path];
    var traversal := new FileEnumerator(fs, path, true, ALL_TYPES);
    ghost var c, read := traversal.Position(), traversal.read;
    AtTheStart(t, path, fs.reliable, c);
    var current := traversal.Next();
    while success && current.Some?
      invariant fresh(traversal) && traversal.fs == fs && traversal.recursive && traversal.fileTypes == ALL_TYPES
      invariant traversal.Valid() && traversal.last == current
      invariant Underway(t, path, fs.reliable, fs.tree, directories, c, unseen)
      invariant Answered(fs.tree, fs.reliable, true, ALL_TYPES, c, traversal.Position(), read, traversal.read, current)
      invariant fs.reliable ==> success
      decreases unseen
    {
      ReturnedIsThere(t, path, fs.reliable, fs.tree, directories, c, traversal.Position(), read, traversal.read, unseen, current.value);
      success, directories := StackOrUnlink(fs, traversal, directories, current.value, t, path, c, read, unseen);
      unseen := unseen - {current.value};
      c, read := traversal.Position(), traversal.read;
      current := traversal.Next();
    }
    UnderwayIsValid(t, path, fs.reliable, fs.tree, directories, c, unseen);
    if fs.reliable {
      AtTheEnd(t, path, fs.tree, directories, c, traversal.Position(), read, traversal.read, unseen);
    }
  }

  method Delete(fs: FileSystem, path: Path, recursive: bool) returns (success: bool)
    requires ValidTree(fs.tree)
    modifies fs
    ensures ValidTree(fs.tree) && OnlyBelowRemoved(old(fs.tree), path, fs.tree)
    // A path that does not exist counts as deleted.
    ensures path !in old(fs.tree) ==> success && fs.tree == old(fs.tree)
    ensures success ==> fs.tree == WithoutSubtree(old(fs.tree), path)
    ensures fs.reliable && path != [] && (recursive || !IsDirectory(old(fs.tree), path) || IsEmptyDirectory(old(fs.tree), path)) ==> success
    ensures !recursive && IsDirectory(old(fs.tree), path) && !IsEmptyDirectory(old(fs.tree), path) ==> !success && fs.tree == old(fs.tree)
  {
    hide ValidTree, WithoutSubtree, CursorOk, IsToCome;
    ghost var t := fs.tree;
    var test := fs.Lstat(path);
    if test == None {
      SubtreeGone(t, path, fs.tree);
      return true;
    }
    if test.value != Directory || !recursive {
      if test.value == Directory {
        success := fs.Rmdir(path);
      } else {
        RootIsDirectory(t);
        success := fs.Unlink(path);
      }
      if success {
        LeafGone(t, path);
      }
      return;
    }
    var directories;
    success, directories := UnlinkFiles(fs, path);
    if success {
      success := RemoveDirectories(fs, path, directories, t);
      if success {
        SubtreeGone(t, path, fs.tree);
      }
    }
  }

  lemma RootIsDirectory(t: Tree)
    requires ValidTree(t)
    ensures IsDirectory(t, [])
  {
  }
}
