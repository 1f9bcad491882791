/**
 Model of FileEnumerator in base/file_util_posix.cc, without a pattern: the
 object, proved against EnumeratorCursor call by call and against the recursive
 walk of DirectoryWalk from first call to last.
 */
module FileEnumerator {
  import opened Wrappers
  import opened FileTree
  import opened EnumeratorCursor
  import opened DirectoryWalk

  // ---------- What is returned from here on ----------

  /** What is returned from the cursor on, when reading directories answers `read`. */
  ghost function Rest(read: Listings, recursive: bool, types: FileTypes, c: Cursor): seq<Path>
    requires WellListed(read) && PairwiseUnrelated(c.pending)
  {
    Returned(c.root, if c.next <= |c.listed| then c.listed[c.next..] else []) + Walk(read, recursive, types, c.pending)
  }

  /** Only directories of t have a listing. */
  ghost predicate IsFor(t: Tree, read: Listings) {
    WellListed(read) && forall p | p in read :: IsDirectory(t, p)
  }

  ghost predicate Extends(read': Listings, read: Listings) {
    forall p | p in read :: p in read' && read'[p] == read[p]
  }

  lemma RestAfterRead(read: Listings, recursive: bool, types: FileTypes, c: Cursor)
    requires WellListed(read) && PairwiseUnrelated(c.pending) && c.pending != [] && |c.listed| <= c.next
    requires c.pending[|c.pending| - 1] in read
    ensures var c' := AfterRead(recursive, types, c, read[c.pending[|c.pending| - 1]]);
            PairwiseUnrelated(c'.pending) && Rest(read, recursive, types, c) == Rest(read, recursive, types, c')
  {
    hide Pushed, Kept, PairwiseUnrelated, WellListed;
    StackedIsSmaller(read, recursive, types, c.pending);
    var kept := Kept(types, read[c.pending[|c.pending| - 1]]);
    assert kept[0..] == kept;
    assert Returned(c.root, []) == [];
  }

  lemma RestAfterDrop(read: Listings, recursive: bool, types: FileTypes, c: Cursor)
    requires WellListed(read) && PairwiseUnrelated(c.pending) && c.pending != [] && |c.listed| <= c.next
    requires c.pending[|c.pending| - 1] !in read
    ensures var n := |c.pending| - 1;
            var c' := Cursor(c.pending[..n], c.pending[n], c.listed, c.next);
            PairwiseUnrelated(c'.pending) && Rest(read, recursive, types, c) == Rest(read, recursive, types, c')
  {
    hide PairwiseUnrelated, WellListed;
    UnreadAfterDrop(read.Keys, c.pending);
    var end: seq<DirectoryEntryInfo> := if c.next <= |c.listed| then c.listed[c.next..] else [];
    assert end == [] && Returned(c.root, end) == [] && Returned(c.pending[|c.pending| - 1], end) == [];
  }

  lemma RestAfterReturn(read: Listings, recursive: bool, types: FileTypes, c: Cursor)
    requires WellListed(read) && PairwiseUnrelated(c.pending) && c.next < |c.listed|
    ensures Rest(read, recursive, types, c)
            == [c.root + [c.listed[c.next].name]] + Rest(read, recursive, types, c.(next := c.next + 1))
  {
    hide PairwiseUnrelated, WellListed, Walk, Returned;
    var e, es := c.listed[c.next], c.listed[c.next + 1..];
    assert c.listed[c.next..] == [e] + es;
    ReturnedOneByOne(c.root, e, es, Walk(read, recursive, types, c.pending));
  }

  lemma ReturnedOneByOne(root: Path, e: DirectoryEntryInfo, es: seq<DirectoryEntryInfo>, rest: seq<Path>)
    ensures Returned(root, [e] + es) + rest == [root + [e.name]] + (Returned(root, es) + rest)
  {
    assert Returned(root, [e] + es) == [root + [e.name]] + Returned(root, es);
  }

  lemma RestOfNothing(read: Listings, recursive: bool, types: FileTypes, c: Cursor)
    requires WellListed(read) && c.pending == [] && |c.listed| <= c.next
    ensures Rest(read, recursive, types, c) == []
  {
  }

  // ---------- From the last entry returned to the next ----------

  /** How far a call of Next has come: from the cursor c0 to c, nothing to be returned was passed over. */
  ghost predicate Moved(t: Tree, reliable: bool, recursive: bool, types: FileTypes, c0: Cursor, c: Cursor,
                        read0: Listings, read: Listings)
  {
    && CursorOk(t, recursive, types, c) && PairwiseUnrelated(c0.pending)
    && WellListed(read) && Unread(read.Keys, c.pending) == {}
    && Extends(read, read0)
    && (forall p | p in read && p !in read0 :: IsDirectory(t, p) && Lists(t, p, read[p]))
    && (forall q :: IsToCome(t, recursive, types, c, q) ==> IsToCome(t, recursive, types, c0, q))
    && (reliable ==>
          && (forall q :: IsToCome(t, recursive, types, c0, q) ==> IsToCome(t, recursive, types, c, q))
          && SameRest(t, recursive, types, c0, c, read))
  }

  ghost predicate SameRest(t: Tree, recursive: bool, types: FileTypes, c0: Cursor, c: Cursor, read: Listings)
    requires PairwiseUnrelated(c0.pending) && PairwiseUnrelated(c.pending)
  {
    forall answers | IsFor(t, answers) && Extends(answers, read) ::
      Rest(answers, recursive, types, c0) == Rest(answers, recursive, types, c)
  }

  /** Fewer directories are left to be read, or as many and the stack is shorter. */
  ghost predicate LessToRead(t: Tree, pending: seq<Path>, before: seq<Path>) {
    || Unread(Directories(t), pending) < Unread(Directories(t), before)
    || (Unread(Directories(t), pending) <= Unread(Directories(t), before) && |pending| < |before|)
  }

  lemma LessIsLess(t: Tree, pending: seq<Path>, before: seq<Path>)
    requires LessToRead(t, pending, before)
    ensures var u, u' := Unread(Directories(t), before), Unread(Directories(t), pending);
            u' < u || (u' == u && |pending| < |before|)
  {
  }

  lemma StartMoves(t: Tree, reliable: bool, recursive: bool, types: FileTypes, c: Cursor, read: Listings)
    requires CursorOk(t, recursive, types, c) && WellListed(read) && Unread(read.Keys, c.pending) == {}
    ensures Moved(t, reliable, recursive, types, c, c, read, read)
  {
    hide Rest, Unread, Lists, IsToCome;
  }

  lemma DropMoves(t: Tree, reliable: bool, recursive: bool, types: FileTypes, c0: Cursor, c: Cursor,
                  read0: Listings, read: Listings)
    requires c.pending != [] && |c.listed| <= c.next
    requires Moved(t, reliable, recursive, types, c0, c, read0, read)
    requires reliable ==> !IsDirectory(t, c.pending[|c.pending| - 1])
    ensures var n := |c.pending| - 1; var c' := Cursor(c.pending[..n], c.pending[n], c.listed, c.next);
            Moved(t, reliable, recursive, types, c0, c', read0, read) && LessToRead(t, c'.pending, c.pending)
  {
    hide CursorOk, IsToCome, Rest, Unread, Directories, PairwiseUnrelated, Lists, IsDirectory;
    var n := |c.pending| - 1;
    var c' := Cursor(c.pending[..n], c.pending[n], c.listed, c.next);
    PendingAreUnrelated(t, recursive, types, c);
    AfterDrop(t, recursive, types, c);
    UnreadAfterDrop(read.Keys, c.pending);
    UnreadAfterDrop(Directories(t), c.pending);
    if reliable {
      forall answers | IsFor(t, answers) && Extends(answers, read)
        ensures Rest(answers, recursive, types, c0) == Rest(answers, recursive, types, c')
      {
        RestAfterDrop(answers, recursive, types, c);
      }
    }
  }

  // A directory is read once.
  lemma ReadOnce(read: Listings, recursive: bool, types: FileTypes, c: Cursor, es: seq<DirectoryEntryInfo>)
    requires PairwiseUnrelated(c.pending) && c.pending != [] && Unread(read.Keys, c.pending) == {}
    ensures var p := c.pending[|c.pending| - 1];
            p !in read && Unread(read[p := es].Keys, AfterRead(recursive, types, c, es).pending) == {}
  {
    hide AfterRead;
    var p := c.pending[|c.pending| - 1];
    var keys := read[p := es].Keys;
    assert p in read ==> p in Unread(read.Keys, c.pending);
    UnreadAfterRead(keys, recursive, types, c, es);
    assert forall d | d in Unread(keys, c.pending) :: d == p || d in Unread(read.Keys, c.pending);
  }

  lemma ReadMoves(t: Tree, reliable: bool, recursive: bool, types: FileTypes, c0: Cursor, c: Cursor,
                  read0: Listings, read: Listings, es: seq<DirectoryEntryInfo>)
    requires ValidTree(t) && !(recursive && types.includeDotDot)
    requires c.pending != [] && |c.listed| <= c.next
    requires Moved(t, reliable, recursive, types, c0, c, read0, read)
    requires var p := c.pending[|c.pending| - 1]; IsDirectory(t, p) && Lists(t, p, es)
    ensures var c' := AfterRead(recursive, types, c, es);
            && Moved(t, reliable, recursive, types, c0, c', read0, read[c.pending[|c.pending| - 1] := es])
            && LessToRead(t, c'.pending, c.pending)
  {
    hide CursorOk, IsToCome, Rest, Unread, PairwiseUnrelated, Lists, AfterRead, ValidTree;
    var p, c' := c.pending[|c.pending| - 1], AfterRead(recursive, types, c, es);
    PendingAreUnrelated(t, recursive, types, c);
    ReadOnce(read, recursive, types, c, es);
    AfterReadOk(t, recursive, types, c, es);
    PendingAreUnrelated(t, recursive, types, c');
    UnreadAfterRead(Directories(t), recursive, types, c, es);
    ListingIsDistinct(t, p, es);
    forall q
      ensures IsToCome(t, recursive, types, c', q) <==> IsToCome(t, recursive, types, c, q)
    {
      AfterReadToCome(t, recursive, types, c, es, q);
    }
    if reliable {
      forall answers | IsFor(t, answers) && Extends(answers, read[p := es])
        ensures Rest(answers, recursive, types, c0) == Rest(answers, recursive, types, c')
      {
        assert Extends(answers, read) && answers[p] == es;
        RestAfterRead(answers, recursive, types, c);
      }
    }
  }

  lemma ListingIsDistinct(t: Tree, p: Path, es: seq<DirectoryEntryInfo>)
    requires Lists(t, p, es)
    ensures DistinctNames(es)
  {
  }

  /** What a call of Next achieves that answers r and leaves the cursor at c. */
  ghost predicate Answered(t: Tree, reliable: bool, recursive: bool, types: FileTypes, c0: Cursor, c: Cursor,
                           read0: Listings, read: Listings, r: Option<Path>)
  {
    && CursorOk(t, recursive, types, c) && PairwiseUnrelated(c0.pending)
    && WellListed(read) && Unread(read.Keys, c.pending) == {} && Extends(read, read0)
    && (forall p | p in read && p !in read0 :: IsDirectory(t, p) && Lists(t, p, read[p]))
    && (forall q :: IsToCome(t, recursive, types, c, q) ==> IsToCome(t, recursive, types, c0, q))
    && (match r
        case None =>
          && (forall q :: !IsToCome(t, recursive, types, c, q))
          && (forall answers | WellListed(answers) :: Rest(answers, recursive, types, c) == [])
        case Some(p) =>
          && p != [] && IsToCome(t, recursive, types, c0, p)
          && (forall q | IsToCome(t, recursive, types, c, q) :: q != p && !(q < p))
          && (forall q | IsToCome(t, recursive, types, c, q) && q != [] :: !(Parent(q) < Parent(p))))
    && (reliable ==>
          && (forall q :: IsToCome(t, recursive, types, c0, q) ==> IsToCome(t, recursive, types, c, q) || r == Some(q))
          && (forall answers | IsFor(t, answers) && Extends(answers, read) ::
                Rest(answers, recursive, types, c0) == (if r.Some? then [r.value] else []) + Rest(answers, recursive, types, c)))
  }

  // At the end of the stack nothing is to come.
  lemma NothingMoves(t: Tree, reliable: bool, recursive: bool, types: FileTypes, c0: Cursor, c: Cursor,
                     read0: Listings, read: Listings)
    requires Moved(t, reliable, recursive, types, c0, c, read0, read) && c.pending == [] && |c.listed| <= c.next
    ensures Answered(t, reliable, recursive, types, c0, c.(next := c.next + 1), read0, read, None)
  {
    hide IsToCome, CursorOk, Lists, Unread;
    var c' := c.(next := c.next + 1);
    NothingToCome(t, recursive, types, c, c');
    forall answers | WellListed(answers)
      ensures Rest(answers, recursive, types, c) == [] && Rest(answers, recursive, types, c') == []
    {
      RestOfNothing(answers, recursive, types, c);
      RestOfNothing(answers, recursive, types, c');
    }
  }

  lemma EntryTells(t: Tree, types: FileTypes, root: Path, e: DirectoryEntryInfo)
    requires ValidTree(t) && EntryOk(t, types, root, e)
    ensures root + [e.name] in t ==> e.isDir == t[root + [e.name]].Directory?
  {
    assert (root + [e.name])[|root|] == e.name;
  }

  lemma ReturnMoves(t: Tree, reliable: bool, recursive: bool, types: FileTypes, c0: Cursor, c: Cursor,
                    read0: Listings, read: Listings)
    requires ValidTree(t) && Moved(t, reliable, recursive, types, c0, c, read0, read) && c.next < |c.listed|
    ensures var e := c.listed[c.next];
            && Answered(t, reliable, recursive, types, c0, c.(next := c.next + 1), read0, read, Some(c.root + [e.name]))
            && (c.root + [e.name] in t ==> e.isDir == t[c.root + [e.name]].Directory?)
  {
    hide CursorOk, IsToCome, Rest, Unread, Lists, ValidTree, EntryOk;
    var e, c' := c.listed[c.next], c.(next := c.next + 1);
    ReturnOne(t, recursive, types, c);
    EntryTells(t, types, c.root, e);
    NoneAbove(t, recursive, types, c');
    PendingAreUnrelated(t, recursive, types, c');
    assert Parent(c.root + [e.name]) == c.root;
    if reliable {
      forall answers | IsFor(t, answers) && Extends(answers, read)
        ensures Rest(answers, recursive, types, c0) == [c.root + [e.name]] + Rest(answers, recursive, types, c')
      {
        RestAfterReturn(answers, recursive, types, c);
      }
    }
  }

  // ---------- A walk, from its start ----------

  /** A walk from root is `out` and what is to come from the cursor on, however the directories left to read are listed. */
  ghost predicate Split(t: Tree, recursive: bool, types: FileTypes, root: Path, out: seq<Path>, c: Cursor, read: Listings) {
    && PairwiseUnrelated(c.pending)
    && (forall p | p in read :: IsDirectory(t, p) && Lists(t, p, read[p]))
    && forall answers | IsFor(t, answers) && Extends(answers, read) ::
         WalkFrom(answers, recursive, types, root) == out + Rest(answers, recursive, types, c)
  }

  lemma StartSplits(t: Tree, recursive: bool, types: FileTypes, root: Path)
    ensures Split(t, recursive, types, root, [], Cursor([root], root, [], 1), map[])
  {
    hide Walk;
    forall answers | IsFor(t, answers)
      ensures WalkFrom(answers, recursive, types, root) == [] + Rest(answers, recursive, types, Cursor([root], root, [], 1))
    {
      assert Returned(root, []) == [];
    }
  }

  lemma AnswerSplits(t: Tree, recursive: bool, types: FileTypes, root: Path, out: seq<Path>, c0: Cursor, c: Cursor,
                     read0: Listings, read: Listings, r: Option<Path>)
    requires Split(t, recursive, types, root, out, c0, read0)
    requires Answered(t, true, recursive, types, c0, c, read0, read, r)
    ensures Split(t, recursive, types, root, out + (if r.Some? then [r.value] else []), c, read)
    ensures r.None? ==> forall answers | IsFor(t, answers) && Extends(answers, read) ::
                          WalkFrom(answers, recursive, types, root) == out
  {
    hide WalkFrom, Rest, Lists, CursorOk, IsToCome, Unread;
    PendingAreUnrelated(t, recursive, types, c);
    hide PairwiseUnrelated;
    var next := if r.Some? then [r.value] else [];
    forall answers | IsFor(t, answers) && Extends(answers, read)
      ensures WalkFrom(answers, recursive, types, root) == out + next + Rest(answers, recursive, types, c)
    {
      assert Extends(answers, read0);
      assert out + (next + Rest(answers, recursive, types, c)) == out + next + Rest(answers, recursive, types, c);
    }
    assert r.None? ==> out + next == out;
  }

  // ---------- The object ----------

  class FileEnumerator {
    const fs: FileSystem
    const recursive: bool
    const fileTypes: FileTypes
    var rootPath: Path
    var pendingPaths: seq<Path>                       // a stack, its top last
    var directoryEntries: seq<DirectoryEntryInfo>
    var currentDirectoryEntry: nat
    ghost var read: Listings                          // what reading each directory answered
    ghost var last: Option<Path>                      // what Next answered last

    /** The cursor before the next call. */
    ghost function Position(): Cursor
      reads this
    {
      Cursor(pendingPaths, rootPath, directoryEntries, currentDirectoryEntry + 1)
    }

    /** The cursor while the next entry is looked for: the current entry is still to be returned. */
    ghost function Here(): Cursor
      reads this
    {
      Cursor(pendingPaths, rootPath, directoryEntries, currentDirectoryEntry)
    }

    /** The current entry is that of the path returned last, and tells what it is, as long as it is there. */
    ghost predicate LastOk()
      reads this, fs
    {
      if last.None? then |directoryEntries| <= currentDirectoryEntry
      else
        && currentDirectoryEntry < |directoryEntries|
        && (var e := directoryEntries[currentDirectoryEntry];
            && last == Some(rootPath + [e.name])
            && (last.value in fs.tree ==> e.isDir == fs.tree[last.value].Directory?))
    }

    ghost predicate Valid()
      reads this, fs
    {
      && ValidTree(fs.tree)
      && !(recursive && fileTypes.includeDotDot)
      && CursorOk(fs.tree, recursive, fileTypes, Position())
      && WellListed(read) && Unread(read.Keys, pendingPaths) == {}
      && LastOk()
    }

    /** q is still to be returned. */
    ghost predicate ToCome(q: Path)
      reads this, fs
    {
      IsToCome(fs.tree, recursive, fileTypes, Position(), q)
    }

    constructor (fs: FileSystem, rootPath: Path, recursive: bool, fileTypes: FileTypes)
      requires ValidTree(fs.tree) && !(recursive && fileTypes.includeDotDot)
      ensures this.fs == fs && this.recursive == recursive && this.fileTypes == fileTypes
      ensures Valid() && read == map[] && last == None
      ensures forall q :: ToCome(q) <==> InListing(fs.tree, recursive, fileTypes, rootPath, q)
      ensures Split(fs.tree, recursive, fileTypes, rootPath, [], Position(), read)
    {
      this.fs, this.recursive, this.fileTypes := fs, recursive, fileTypes;
      this.rootPath := rootPath;
      pendingPaths := [rootPath];
      directoryEntries, currentDirectoryEntry := [], 0;
      read, last := map[], None;
      new;
      assert pendingPaths[0] == rootPath;
      StartSplits(fs.tree, recursive, fileTypes, rootPath);
    }

    /** One turn of the outer loop of Next: the top of the stack is popped and read, if it can be. */
    method ReadNextDirectory() returns (ok: bool, ghost entries: seq<DirectoryEntryInfo>)
      requires ValidTree(fs.tree) && pendingPaths != []
      modifies this
      ensures var c := old(Here());
              var n := |c.pending| - 1;
              if ok then
                && IsDirectory(fs.tree, c.pending[n]) && Lists(fs.tree, c.pending[n], entries)
                && Here() == AfterRead(recursive, fileTypes, c, entries)
                && read == old(read)[c.pending[n] := entries]
              else
                Here() == Cursor(c.pending[..n], c.pending[n], c.listed, c.next) && read == old(read)
      ensures fs.reliable && IsDirectory(fs.tree, rootPath) ==> ok
    {
      hide Lists, ValidTree, Pushed, Kept;
      NoEntryYet(recursive, fileTypes);
      ghost var stack := pendingPaths[..|pendingPaths| - 1];
      rootPath := pendingPaths[|pendingPaths| - 1];
      pendingPaths := pendingPaths[..|pendingPaths| - 1];
      var es;
      ok, es := fs.ReadDirectory(rootPath);
      entries := es;
      if !ok {
        return;
      }
      read := read[rootPath := es];
      directoryEntries, currentDirectoryEntry := [], 0;
      var i := 0;
      assert es[..0] == [];
      while i < |es|
        invariant 0 <= i <= |es| && currentDirectoryEntry == 0 && rootPath == old(pendingPaths)[|stack|]
        invariant pendingPaths == stack + Pushed(recursive, fileTypes, rootPath, es[..i])
        invariant directoryEntries == Kept(fileTypes, es[..i])
        invariant read == old(read)[rootPath := es]
      {
        var e := es[i];
        OneEntryFurther(recursive, fileTypes, rootPath, es, i);
        if !ShouldSkip(fileTypes, e.name) {
          if recursive && e.isDir {
            pendingPaths := pendingPaths + [rootPath + [e.name]];
          }
          if (e.isDir && fileTypes.directories) || (!e.isDir && fileTypes.files) {
            directoryEntries := directoryEntries + [e];
          }
        }
        i := i + 1;
      }
      assert es[..i] == es;
    }

    /** One turn of the outer loop keeps what is to come, and leaves less to read. */
    method MoveOn(ghost c0: Cursor, ghost read0: Listings)
      requires ValidTree(fs.tree) && !(recursive && fileTypes.includeDotDot)
      requires Moved(fs.tree, fs.reliable, recursive, fileTypes, c0, Here(), read0, read)
      requires pendingPaths != [] && |directoryEntries| <= currentDirectoryEntry
      modifies this
      ensures Moved(fs.tree, fs.reliable, recursive, fileTypes, c0, Here(), read0, read)
      ensures LessToRead(fs.tree, pendingPaths, old(pendingPaths))
    {
      hide Moved, ValidTree, Lists, AfterRead, LessToRead;
      ghost var c, r := Here(), read;
      var ok;
      ghost var entries;
      ok, entries := ReadNextDirectory();
      if ok {
        ReadMoves(fs.tree, fs.reliable, recursive, fileTypes, c0, c, read0, r, entries);
      } else {
        DropMoves(fs.tree, fs.reliable, recursive, fileTypes, c0, c, read0, r);
      }
    }

    /** The path of the next entry, or none when all have been returned, then and ever after. */
    method Next() returns (r: Option<Path>)
      requires Valid()
      modifies this
      ensures Valid() && last == r
      ensures Answered(fs.tree, fs.reliable, recursive, fileTypes, old(Position()), Position(), old(read), read, r)
    {
      hide Moved, CursorOk, IsToCome, ValidTree, Lists, EntryOk, Rest, Unread, LessToRead, WellListed, IsFor, Extends;
      ghost var t, c0, read0 := fs.tree, Position(), read;
      StartMoves(t, fs.reliable, recursive, fileTypes, c0, read0);
      currentDirectoryEntry := currentDirectoryEntry + 1;
      while currentDirectoryEntry >= |directoryEntries|
        invariant Moved(t, fs.reliable, recursive, fileTypes, c0, Here(), read0, read)
        decreases Unread(Directories(t), pendingPaths), |pendingPaths|
      {
        if pendingPaths == [] {
          last := None;
          NothingMoves(t, fs.reliable, recursive, fileTypes, c0, Here(), read0, read);
          return None;
        }
        ghost var before := pendingPaths;
        MoveOn(c0, read0);
        LessIsLess(t, pendingPaths, before);
      }
      r := Some(rootPath + [directoryEntries[currentDirectoryEntry].name]);
      last := r;
      ReturnMoves(t, fs.reliable, recursive, fileTypes, c0, Here(), read0, read);
    }

    /** What stat said of the path returned last, as long as it is there. */
    method GetFindInfo() returns (info: Option<DirectoryEntryInfo>)
      requires Valid()
      ensures info.Some? <==> last.Some?
      ensures info.Some? ==> last.value != [] && info.value.name == last.value[|last.value| - 1]
      ensures info.Some? && last.value in fs.tree ==> info.value.isDir == fs.tree[last.value].Directory?
    {
      if currentDirectoryEntry >= |directoryEntries| {
        return None;
      }
      return Some(directoryEntries[currentDirectoryEntry]);
    }
  }

  // ---------- A whole enumeration ----------

  ghost function ListingOf(t: Tree, read: Listings, d: Path): (es: seq<DirectoryEntryInfo>)
    requires ValidTree(t) && (d in read ==> Lists(t, d, read[d]))
    ensures Lists(t, d, es) && (d in read ==> es == read[d])
  {
    if d in read then read[d] else SomeListing(t, d)
  }

  /** The listings read so far, and some listing of every other directory. */
  ghost function Completed(t: Tree, read: Listings): (all: Listings)
    requires ValidTree(t) && forall p | p in read :: IsDirectory(t, p) && Lists(t, p, read[p])
    ensures IsListing(t, all) && IsFor(t, all) && Extends(all, read)
  {
    hide ValidTree, WellListed, Lists, ListingOf;
    var all := map d | d in Directories(t) :: ListingOf(t, read, d);
    ListsAreDistinct(t, all);
    all
  }

  lemma ListingIsFinite(t: Tree, recursive: bool, types: FileTypes, root: Path)
    ensures forall q | InListing(t, recursive, types, root, q) :: q in t.Keys + {root + [".."]}
  {
  }

  /**
   Calls Next until it answers with nothing. What is returned is the walk of the
   tree in the order in which its directories list their entries; so each path to
   be listed is returned exactly once, the entries of a directory together and
   before those of any directory below it.
   */
  method Enumerate(fs: FileSystem, root: Path, recursive: bool, fileTypes: FileTypes) returns (out: seq<Path>)
    requires fs.reliable && ValidTree(fs.tree) && !(recursive && fileTypes.includeDotDot)
    ensures exists answers :: IsListing(fs.tree, answers) && out == WalkFrom(answers, recursive, fileTypes, root)
    ensures InOrder(out)
    ensures forall q :: q in out <==> InListing(fs.tree, recursive, fileTypes, root, q)
    // Files and directories come as far as they were asked for.
    ensures forall q | q in out && q in fs.tree :: if fs.tree[q] == Directory then fileTypes.directories else fileTypes.files
  {
    hide ValidTree, InListing, IsListing, WalkFrom, InOrder, Split, Answered, CursorOk, IsToCome, Unread, WellListed;
    ghost var t := fs.tree;
    ListingIsFinite(t, recursive, fileTypes, root);
    var traversal := new FileEnumerator(fs, root, recursive, fileTypes);
    ghost var left := t.Keys + {root + [".."]};
    ghost var c, read := traversal.Position(), traversal.read;
    out := [];
    var current := traversal.Next();
    while current.Some?
      invariant fresh(traversal) && traversal.Valid() && traversal.fs == fs
      invariant traversal.recursive == recursive && traversal.fileTypes == fileTypes
      invariant Split(t, recursive, fileTypes, root, out, c, read)
      invariant Answered(t, true, recursive, fileTypes, c, traversal.Position(), read, traversal.read, current)
      invariant forall q | IsToCome(t, recursive, fileTypes, c, q) :: q in left
      decreases left, current.Some?
    {
      AnswerSplits(t, recursive, fileTypes, root, out, c, traversal.Position(), read, traversal.read, current);
      AnswerLeaves(t, recursive, fileTypes, c, traversal.Position(), read, traversal.read, current.value, left);
      out := out + [current.value];
      left := left - {current.value};
      c, read := traversal.Position(), traversal.read;
      current := traversal.Next();
    }
    AnswerSplits(t, recursive, fileTypes, root, out, c, traversal.Position(), read, traversal.read, None);
    assert forall p | p in traversal.read :: IsDirectory(t, p) && Lists(t, p, traversal.read[p]) by {
      SplitIsSound(t, recursive, fileTypes, root, out + [], traversal.Position(), traversal.read);
    }
    ghost var answers := Completed(t, traversal.read);
    WalkFromInOrder(t, answers, recursive, fileTypes, root);
    forall q
      ensures q in out <==> InListing(t, recursive, fileTypes, root, q)
    {
      RootMembers(t, answers, recursive, fileTypes, root, q);
    }
    forall q | q in out && q in t
      ensures if t[q] == Directory then fileTypes.directories else fileTypes.files
    {
      KindIsAskedFor(t, recursive, fileTypes, root, q);
    }
  }

  lemma KindIsAskedFor(t: Tree, recursive: bool, types: FileTypes, root: Path, q: Path)
    requires ValidTree(t) && InListing(t, recursive, types, root, q) && q in t
    ensures if t[q] == Directory then types.directories else types.files
  {
    assert q != [] && q[|q| - 1] == ".." ==> false;
    assert (root + [".."])[|root|] == "..";
  }

  lemma SplitIsSound(t: Tree, recursive: bool, types: FileTypes, root: Path, out: seq<Path>, c: Cursor, read: Listings)
    requires Split(t, recursive, types, root, out, c, read)
    ensures forall p | p in read :: IsDirectory(t, p) && Lists(t, p, read[p])
  {
  }

  lemma AnswerLeaves(t: Tree, recursive: bool, types: FileTypes, c0: Cursor, c: Cursor, read0: Listings, read: Listings,
                     r: Path, left: set<Path>)
    requires Answered(t, true, recursive, types, c0, c, read0, read, Some(r))
    requires forall q | IsToCome(t, recursive, types, c0, q) :: q in left
    ensures r in left && forall q | IsToCome(t, recursive, types, c, q) :: q in left - {r}
  {
    hide IsToCome;
  }

  lemma WalkFromInOrder(t: Tree, answers: Listings, recursive: bool, types: FileTypes, root: Path)
    requires IsListing(t, answers)
    ensures InOrder(WalkFrom(answers, recursive, types, root))
  {
    WalkInOrder(answers, recursive, types, [root]);
  }
}
