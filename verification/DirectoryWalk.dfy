/**
 What FileEnumerator in base/file_util_posix.cc returns from first to last, as a
 recursive function of the listings of the directories, and in which order.
 */
module DirectoryWalk {
  import opened FileTree
  import opened EnumeratorCursor

  /** What reading each directory answers. A directory without a listing cannot be read. */
  type Listings = map<Path, seq<DirectoryEntryInfo>>

  ghost predicate WellListed(read: Listings) {
    forall p | p in read :: DistinctNames(read[p])
  }

  /** Exactly the directories of t can be read, and they hold what t says. */
  ghost predicate IsListing(t: Tree, read: Listings) {
    && WellListed(read)
    && (forall p :: p in read <==> IsDirectory(t, p))
    && (forall p | p in read :: Lists(t, p, read[p]))
  }

  function Returned(root: Path, es: seq<DirectoryEntryInfo>): (out: seq<Path>)
    ensures |out| == |es| && forall i | 0 <= i < |out| :: out[i] == root + [es[i].name]
  {
    seq(|es|, i requires 0 <= i < |es| => root + [es[i].name])
  }

  /** The stack once its top, of which es is the listing, has been read. */
  function Stacked(recursive: bool, types: FileTypes, pending: seq<Path>, es: seq<DirectoryEntryInfo>): seq<Path>
    requires pending != []
  {
    pending[..|pending| - 1] + Pushed(recursive, types, pending[|pending| - 1], es)
  }

  lemma StackedIsSmaller(read: Listings, recursive: bool, types: FileTypes, pending: seq<Path>)
    requires WellListed(read) && PairwiseUnrelated(pending) && pending != []
    requires var p := pending[|pending| - 1]; p in read
    ensures var p := pending[|pending| - 1]; var pending' := Stacked(recursive, types, pending, read[p]);
            && PairwiseUnrelated(pending') && Unread(read.Keys, pending') < Unread(read.Keys, pending)
            && forall i | 0 <= i < |pending'| :: !(pending'[i] <= p)
  {
    hide Pushed, Kept, Unread;
    var c := Cursor(pending, [], [], 0);
    var p := pending[|pending| - 1];
    assert Stacked(recursive, types, pending, read[p]) == AfterRead(recursive, types, c, read[p]).pending;
    AfterReadUnrelated(recursive, types, c, read[p]);
    UnreadAfterRead(read.Keys, recursive, types, c, read[p]);
  }

  /** All that is returned for the directories on the stack: the top first, and what lies below it next. */
  ghost function Walk(read: Listings, recursive: bool, types: FileTypes, pending: seq<Path>): seq<Path>
    requires WellListed(read) && PairwiseUnrelated(pending)
    decreases Unread(read.Keys, pending), |pending|
  {
    if pending == [] then []
    else
      var n := |pending| - 1;
      var p := pending[n];
      if p !in read then
        UnreadAfterDrop(read.Keys, pending);
        Walk(read, recursive, types, pending[..n])
      else
        StackedIsSmaller(read, recursive, types, pending);
        Returned(p, Kept(types, read[p])) + Walk(read, recursive, types, Stacked(recursive, types, pending, read[p]))
  }

  lemma UnrelatedParts(base: seq<Path>, upper: seq<Path>)
    requires PairwiseUnrelated(base + upper)
    ensures PairwiseUnrelated(base) && PairwiseUnrelated(upper)
  {
    assert forall i | 0 <= i < |base| :: base[i] == (base + upper)[i];
    assert forall i | 0 <= i < |upper| :: upper[i] == (base + upper)[|base| + i];
  }

  // What is on top of the stack is gone through to its end before what is below it.
  lemma {:induction false} TopComesFirst(read: Listings, recursive: bool, types: FileTypes, base: seq<Path>, upper: seq<Path>)
    requires WellListed(read) && PairwiseUnrelated(base + upper)
    ensures PairwiseUnrelated(base) && PairwiseUnrelated(upper)
    ensures Walk(read, recursive, types, base + upper)
            == Walk(read, recursive, types, upper) + Walk(read, recursive, types, base)
    decreases Unread(read.Keys, upper), |upper|
  {
    hide Pushed, Kept, Unread, PairwiseUnrelated, WellListed;
    UnrelatedParts(base, upper);
    if upper == [] {
      assert base + upper == base;
    } else {
      var n := |upper| - 1;
      var p := upper[n];
      assert (base + upper)[|base + upper| - 1] == p && (base + upper)[..|base + upper| - 1] == base + upper[..n];
      if p !in read {
        UnreadAfterDrop(read.Keys, base + upper);
        UnreadAfterDrop(read.Keys, upper);
        TopComesFirst(read, recursive, types, base, upper[..n]);
      } else {
        StackedIsSmaller(read, recursive, types, base + upper);
        StackedIsSmaller(read, recursive, types, upper);
        var upper' := Stacked(recursive, types, upper, read[p]);
        assert Stacked(recursive, types, base + upper, read[p]) == base + upper';
        TopComesFirst(read, recursive, types, base, upper');
      }
    }
  }

  // ---------- What a walk returns ----------

  // A walk returns what lies below the directories on the stack.
  lemma {:induction false} WalkMembers(t: Tree, read: Listings, recursive: bool, types: FileTypes, pending: seq<Path>, q: Path)
    requires ValidTree(t) && IsListing(t, read) && PairwiseUnrelated(pending)
    requires !(recursive && types.includeDotDot)
    ensures q in Walk(read, recursive, types, pending) <==> IsPending(t, recursive, types, pending, q)
    decreases Unread(read.Keys, pending), |pending|
  {
    hide Pushed, Kept, Unread, PairwiseUnrelated, WellListed, ValidTree, InListing;
    if pending != [] {
      var n := |pending| - 1;
      var p := pending[n];
      if p !in read {
        UnreadAfterDrop(read.Keys, pending);
        WalkMembers(t, read, recursive, types, pending[..n], q);
        PendingWithout(t, recursive, types, pending, q);
      } else {
        var c := Cursor(pending, [], [], 0);
        StackedIsSmaller(read, recursive, types, pending);
        WalkMembers(t, read, recursive, types, Stacked(recursive, types, pending, read[p]), q);
        AfterReadToCome(t, recursive, types, c, read[p], q);
        ReturnedAreSiblings(p, Kept(types, read[p]), q, AfterRead(recursive, types, c, read[p]));
      }
    }
  }

  lemma PendingWithout(t: Tree, recursive: bool, types: FileTypes, pending: seq<Path>, q: Path)
    requires pending != [] && !IsDirectory(t, pending[|pending| - 1])
    ensures IsPending(t, recursive, types, pending, q) <==> IsPending(t, recursive, types, pending[..|pending| - 1], q)
  {
    if i :| 0 <= i < |pending| && InListing(t, recursive, types, pending[i], q) {
      assert pending[..|pending| - 1][i] == pending[i];
    }
  }

  lemma ReturnedAreSiblings(p: Path, es: seq<DirectoryEntryInfo>, q: Path, c: Cursor)
    requires c.root == p && c.listed == es && c.next == 0
    ensures q in Returned(p, es) <==> IsSibling(c, q)
  {
    if q in Returned(p, es) {
      var i :| 0 <= i < |es| && Returned(p, es)[i] == q;
      assert q == p + [es[i].name];
    }
    if IsSibling(c, q) {
      var i :| 0 <= i < |es| && q == p + [es[i].name];
      assert Returned(p, es)[i] == q;
    }
  }

  // ---------- In which order ----------

  ghost predicate NoRepeats(out: seq<Path>) {
    forall i, j | 0 <= i < j < |out| :: out[i] != out[j]
  }

  /** All entries of a directory come before any entry of a directory below it. */
  ghost predicate DirectoryFirst(out: seq<Path>)
    requires [] !in out
  {
    forall i, j | 0 <= i < j < |out| :: !(Parent(out[j]) < Parent(out[i]))
  }

  /** The entries of one directory come one after the other. */
  ghost predicate SiblingsTogether(out: seq<Path>)
    requires [] !in out
  {
    forall i, j, k | 0 <= i < j < k < |out| && Parent(out[i]) == Parent(out[k]) :: Parent(out[j]) == Parent(out[i])
  }

  ghost predicate InOrder(out: seq<Path>) {
    [] !in out && NoRepeats(out) && DirectoryFirst(out) && SiblingsTogether(out)
  }

  // In particular no path comes after one that lies below it.
  lemma ParentsFirst(out: seq<Path>, i: nat, j: nat)
    requires InOrder(out) && i < j < |out|
    ensures !(out[j] < out[i])
  {
    assert out[i] in out && out[j] in out;
    ShallowerParent(out[j], out[i]);
  }

  lemma ShallowerParent(q: Path, p: Path)
    requires q != [] && p != []
    ensures |q| < |p| && Parent(q) <= p ==> Parent(q) < Parent(p)
    ensures q < p ==> Parent(q) < Parent(p)
  {
  }

  /** q lies in one of the directories on the stack, or below one. */
  ghost predicate IsInside(pending: seq<Path>, q: Path) {
    q != [] && exists i | 0 <= i < |pending| :: pending[i] <= Parent(q)
  }

  lemma {:induction false} WalkIsInside(read: Listings, recursive: bool, types: FileTypes, pending: seq<Path>, q: Path)
    requires WellListed(read) && PairwiseUnrelated(pending) && q in Walk(read, recursive, types, pending)
    ensures IsInside(pending, q)
    decreases Unread(read.Keys, pending), |pending|
  {
    hide Pushed, Kept, Unread, PairwiseUnrelated, WellListed;
    var n := |pending| - 1;
    var p := pending[n];
    if p !in read {
      UnreadAfterDrop(read.Keys, pending);
      WalkIsInside(read, recursive, types, pending[..n], q);
      var i :| 0 <= i < n && pending[..n][i] <= Parent(q);
      assert pending[i] <= Parent(q);
    } else if q in Returned(p, Kept(types, read[p])) {
      assert Parent(q) == p;
    } else {
      StackedIsSmaller(read, recursive, types, pending);
      var pending' := Stacked(recursive, types, pending, read[p]);
      WalkIsInside(read, recursive, types, pending', q);
      var i :| 0 <= i < |pending'| && pending'[i] <= Parent(q);
      if i < n {
        assert pending[i] == pending'[i];
      } else {
        PushedMembers(recursive, types, p, read[p]);
        assert pending'[i] in Pushed(recursive, types, p, read[p]);
        assert p <= pending'[i];
      }
    }
  }

  lemma ReturnedInOrder(p: Path, es: seq<DirectoryEntryInfo>)
    requires DistinctNames(es)
    ensures var out := Returned(p, es); InOrder(out) && forall i | 0 <= i < |out| :: Parent(out[i]) == p
  {
    var out := Returned(p, es);
    forall i, j | 0 <= i < j < |out|
      ensures out[i] != out[j]
    {
      assert out[i][|p|] == es[i].name && out[j][|p|] == es[j].name;
    }
  }

  // The entries of p, and then paths none of which lies in p or above it.
  lemma EntriesThenRest(p: Path, a: seq<Path>, b: seq<Path>)
    requires InOrder(a) && InOrder(b) && forall i | 0 <= i < |a| :: Parent(a[i]) == p
    requires forall i | 0 <= i < |b| :: b[i] != [] && !(Parent(b[i]) <= p)
    ensures InOrder(a + b)
  {
    var out := a + b;
    assert forall i | 0 <= i < |a| :: out[i] == a[i];
    assert forall i | |a| <= i < |out| :: out[i] == b[i - |a|] && !(Parent(out[i]) <= p);
    forall i, j | 0 <= i < j < |out|
      ensures out[i] != out[j] && !(Parent(out[j]) < Parent(out[i]))
    {
    }
  }

  // A walk returns nothing twice, each directory's entries together, and before what lies below them.
  lemma {:induction false} WalkInOrder(read: Listings, recursive: bool, types: FileTypes, pending: seq<Path>)
    requires WellListed(read) && PairwiseUnrelated(pending)
    ensures InOrder(Walk(read, recursive, types, pending))
    decreases Unread(read.Keys, pending), |pending|
  {
    hide Pushed, Kept, Unread, PairwiseUnrelated, InOrder, DistinctNames;
    if pending == [] {
      NothingIsInOrder();
    } else {
      var n := |pending| - 1;
      var p := pending[n];
      if p !in read {
        UnreadAfterDrop(read.Keys, pending);
        WalkInOrder(read, recursive, types, pending[..n]);
      } else {
        StackedIsSmaller(read, recursive, types, pending);
        var pending' := Stacked(recursive, types, pending, read[p]);
        var rest := Walk(read, recursive, types, pending');
        WalkInOrder(read, recursive, types, pending');
        KeptDistinct(types, read[p]);
        ReturnedInOrder(p, Kept(types, read[p]));
        forall i | 0 <= i < |rest|
          ensures rest[i] != [] && !(Parent(rest[i]) <= p)
        {
          assert rest[i] in rest;
          WalkIsInside(read, recursive, types, pending', rest[i]);
          var k :| 0 <= k < |pending'| && pending'[k] <= Parent(rest[i]);
          assert !(pending'[k] <= p);
        }
        EntriesThenRest(p, Returned(p, Kept(types, read[p])), rest);
      }
    }
  }

  lemma NothingIsInOrder()
    ensures InOrder([])
  {
  }

  // ---------- Whether it is breadth-first ----------

  /** No path comes after a deeper one. */
  ghost predicate DepthsAscend(out: seq<Path>) {
    forall i, j | 0 <= i < j < |out| :: |out[i]| <= |out[j]|
  }

  /** Every path to be listed lies below the directory of every shallower one. */
  ghost predicate DeeperIsBelow(t: Tree, recursive: bool, types: FileTypes, root: Path) {
    forall p, q | InListing(t, recursive, types, root, p) && InListing(t, recursive, types, root, q) && |p| > |q| ::
      Parent(q) <= p
  }

  ghost function WalkFrom(read: Listings, recursive: bool, types: FileTypes, root: Path): seq<Path>
    requires WellListed(read)
  {
    Walk(read, recursive, types, [root])
  }

  lemma RootMembers(t: Tree, read: Listings, recursive: bool, types: FileTypes, root: Path, q: Path)
    requires ValidTree(t) && IsListing(t, read) && !(recursive && types.includeDotDot)
    ensures q in WalkFrom(read, recursive, types, root) <==> InListing(t, recursive, types, root, q)
  {
    hide Walk, InListing, IsListing, ValidTree;
    assert [root][0] == root;
    WalkMembers(t, read, recursive, types, [root], q);
  }

  lemma AscendsWhenBelow(t: Tree, read: Listings, recursive: bool, types: FileTypes, root: Path)
    requires ValidTree(t) && IsListing(t, read) && !(recursive && types.includeDotDot)
    requires DeeperIsBelow(t, recursive, types, root)
    ensures DepthsAscend(WalkFrom(read, recursive, types, root))
  {
    hide Walk, InListing, ValidTree;
    var out := WalkFrom(read, recursive, types, root);
    assert PairwiseUnrelated([root]);
    WalkInOrder(read, recursive, types, [root]);
    forall i, j | 0 <= i < j < |out|
      ensures |out[i]| <= |out[j]|
    {
      assert out[i] in out && out[j] in out;
      RootMembers(t, read, recursive, types, root, out[i]);
      RootMembers(t, read, recursive, types, root, out[j]);
      ShallowerParent(out[j], out[i]);
    }
  }

  lemma WalkOfDirectory(read: Listings, recursive: bool, types: FileTypes, p: Path)
    requires WellListed(read) && p in read
    ensures PairwiseUnrelated(Pushed(recursive, types, p, read[p]))
    ensures WalkFrom(read, recursive, types, p)
            == Returned(p, Kept(types, read[p])) + Walk(read, recursive, types, Pushed(recursive, types, p, read[p]))
  {
    hide Pushed, Kept;
    StackedIsSmaller(read, recursive, types, [p]);
    assert Stacked(recursive, types, [p], read[p]) == Pushed(recursive, types, p, read[p]);
  }

  // One member of a stack, among the others.
  lemma WalkOfMember(read: Listings, recursive: bool, types: FileTypes, pending: seq<Path>, k: nat)
    requires WellListed(read) && PairwiseUnrelated(pending) && k < |pending|
    ensures PairwiseUnrelated(pending[..k]) && PairwiseUnrelated(pending[k + 1..])
    ensures Walk(read, recursive, types, pending)
            == Walk(read, recursive, types, pending[k + 1..]) + WalkFrom(read, recursive, types, pending[k])
               + Walk(read, recursive, types, pending[..k])
  {
    hide Walk, PairwiseUnrelated;
    assert pending == (pending[..k] + [pending[k]]) + pending[k + 1..];
    TopComesFirst(read, recursive, types, pending[..k] + [pending[k]], pending[k + 1..]);
    TopComesFirst(read, recursive, types, pending[..k], [pending[k]]);
    var x, y, z := Walk(read, recursive, types, pending[k + 1..]), WalkFrom(read, recursive, types, pending[k]),
                   Walk(read, recursive, types, pending[..k]);
    assert x + (y + z) == x + y + z;
  }

  // Of two sub-directories, what lies below the one listed later comes first.
  lemma LaterComesFirst(read: Listings, types: FileTypes, d: Path, a: nat, b: nat)
    returns (u: seq<Path>, v: seq<Path>, w: seq<Path>)
    requires WellListed(read) && d in read
    requires var ps := Pushed(true, types, d, read[d]); a < b < |ps|
    ensures var ps := Pushed(true, types, d, read[d]);
            WalkFrom(read, true, types, d) == u + WalkFrom(read, true, types, ps[b]) + v + WalkFrom(read, true, types, ps[a]) + w
  {
    hide Walk, Pushed, PairwiseUnrelated, Kept;
    var ps := Pushed(true, types, d, read[d]);
    WalkOfDirectory(read, true, types, d);
    WalkOfMember(read, true, types, ps, b);
    WalkOfMember(read, true, types, ps[..b], a);
    assert ps[..b][a] == ps[a] && ps[..b][..a] == ps[..a];
    u := Returned(d, Kept(types, read[d])) + Walk(read, true, types, ps[b + 1..]);
    v := Walk(read, true, types, ps[..b][a + 1..]);
    w := Walk(read, true, types, ps[..a]);
    Associate(Returned(d, Kept(types, read[d])), Walk(read, true, types, ps[b + 1..]), WalkFrom(read, true, types, ps[b]),
              v, WalkFrom(read, true, types, ps[a]), w);
  }

  lemma Associate(a: seq<Path>, b: seq<Path>, c: seq<Path>, d: seq<Path>, e: seq<Path>, f: seq<Path>)
    ensures a + (b + c + (d + e + f)) == a + b + c + d + e + f
  {
  }

  // The walk of a sub-directory is a part of that of its directory.
  lemma WalkOfChild(t: Tree, read: Listings, types: FileTypes, c: Path, d: Path) returns (u: seq<Path>, v: seq<Path>)
    requires ValidTree(t) && IsListing(t, read) && IsDirectory(t, c) && IsDirectory(t, d) && d != [] && Parent(d) == c
    ensures WalkFrom(read, true, types, c) == u + WalkFrom(read, true, types, d) + v
  {
    assert c in read && Lists(t, c, read[c]);
    ChildDirectoryIsPushed(t, true, types, c, read[c], d);
    hide Walk, Pushed, PairwiseUnrelated, Kept, Lists, IsListing, ValidTree;
    WalkOfDirectory(read, true, types, c);
    var ps := Pushed(true, types, c, read[c]);
    var k :| 0 <= k < |ps| && ps[k] == d;
    WalkOfMember(read, true, types, ps, k);
    var r, x := Returned(c, Kept(types, read[c])), Walk(read, true, types, ps[k + 1..]);
    v := Walk(read, true, types, ps[..k]);
    u := r + x;
    AssociateLeft(r, x, WalkFrom(read, true, types, d), v);
  }

  lemma AssociateLeft(r: seq<Path>, x: seq<Path>, d: seq<Path>, v: seq<Path>)
    ensures r + (x + d + v) == r + x + d + v
  {
  }

  lemma ParentIsInside(t: Tree, root: Path, d: Path)
    requires ValidTree(t) && d in t && root < d
    ensures IsDirectory(t, Parent(d)) && root <= Parent(d)
  {
  }

  // The walk of a directory further down is a part of the whole.
  lemma {:induction false} WalkOfPart(t: Tree, read: Listings, types: FileTypes, root: Path, d: Path)
    returns (u: seq<Path>, v: seq<Path>)
    requires ValidTree(t) && IsListing(t, read) && IsDirectory(t, d) && root <= d
    ensures WalkFrom(read, true, types, root) == u + WalkFrom(read, true, types, d) + v
    decreases |d|
  {
    assert WellListed(read);
    hide WalkFrom, IsListing, WellListed, ValidTree;
    if d == root {
      u, v := [], [];
      assert [] + WalkFrom(read, true, types, d) + [] == WalkFrom(read, true, types, d);
    } else {
      ParentIsInside(t, root, d);
      hide IsDirectory;
      u, v := WalkOfPart(t, read, types, root, Parent(d));
      var u', v' := WalkOfChild(t, read, types, Parent(d), d);
      AssociateAround(u, u', WalkFrom(read, true, types, d), v', v);
      u, v := u + u', v' + v;
    }
  }

  lemma AssociateAround(u: seq<Path>, u': seq<Path>, d: seq<Path>, v': seq<Path>, v: seq<Path>)
    ensures u + (u' + d + v') + v == u + u' + d + (v' + v)
  {
  }

  // The stack keeps the order of the listing.
  lemma {:induction false} PushedInOrder(types: FileTypes, d: Path, es: seq<DirectoryEntryInfo>, i: nat, j: nat)
    returns (a: nat, b: nat)
    requires i < j < |es| && es[i].isDir && es[j].isDir
    requires !ShouldSkip(types, es[i].name) && !ShouldSkip(types, es[j].name)
    ensures var ps := Pushed(true, types, d, es);
            a < b < |ps| && ps[a] == d + [es[i].name] && ps[b] == d + [es[j].name]
  {
    var n := |es| - 1;
    var ps := Pushed(true, types, d, es[..n]);
    if j == n {
      PushedMembers(true, types, d, es[..n]);
      assert es[..n][i] in es[..n];
      assert d + [es[i].name] in ps;
      a :| 0 <= a < |ps| && ps[a] == d + [es[i].name];
      b := |ps|;
    } else {
      a, b := PushedInOrder(types, d, es[..n], i, j);
    }
  }

  lemma SwappedIsListed(t: Tree, d: Path, es: seq<DirectoryEntryInfo>, i: nat, j: nat)
    requires Lists(t, d, es) && i < j < |es|
    ensures Lists(t, d, es[i := es[j]][j := es[i]])
  {
    var es' := es[i := es[j]][j := es[i]];
    assert es'[i] == es[j] && es'[j] == es[i];
    assert forall k | 0 <= k < |es| && k != i && k != j :: es'[k] == es[k];
    forall e
      ensures e in es' <==> e in es
    {
      if k :| 0 <= k < |es| && es[k] == e {
        assert es'[if k == i then j else if k == j then i else k] == e;
      }
    }
    assert es'[i] in es';
  }

  ghost function SomeListing(t: Tree, d: Path): (es: seq<DirectoryEntryInfo>)
    requires ValidTree(t)
    ensures Lists(t, d, es)
  {
    ListingExists(t, d);
    var es :| Lists(t, d, es);
    es
  }

  lemma ChildIsListed(t: Tree, d: Path, x: string, es: seq<DirectoryEntryInfo>)
    requires Lists(t, d, es) && IsDirectory(t, d + [x])
    ensures DirectoryEntryInfo(x, true) in es
  {
    assert Parent(d + [x]) == d && (d + [x])[|d|] == x;
  }

  // A directory can be listed so that of two given sub-directories the one comes before the other.
  lemma ListedOneFirst(t: Tree, d: Path, y: string, x: string) returns (es: seq<DirectoryEntryInfo>, i: nat, j: nat)
    requires ValidTree(t) && IsDirectory(t, d + [x]) && IsDirectory(t, d + [y]) && x != y
    ensures Lists(t, d, es)
    ensures i < j < |es| && es[i] == DirectoryEntryInfo(y, true) && es[j] == DirectoryEntryInfo(x, true)
  {
    hide ValidTree, Lists, IsDirectory;
    es := SomeListing(t, d);
    ChildIsListed(t, d, x, es);
    ChildIsListed(t, d, y, es);
    i :| 0 <= i < |es| && es[i] == DirectoryEntryInfo(y, true);
    j :| 0 <= j < |es| && es[j] == DirectoryEntryInfo(x, true);
    if j < i {
      SwappedIsListed(t, d, es, j, i);
      es := es[j := es[i]][i := es[j]];
      i, j := j, i;
    }
  }

  lemma ListedInOrder(t: Tree, d: Path, y: string, x: string) returns (read: Listings, i: nat, j: nat)
    requires ValidTree(t) && IsDirectory(t, d) && IsDirectory(t, d + [x]) && IsDirectory(t, d + [y]) && x != y
    ensures IsListing(t, read)
    ensures i < j < |read[d]| && read[d][i] == DirectoryEntryInfo(y, true) && read[d][j] == DirectoryEntryInfo(x, true)
  {
    hide ValidTree, Lists;
    var es;
    es, i, j := ListedOneFirst(t, d, y, x);
    read := map c | c in Directories(t) :: if c == d then es else SomeListing(t, c);
    ListsAreDistinct(t, read);
  }

  lemma ListsAreDistinct(t: Tree, read: Listings)
    requires forall p | p in read :: Lists(t, p, read[p])
    ensures WellListed(read)
  {
  }

  // Two paths of a tree part in a directory; where they part further up than their directories, in two sub-directories.
  lemma PartInDirectory(t: Tree, types: FileTypes, root: Path, p: Path, q: Path) returns (d: Path, x: string, y: string)
    requires ValidTree(t) && !types.includeDotDot
    requires InListing(t, true, types, root, p) && InListing(t, true, types, root, q) && |p| > |q| && !(Parent(q) <= p)
    ensures root <= d && IsDirectory(t, d) && x != y && IsPlainName(x) && IsPlainName(y)
    ensures IsDirectory(t, d + [x]) && InListing(t, true, types, d + [x], p)
    ensures IsDirectory(t, d + [y]) && InListing(t, true, types, d + [y], q)
  {
    hide ValidTree, IsDirectory;
    PrefixOfListed(t, types, root, p);
    PrefixOfListed(t, types, root, q);
    hide InListing;
    var m := Fork(q, p, |root|);
    BranchOfListed(t, types, root, p, m);
    BranchOfListed(t, types, root, q, m);
    d, x, y := p[..m], p[m], q[m];
  }

  lemma PrefixOfListed(t: Tree, types: FileTypes, root: Path, p: Path)
    requires InListing(t, true, types, root, p) && !types.includeDotDot
    ensures |root| < |p| && p[..|root|] == root && p in t
  {
  }

  lemma BranchShape(root: Path, p: Path, m: nat)
    requires |root| <= m < |p| - 1 && p[..|root|] == root
    ensures var b := p[..m + 1];
            b == p[..m] + [p[m]] && root <= p[..m] && b < p && Parent(b) == p[..m] && b[|b| - 1] == p[m]
  {
    assert p[..m][..|root|] == root;
  }

  lemma BranchOfListed(t: Tree, types: FileTypes, root: Path, p: Path, m: nat)
    requires ValidTree(t) && InListing(t, true, types, root, p) && !types.includeDotDot && |root| <= m < |p| - 1
    ensures p[..m + 1] == p[..m] + [p[m]] && root <= p[..m] && IsDirectory(t, p[..m]) && IsPlainName(p[m])
    ensures IsDirectory(t, p[..m] + [p[m]]) && InListing(t, true, types, p[..m] + [p[m]], p)
  {
    hide ValidTree, IsDirectory, IsPlainName;
    PrefixOfListed(t, types, root, p);
    BranchShape(root, p, m);
    var b := p[..m + 1];
    AncestorsAreDirectories(t, b, p);
    assert b in t by { DirectoryIsThere(t, b); }
    PlainBranch(t, b);
  }

  lemma DirectoryIsThere(t: Tree, b: Path)
    requires IsDirectory(t, b)
    ensures b in t
  {
  }

  lemma PlainBranch(t: Tree, b: Path)
    requires ValidTree(t) && b in t && b != []
    ensures IsDirectory(t, Parent(b)) && IsPlainName(b[|b| - 1])
  {
  }

  // Where a deeper path does not lie below the directory of a shallower one, some listing puts it first.
  lemma DepthCanDrop(t: Tree, types: FileTypes, root: Path, p: Path, q: Path) returns (read: Listings)
    requires ValidTree(t) && !types.includeDotDot
    requires InListing(t, true, types, root, p) && InListing(t, true, types, root, q) && |p| > |q| && !(Parent(q) <= p)
    ensures IsListing(t, read) && !DepthsAscend(WalkFrom(read, true, types, root))
  {
    hide WalkFrom, InListing, ValidTree, Pushed, DepthsAscend, Lists;
    var d, x, y := PartInDirectory(t, types, root, p, q);
    var i, j;
    read, i, j := ListedInOrder(t, d, y, x);
    var a, b := PushedInOrder(types, d, read[d], i, j);
    RootMembers(t, read, true, types, d + [x], p);
    RootMembers(t, read, true, types, d + [y], q);
    var u, v, w := LaterComesFirst(read, types, d, a, b);
    var u', v' := WalkOfPart(t, read, types, root, d);
    hide IsListing, IsDirectory;
    DeeperFirst(u' + u, WalkFrom(read, true, types, d + [x]), v, WalkFrom(read, true, types, d + [y]), w + v', p, q);
    AssociateTwo(u', u, WalkFrom(read, true, types, d + [x]), v, WalkFrom(read, true, types, d + [y]), w, v');
  }

  lemma AssociateTwo(a: seq<Path>, b: seq<Path>, c: seq<Path>, d: seq<Path>, e: seq<Path>, f: seq<Path>, g: seq<Path>)
    ensures a + (b + c + d + e + f) + g == a + b + c + d + e + (f + g)
  {
  }

  lemma DeeperFirst(u: seq<Path>, a: seq<Path>, v: seq<Path>, b: seq<Path>, w: seq<Path>, p: Path, q: Path)
    requires p in a && q in b && |p| > |q|
    ensures !DepthsAscend(u + a + v + b + w)
  {
    var i :| 0 <= i < |a| && a[i] == p;
    var j :| 0 <= j < |b| && b[j] == q;
    var out := u + a + v + b + w;
    assert out[|u| + i] == p && out[|u| + |a| + |v| + j] == q;
  }

  // Where two paths part.
  lemma Fork(q: Path, p: Path, n: nat) returns (m: nat)
    requires n <= |q| - 1 < |p| && q[..n] == p[..n] && !(Parent(q) <= p)
    ensures n <= m < |q| - 1 && q[..m] == p[..m] && q[m] != p[m]
    decreases |q| - n
  {
    m := n;
    if q[n] == p[n] {
      assert q[..n + 1] == p[..n + 1];
      m := Fork(q, p, n + 1);
    }
  }

  lemma ListingIsWell(t: Tree, read: Listings)
    requires IsListing(t, read)
    ensures WellListed(read)
  {
  }

  // Every walk is breadth-first exactly when what is deeper always lies below the directory of what is shallower.
  lemma BreadthFirstIff(t: Tree, recursive: bool, types: FileTypes, root: Path)
    requires ValidTree(t) && !(recursive && types.includeDotDot)
    ensures (forall read | IsListing(t, read) :: DepthsAscend(WalkFrom(read, recursive, types, root)))
            <==> DeeperIsBelow(t, recursive, types, root)
  {
    hide Walk, ValidTree, IsListing, DepthsAscend;
    if DeeperIsBelow(t, recursive, types, root) {
      forall read | IsListing(t, read)
        ensures WellListed(read) && DepthsAscend(WalkFrom(read, recursive, types, root))
      {
        assert WellListed(read) by { ListingIsWell(t, read); }
        AscendsWhenBelow(t, read, recursive, types, root);
      }
    } else {
      var p, q :| InListing(t, recursive, types, root, p) && InListing(t, recursive, types, root, q)
                  && |p| > |q| && !(Parent(q) <= p);
      var read := DepthCanDrop(t, types, root, p, q);
    }
  }

  // A directory with a file, and one with a file further down: the deeper file may come first.
  lemma DepthDropExample(types: FileTypes) returns (read: Listings)
    requires types.files && !types.includeDotDot
    ensures var t := map[[] := Directory, ["a"] := Directory, ["a", "f"] := File,
                         ["b"] := Directory, ["b", "c"] := Directory, ["b", "c", "g"] := File];
            IsListing(t, read) && !DepthsAscend(WalkFrom(read, true, types, []))
  {
    var t := map[[] := Directory, ["a"] := Directory, ["a", "f"] := File,
                 ["b"] := Directory, ["b", "c"] := Directory, ["b", "c", "g"] := File];
    assert Parent(["a", "f"]) == ["a"] && Parent(["b", "c"]) == ["b"] && Parent(["b", "c", "g"]) == ["b", "c"];
    assert Parent(["a"]) == [] && Parent(["b"]) == [];
    read := DepthCanDrop(t, types, [], ["b", "c", "g"], ["a", "f"]);
  }
}
