/**
 Model of the loops over partial reads and writes in base/file_util_posix.cc.
 The disk maps paths to contents; a call moves at least one byte unless it
 fails or there is none. On a reliable disk calls fail for a reason only.
 */
module FileCopy {

  const K_BUFFER_SIZE := 32768

  class Disk {
    var files: map<string, string>
    const reliable: bool

    method Open(path: string) returns (ok: bool)
      ensures ok ==> path in files
      ensures reliable ==> ok == (path in files)
    {
      ok := *;
      ok := path in files && (ok || reliable);
    }

    method Create(path: string) returns (ok: bool)
      modifies this
      ensures files == if ok then old(files)[path := ""] else old(files)
      ensures reliable ==> ok
    {
      ok := *;
      ok := ok || reliable;
      if ok {
        files := files[path := ""];
      }
    }

    method Close() returns (ok: bool)
      ensures reliable ==> ok
    {
      ok := *;
      ok := ok || reliable;
    }
  }

  /** The first k bytes of ahead have been stored at `start`, and nothing else. */
  ghost predicate Stored(before: string, after: string, ahead: string, start: nat, k: nat) {
    start + k <= |before| && k <= |ahead| && after == before[..start] + ahead[..k] + before[start + k..]
  }

  /** An open file and the position in it. */
  class Descriptor {
    const disk: Disk
    const path: string
    var position: nat

    ghost predicate Valid()
      reads this, disk
    {
      path in disk.files && position <= |disk.files[path]|
    }

    /** What is still to be read. */
    ghost function Ahead(): string
      requires Valid()
      reads this, disk
    {
      disk.files[path][position..]
    }

    constructor (disk: Disk, path: string)
      requires path in disk.files
      ensures this.disk == disk && this.path == path && position == 0 && Valid()
    {
      this.disk, this.path, position := disk, path, 0;
    }

    /** How many bytes a call moves of those it might: one at least, if there is one, or -1. */
    method Moves(most: nat) returns (n: int)
      ensures -1 <= n <= most && (n == 0 <==> most == 0) && (disk.reliable ==> n != -1)
    {
      n := *;
      if most == 0 {
        n := 0;
      } else if n < 0 && !disk.reliable {
        n := -1;
      } else if n < 1 || n > most {
        n := most;
      }
    }

    method Read(buffer: array<char>, start: nat, count: nat) returns (n: int)
      requires Valid() && start + count <= buffer.Length
      modifies this`position, buffer
      ensures Valid() && -1 <= n <= count && (disk.reliable ==> n != -1)
      ensures var k := if n == -1 then 0 else n;
              && position == old(position) + k
              && Stored(old(buffer[..]), buffer[..], old(Ahead()), start, k)
      ensures n == 0 ==> count == 0 || old(Ahead()) == ""
    {
      var content := disk.files[path];
      n := Moves(if count <= |content| - position then count else |content| - position);
      if n > 0 {
        ghost var before := buffer[..];
        forall i | 0 <= i < n {
          buffer[start + i] := content[position + i];
        }
        assert buffer[..] == before[..start] + content[position..][..n] + before[start + n..];
        position := position + n;
      } else {
        assert buffer[..] == buffer[..start] + buffer[start..];
      }
    }

    method Write(data: array<char>, start: nat, count: nat) returns (n: int)
      requires Valid() && Ahead() == "" && start + count <= data.Length
      modifies this`position, disk
      ensures Valid() && Ahead() == "" && -1 <= n <= count && (disk.reliable ==> n != -1)
      ensures disk.files == old(disk.files)[path := old(disk.files[path]) + data[start..start + if n == -1 then 0 else n]]
      ensures n == 0 ==> count == 0
    {
      n := Moves(count);
      var k := if n == -1 then 0 else n;
      disk.files := disk.files[path := disk.files[path] + data[start..start + k]];
      position := position + k;
    }
  }

  /** The first k bytes of data were added to what fd's file held. */
  ghost predicate Appended(files: map<string, string>, before: map<string, string>, path: string, data: string, k: nat)
    requires path in before && k <= |data|
  {
    files == before[path := before[path] + data[..k]]
  }

  lemma AppendNothing(files: map<string, string>, path: string, data: string)
    requires path in files
    ensures Appended(files, files, path, data, 0)
  {
    assert files[path] + data[..0] == files[path];
  }

  lemma AppendMore(files: map<string, string>, before: map<string, string>, path: string, data: string, k: nat, n: nat)
    requires path in before && k + n <= |data| && Appended(files, before, path, data, k)
    ensures Appended(files[path := files[path] + data[k..k + n]], before, path, data, k + n)
  {
    assert before[path] + data[..k] + data[k..k + n] == before[path] + data[..k + n];
  }

  method WriteFileDescriptor(fd: Descriptor, data: array<char>, size: int) returns (written: int)
    requires fd.Valid() && fd.Ahead() == "" && size <= data.Length
    modifies fd`position, fd.disk
    ensures fd.Valid() && fd.Ahead() == ""
    ensures written == -1 || written == if size > 0 then size else 0
    ensures written != -1 ==> Appended(fd.disk.files, old(fd.disk.files), fd.path, data[..], written)
    ensures written == -1 ==> exists k | 0 <= k < size :: Appended(fd.disk.files, old(fd.disk.files), fd.path, data[..], k)
    ensures fd.disk.reliable ==> written != -1
  {
    hide Appended;
    AppendNothing(fd.disk.files, fd.path, data[..]);
    var bytesWrittenTotal := 0;
    while bytesWrittenTotal < size
      invariant 0 <= bytesWrittenTotal <= data.Length
      invariant size <= bytesWrittenTotal ==> bytesWrittenTotal == if size > 0 then size else 0
      invariant fd.Valid() && fd.Ahead() == ""
      invariant Appended(fd.disk.files, old(fd.disk.files), fd.path, data[..], bytesWrittenTotal)
    {
      ghost var files := fd.disk.files;
      var bytesWrittenPartial := fd.Write(data, bytesWrittenTotal, size - bytesWrittenTotal);
      ghost var k := if bytesWrittenPartial < 0 then 0 else bytesWrittenPartial;
      AppendMore(files, old(fd.disk.files), fd.path, data[..], bytesWrittenTotal, k);
      assert data[bytesWrittenTotal..bytesWrittenTotal + k] == data[..][bytesWrittenTotal..bytesWrittenTotal + k];
      if bytesWrittenPartial < 0 {
        return -1;
      }
      bytesWrittenTotal := bytesWrittenTotal + bytesWrittenPartial;
    }
    return bytesWrittenTotal;
  }

  // Exactly `bytes` bytes are read, or all there are, up to a failure.
  method ReadFromFD(fd: Descriptor, buffer: array<char>, bytes: nat) returns (ok: bool)
    requires fd.Valid() && bytes <= buffer.Length
    modifies fd`position, buffer
    ensures fd.Valid()
    ensures var k := fd.position - old(fd.position);
            && 0 <= k <= bytes && Stored(old(buffer[..]), buffer[..], old(fd.Ahead()), 0, k)
            && ok == (k == bytes)
    ensures fd.disk.reliable ==> ok == (bytes <= |old(fd.Ahead())|)
  {
    hide Stored;
    ghost var ahead, before := fd.Ahead(), buffer[..];
    NothingStored(before, ahead);
    var totalRead := 0;
    while totalRead < bytes
      invariant 0 <= totalRead <= bytes && totalRead <= |ahead|
      invariant fd.Valid() && fd.position == old(fd.position) + totalRead && fd.Ahead() == ahead[totalRead..]
      invariant Stored(before, buffer[..], ahead, 0, totalRead)
      decreases bytes - totalRead
    {
      ghost var now := buffer[..];
      var bytesRead := fd.Read(buffer, totalRead, bytes - totalRead);
      ghost var k := if bytesRead == -1 then 0 else bytesRead;
      ReadFurther(before, now, buffer[..], ahead, totalRead, k);
      if bytesRead <= 0 {
        break;
      }
      totalRead := totalRead + bytesRead;
    }
    return totalRead == bytes;
  }

  lemma NothingStored(before: string, ahead: string)
    ensures Stored(before, before, ahead, 0, 0)
  {
  }

  lemma ReadFurther(before: string, now: string, after: string, ahead: string, m: nat, k: nat)
    requires m <= |ahead| && Stored(before, now, ahead, 0, m) && Stored(now, after, ahead[m..], m, k)
    ensures m + k <= |ahead| && Stored(before, after, ahead, 0, m + k) && ahead[m..][k..] == ahead[m + k..]
  {
    assert now[..m] == ahead[..m] && now[m + k..] == before[m + k..];
    assert ahead[..m] + ahead[m..][..k] == ahead[..m + k];
  }

  /** The file at `to` holds the first n bytes of content, and nothing else was changed. */
  ghost predicate HoldsPrefix(files: map<string, string>, before: map<string, string>, to: string, content: string, n: nat) {
    n <= |content| && files == before[to := content[..n]]
  }

  /** Both ends are where they should be after n bytes; a file copied onto itself was emptied when it was created. */
  ghost predicate Copying(infile: Descriptor, outfile: Descriptor, before: map<string, string>, content: string, n: nat)
    reads infile, outfile, infile.disk, outfile.disk
  {
    && infile.disk == outfile.disk && infile.Valid() && outfile.Valid()
    && infile.disk.files[infile.path] == content
    && infile.position == outfile.position == n
    && HoldsPrefix(infile.disk.files, before, outfile.path, content, n)
  }

  lemma PrefixGrows(before: map<string, string>, to: string, content: string, n: nat,
                    files: map<string, string>, buffer: string, read: nat, written: nat, files': map<string, string>)
    requires HoldsPrefix(files, before, to, content, n)
    requires n + read <= |content| && read <= |buffer| && buffer[..read] == content[n..][..read] && written <= read
    requires Appended(files', files, to, buffer, written)
    ensures HoldsPrefix(files', before, to, content, n + written)
  {
    assert buffer[..written] == buffer[..read][..written] == content[n..n + written];
    assert content[..n] + content[n..n + written] == content[..n + written];
  }

  lemma AtTheEnd(infile: Descriptor, outfile: Descriptor, before: map<string, string>, content: string, n: nat)
    requires Copying(infile, outfile, before, content, n)
    ensures n <= |content| && outfile.Ahead() == ""
  {
  }

  // The two loops of CopyFile; the inner one is that of WriteFileDescriptor.
  method CopyBytes(infile: Descriptor, outfile: Descriptor, ghost before: map<string, string>, ghost content: string)
    returns (result: bool)
    requires Copying(infile, outfile, before, content, 0) && infile != outfile
    requires infile.path != outfile.path || content == ""
    modifies infile`position, outfile`position, infile.disk
    ensures exists n :: HoldsPrefix(infile.disk.files, before, outfile.path, content, n)
    ensures result ==> HoldsPrefix(infile.disk.files, before, outfile.path, content, |content|)
    ensures infile.disk.reliable ==> result
  {
    hide HoldsPrefix;
    AtTheEnd(infile, outfile, before, content, 0);
    var buffer := new char[K_BUFFER_SIZE];
    ghost var n := 0;
    while true
      invariant Copying(infile, outfile, before, content, n) && n <= |content| && outfile.Ahead() == ""
      decreases |content| - n
    {
      var bytesRead := infile.Read(buffer, 0, buffer.Length);
      if bytesRead < 0 {
        return false;
      }
      if bytesRead == 0 {
        return true;
      }
      ghost var files := infile.disk.files;
      var written := WriteFileDescriptor(outfile, buffer, bytesRead);
      ghost var k :| 0 <= k <= bytesRead && (written < 0 || k == bytesRead)
                     && Appended(infile.disk.files, files, outfile.path, buffer[..], k);
      PrefixGrows(before, outfile.path, content, n, files, buffer[..], bytesRead, k, infile.disk.files);
      if written < 0 {
        return false;
      }
      n := n + bytesRead;
    }
  }

  method CopyFile(disk: Disk, from: string, to: string) returns (result: bool)
    modifies disk
    ensures result ==> from in old(disk.files)
    ensures result ==> disk.files == old(disk.files)[to := if from == to then "" else old(disk.files)[from]]
    ensures !result ==> disk.files == old(disk.files)
                        || (from in old(disk.files)
                            && exists n :: HoldsPrefix(disk.files, old(disk.files), to, old(disk.files)[from], n))
    ensures disk.reliable ==> result == (from in old(disk.files))
  {
    var isOpen := disk.Open(from);
    if !isOpen {
      return false;
    }
    var infile := new Descriptor(disk, from);
    var isCreated := disk.Create(to);
    if !isCreated {
      var _ := disk.Close();
      return false;
    }
    var outfile := new Descriptor(disk, to);
    ghost var content := if from == to then "" else old(disk.files)[from];
    result := CopyBytes(infile, outfile, old(disk.files), content);
    assert content[..|content|] == content;
    ghost var n :| HoldsPrefix(disk.files, old(disk.files), to, content, n);
    assert HoldsPrefix(disk.files, old(disk.files), to, old(disk.files)[from], n);
    var closedIn := disk.Close();
    if !closedIn {
      result := false;
    }
    var closedOut := disk.Close();
    if !closedOut {
      result := false;
    }
  }
}
