/** The file descriptor table of a process (student-distrib/systemcalls.c), with
    the file operations behind it (student-distrib/filesystem.c). */
module Descriptors {
  import opened Bytes
  import opened FileSystem
  import opened Commands

  const FDS := 8
  const FAIL := -1

  /** What an operation-table pointer points to: one of the four tables, nothing, or a stray word. */
  datatype Ops = TermOps | RtcOps | DirOps | FileOps | NullOps | Stray(word: nat)

  predicate IsTable(o: Ops) {
    o.TermOps? || o.RtcOps? || o.DirOps? || o.FileOps?
  }

  datatype Fd = Fd(ops: Ops, inode: nat, pos: nat, flags: nat)

  const CLOSED := Fd(NullOps, 0, 0, 0)
  const CONSOLE := Fd(TermOps, 0, 0, 1)

  /** The least free descriptor from `i` on, FAIL when all of them are in use. */
  function LeastFree(fds: seq<Fd>, i: nat): (k: int)
    requires i <= |fds|
    ensures k == FAIL || i <= k < |fds|
    ensures k == FAIL ==> forall j :: i <= j < |fds| ==> fds[j].flags != 0
    ensures k != FAIL ==> fds[k].flags == 0 && forall j :: i <= j < k ==> fds[j].flags != 0
    decreases |fds| - i
  {
    if i == |fds| then FAIL else if fds[i].flags == 0 then i else LeastFree(fds, i + 1)
  }

  /** The descriptor that open fills in for a directory slot, by its type: 0 RTC, 1 directory, 2 file. */
  function Opened(img: seq<byte>, slot: nat): (r: Option<Fd>)
    requires slot < SLOTS && |img| >= 2 * BLOCK
    ensures r.Some? ==> r.value.flags == 1 && IsTable(r.value.ops) && !r.value.ops.TermOps?
    ensures r.Some? && !r.value.ops.RtcOps? ==> r.value.pos == 0
  {
    match SlotType(img, slot)
    case 0 => Some(Fd(RtcOps, 0, 0xFFFF_FFFF, 1))
    case 1 => Some(Fd(DirOps, 0, 0, 1))
    case 2 => Some(Fd(FileOps, SlotInode(img, slot), 0, 1))
    case _ => None
  }

  /** What a process can do to its descriptor table. */
  datatype Call =
    | EnterCall(esp: nat, ebp: nat)
    | OpenCall(filename: seq<byte>)
    | CloseCall(fd: int)
    | ReadCall(fd: int)
    | WriteCall(fd: int)

  /** Descriptors 0 and 1 are in use; every descriptor in use but 0 has a real operation table. */
  ghost predicate TableOk(fds: seq<Fd>) {
    && |fds| == FDS
    && fds[0].flags == 1 && fds[1] == CONSOLE
    && forall i :: 2 <= i < FDS ==> fds[i].flags == 0 || (fds[i].flags == 1 && IsTable(fds[i].ops))
  }

  /** The file that open finds for a name, if it can be opened. */
  function Openable(img: seq<byte>, name: seq<byte>): (r: Option<Fd>)
    requires |img| >= 2 * BLOCK
    ensures r.Some? ==> r.value.flags == 1 && IsTable(r.value.ops) && !r.value.ops.TermOps?
    ensures r.Some? && !r.value.ops.RtcOps? ==> r.value.pos == 0
  {
    if name == [] || Lookup(img, name).None? then None else Opened(img, Lookup(img, name).value)
  }

  /** One call: the new table, and the operation table it is dispatched through, if any. */
  function Served(img: seq<byte>, fds: seq<Fd>, c: Call): (r: (seq<Fd>, Option<Ops>))
    requires |fds| == FDS && |img| >= 2 * BLOCK
    ensures |r.0| == FDS
  {
    match c
    case EnterCall(esp, ebp) => (fds[0 := fds[0].(ops := Stray(esp), inode := ebp)], None)
    case OpenCall(filename) =>
      var o, k := Openable(img, CString(filename)), LeastFree(fds, 0);
      if o.None? || k == FAIL then (fds, None) else (fds[k := o.value], Some(o.value.ops))
    case CloseCall(fd) =>
      if fd == 0 then (fds[0 := fds[0].(ops := TermOps)], None)
      else if 2 <= fd < FDS && fds[fd].flags != 0 then (fds[fd := fds[fd].(flags := 0)], Some(fds[fd].ops))
      else (fds, None)
    case ReadCall(fd) =>
      if fd == 0 && fds[0].flags != 0 then (fds[0 := fds[0].(ops := TermOps)], Some(TermOps))
      else if 2 <= fd < FDS && fds[fd].flags != 0 then (fds, Some(fds[fd].ops))
      else (fds, None)
    case WriteCall(fd) =>
      if 0 < fd < FDS && fds[fd].flags != 0 then (fds, Some(fds[fd].ops)) else (fds, None)
  }

  /** A run of calls: the table at the end, and what each call is dispatched through. */
  function ServedAll(img: seq<byte>, fds: seq<Fd>, calls: seq<Call>): (r: (seq<Fd>, seq<Option<Ops>>))
    requires |fds| == FDS && |img| >= 2 * BLOCK
    ensures |r.0| == FDS && |r.1| == |calls|
  {
    if calls == [] then (fds, []) else
    var before := ServedAll(img, fds, calls[..|calls| - 1]);
    var last := Served(img, before.0, calls[|calls| - 1]);
    (last.0, before.1 + [last.1])
  }

  /** A dispatch goes through a real table; reading descriptor 0 and writing descriptor 1 always reach the terminal,
      and so does no file that was opened. */
  predicate Dispatched(c: Call, used: Option<Ops>) {
    && (used.Some? ==> IsTable(used.value))
    && (c.ReadCall? && c.fd == 0 ==> used == Some(TermOps))
    && (c.WriteCall? && c.fd == 1 ==> used == Some(TermOps))
    && (c.OpenCall? && used.Some? ==> used != Some(TermOps))
  }

  lemma ServedOk(img: seq<byte>, fds: seq<Fd>, c: Call)
    requires TableOk(fds) && |img| >= 2 * BLOCK
    ensures TableOk(Served(img, fds, c).0) && Dispatched(c, Served(img, fds, c).1)
  {
  }

  /** In every run of system calls and entries to user mode, descriptors 0 and 1 stay in use and every call that gets
      past its guard is dispatched through one of the four operation tables. */
  lemma {:induction false} RunsAreServed(img: seq<byte>, fds: seq<Fd>, calls: seq<Call>, i: nat)
    requires TableOk(fds) && |img| >= 2 * BLOCK && i <= |calls|
    ensures TableOk(ServedAll(img, fds, calls[..i]).0)
    ensures i < |calls| ==> Dispatched(calls[i], Served(img, ServedAll(img, fds, calls[..i]).0, calls[i]).1)
  {
    if i > 0 {
      RunsAreServed(img, fds, calls, i - 1);
      assert calls[..i][..i - 1] == calls[..i - 1];
      ServedOk(img, ServedAll(img, fds, calls[..i - 1]).0, calls[i - 1]);
    }
    if i < |calls| {
      ServedOk(img, ServedAll(img, fds, calls[..i]).0, calls[i]);
    }
  }

  /** What the call at position `i` of a run is dispatched through depends on the calls before it. */
  lemma {:induction false} UsedAt(img: seq<byte>, fds: seq<Fd>, calls: seq<Call>, i: nat)
    requires |fds| == FDS && |img| >= 2 * BLOCK && i < |calls|
    ensures ServedAll(img, fds, calls).1[i] == Served(img, ServedAll(img, fds, calls[..i]).0, calls[i]).1
  {
    if i < |calls| - 1 {
      var before := calls[..|calls| - 1];
      UsedAt(img, fds, before, i);
      assert before[..i] == calls[..i];
    }
  }

  /** Opening a file and closing the descriptor it got leaves every other descriptor alone, and the same descriptor
      is the one that the next open gets. */
  lemma OpenThenClose(img: seq<byte>, fds: seq<Fd>, filename: seq<byte>)
    requires TableOk(fds) && |img| >= 2 * BLOCK && Served(img, fds, OpenCall(filename)).1.Some?
    ensures var k := LeastFree(fds, 0);
      var r := Served(img, Served(img, fds, OpenCall(filename)).0, CloseCall(k));
      2 <= k < FDS && r.1 == Served(img, fds, OpenCall(filename)).1 && r.0 == fds[k := r.0[k]] && LeastFree(r.0, 0) == k
  {
    var k := LeastFree(fds, 0);
    var r := Served(img, Served(img, fds, OpenCall(filename)).0, CloseCall(k)).0;
    LeastFreeIs(r, k);
  }

  lemma LeastFreeIs(fds: seq<Fd>, k: nat)
    requires k < |fds| && fds[k].flags == 0 && forall j :: 0 <= j < k ==> fds[j].flags != 0
    ensures LeastFree(fds, 0) == k
  {
  }

  class Process {
    const fds: array<Fd>

    ghost predicate Valid()
      reads fds
    {
      TableOk(fds[..])
    }

    /** init_pcb. */
    constructor ()
      ensures Valid() && fresh(fds) && fds.Length == 8
      ensures fds[0] == CONSOLE && forall i :: 2 <= i < FDS ==> fds[i] == CLOSED
    {
      fds := new Fd[FDS](i => CLOSED);
      new;
      fds[0] := CONSOLE;
      fds[1] := CONSOLE;
      for i := 2 to FDS
        invariant fds[0] == fds[1] == CONSOLE && forall j :: 2 <= j < FDS ==> fds[j] == CLOSED
      {
        fds[i] := CLOSED;
      }
    }

    /** go_to_ring_three stores esp and ebp over the first two words of the PCB: the operation
        pointer and the inode number of descriptor 0. */
    method EnterUserMode(esp: nat, ebp: nat)
      requires Valid()
      modifies fds
      ensures Valid() && fds[..] == old(fds[..])[0 := old(fds[0]).(ops := Stray(esp), inode := ebp)]
    {
      fds[0] := fds[0].(ops := Stray(esp), inode := ebp);
    }

    /** open: the least free descriptor gets the file; it fails exactly on an empty or unknown name,
        an unknown file type, or a full table, and then changes nothing. */
    method Open(img: seq<byte>, filename: seq<byte>) returns (r: int)
      requires Valid() && |img| >= 2 * BLOCK && NUL in filename
      modifies fds
      ensures Valid()
      ensures r == FAIL <==>
        Openable(img, CString(filename)).None? || forall i :: 2 <= i < FDS ==> old(fds[i]).flags == 1
      ensures r == FAIL ==> fds[..] == old(fds[..])
      ensures r != FAIL ==> r == LeastFree(old(fds[..]), 0) >= 2
      ensures r != FAIL ==> fds[..] == old(fds[..])[r := Openable(img, CString(filename)).value]
    {
      var found := ReadDentryByName(img, filename);
      LookupIs(img, CString(filename), found);
      if filename[0] == NUL {
        return FAIL;
      }
      if found.None? {
        return FAIL;
      }
      var fd := Opened(img, found.value);
      if fd.None? {
        return FAIL;
      }
      r := FreeSlot();
      if r == FAIL {
        return;
      }
      fds[r] := fd.value;
    }

    /** The search of open. */
    method FreeSlot() returns (loc: int)
      requires Valid()
      ensures loc == LeastFree(fds[..], 0)
    {
      for i := 0 to FDS
        invariant forall j :: 0 <= j < i ==> fds[..][j].flags != 0
      {
        if fds[i].flags == 0 {
          LeastFreeIs(fds[..], i);
          return i;
        }
      }
      return FAIL;
    }

    /** The guard of close; on success the close operation of `ops` is called. */
    method Close(fd: int) returns (r: int, ops: Ops)
      requires Valid()
      modifies fds
      ensures Valid()
      ensures r == FAIL <==> !(2 <= fd < FDS && old(fds[fd]).flags == 1)
      ensures r != FAIL ==> r == 0 && IsTable(ops) && ops == old(fds[fd]).ops
      ensures fds[..] == if fd == 0 then old(fds[..])[0 := old(fds[0]).(ops := TermOps)]
                         else if r == FAIL then old(fds[..]) else old(fds[..])[fd := old(fds[fd]).(flags := 0)]
    {
      ops := NullOps;
      if fd == 0 {
        fds[fd] := fds[fd].(ops := TermOps);
      }
      if fd < 0 || fd > 7 || fds[fd].flags == 0 || fd == 1 || fd == 0 {
        return FAIL, ops;
      }
      fds[fd] := fds[fd].(flags := 0);
      return 0, fds[fd].ops;
    }

    /** The loop of halt over descriptors 2..7: all of them end up closed. */
    method CloseAll()
      requires Valid()
      modifies fds
      ensures Valid() && fds[0] == old(fds[0]) && forall i :: 2 <= i < FDS ==> fds[i].flags == 0 && fds[i].ops.NullOps?
    {
      for i := 2 to FDS
        invariant Valid() && fds[0] == old(fds[0])
        invariant forall j :: 2 <= j < i ==> fds[j].flags == 0 && fds[j].ops.NullOps?
      {
        if fds[i].flags == 1 {
          var _, _ := Close(i);
        }
        fds[i] := fds[i].(flags := 0);
        fds[i] := fds[i].(ops := NullOps);
      }
    }

    /** The guard of read; on success the read operation of `ops` is called. */
    method DispatchRead(fd: int) returns (ok: bool, ops: Ops)
      requires Valid()
      modifies fds
      ensures Valid()
      ensures ok <==> 0 <= fd < FDS && fd != 1 && old(fds[fd]).flags == 1
      ensures ok ==> IsTable(ops) && ops == fds[fd].ops && (fd == 0 ==> ops.TermOps?)
      ensures fds[..] == if fd == 0 then old(fds[..])[0 := old(fds[0]).(ops := TermOps)] else old(fds[..])
    {
      if fd < 0 || fd > 7 || fds[fd].flags == 0 || fd == 1 {
        return false, NullOps;
      }
      if fd == 0 {
        fds[fd] := fds[fd].(ops := TermOps);
      }
      return true, fds[fd].ops;
    }

    /** The guard of write; on success the write operation of `ops` is called. */
    method DispatchWrite(fd: int) returns (ok: bool, ops: Ops)
      requires Valid()
      ensures ok <==> 0 < fd < FDS && fds[fd].flags == 1
      ensures ok ==> IsTable(ops) && ops == fds[fd].ops && (fd == 1 ==> ops.TermOps?)
    {
      if fd < 0 || fd > 7 || fds[fd].flags == 0 || fd == 0 {
        return false, NullOps;
      }
      return true, fds[fd].ops;
    }

    /** One call, as `Served` says. */
    method ServeCall(img: seq<byte>, c: Call) returns (used: Option<Ops>)
      requires Valid() && |img| >= 2 * BLOCK && (c.OpenCall? ==> NUL in c.filename)
      modifies fds
      ensures Valid() && (fds[..], used) == Served(img, old(fds[..]), c)
    {
      used := None;
      match c {
        case EnterCall(esp, ebp) =>
          EnterUserMode(esp, ebp);
        case OpenCall(filename) =>
          used := ServeOpen(img, filename);
        case CloseCall(fd) =>
          var r, o := Close(fd);
          used := if r == FAIL then None else Some(o);
        case ReadCall(fd) =>
          var ok, o := DispatchRead(fd);
          used := if ok then Some(o) else None;
        case WriteCall(fd) =>
          var ok, o := DispatchWrite(fd);
          used := if ok then Some(o) else None;
      }
    }

    method ServeOpen(img: seq<byte>, filename: seq<byte>) returns (used: Option<Ops>)
      requires Valid() && |img| >= 2 * BLOCK && NUL in filename
      modifies fds
      ensures Valid() && (fds[..], used) == Served(img, old(fds[..]), OpenCall(filename))
    {
      var r := Open(img, filename);
      used := if r == FAIL then None else Some(fds[r].ops);
    }

    /** Every run of system calls and entries to user mode: the table ends up as `ServedAll` says, and each call is
        dispatched as it says. `used[i]` is the table that call `i` went through, if any. */
    method Serve(img: seq<byte>, calls: seq<Call>) returns (used: seq<Option<Ops>>)
      requires Valid() && |img| >= 2 * BLOCK
      requires forall c :: c in calls && c.OpenCall? ==> NUL in c.filename
      modifies fds
      ensures Valid() && (fds[..], used) == ServedAll(img, old(fds[..]), calls)
      ensures forall i :: 0 <= i < |calls| ==> Dispatched(calls[i], used[i])
    {
      ghost var before := fds[..];
      used := [];
      for i := 0 to |calls|
        invariant Valid() && (fds[..], used) == ServedAll(img, before, calls[..i])
        invariant forall j :: 0 <= j < i ==> Dispatched(calls[j], used[j])
      {
        assert calls[..i + 1][..i] == calls[..i];
        RunsAreServed(img, before, calls, i);
        var ops := ServeCall(img, calls[i]);
        used := used + [ops];
      }
      assert calls[..|calls|] == calls;
    }

    /** An open regular file: a descriptor whose position lies inside a sound file. */
    ghost predicate IsFile(img: seq<byte>, fd: int)
      reads fds
    {
      && Valid() && 2 <= fd < FDS && fds[fd].flags == 1 && fds[fd].ops.FileOps?
      && Sound(img, fds[fd].inode) && fds[fd].pos <= Size(img, fds[fd].inode)
    }

    /** The contents of an open file. */
    ghost function Contents(img: seq<byte>, fd: int): seq<byte>
      requires IsFile(img, fd)
      reads fds
    {
      File(img, fds[fd].inode)
    }

    /** file_read: the next min(nbytes, size - pos) bytes of the file, and the position moves past them. */
    method FileRead(img: seq<byte>, fd: int, buf: array<byte>, at: nat, nbytes: int) returns (r: nat)
      requires IsFile(img, fd) && 0 <= nbytes && at + nbytes <= buf.Length
      modifies fds, buf
      ensures r == Min(nbytes, |old(Contents(img, fd))| - old(fds[fd]).pos)
      ensures fds[..] == old(fds[..])[fd := old(fds[fd]).(pos := old(fds[fd]).pos + r)]
      ensures IsFile(img, fd) && Contents(img, fd) == old(Contents(img, fd))
      ensures forall i :: 0 <= i < buf.Length ==>
        buf[i] == if at <= i < at + r then Contents(img, fd)[old(fds[fd]).pos + i - at] else old(buf[i])
    {
      var inode, fileOffset := fds[fd].inode, fds[fd].pos;
      var length := Size(img, inode);
      var n: nat;
      if nbytes > length {
        n := ReadData(img, inode, fileOffset, buf, at, length);
      } else {
        n := ReadData(img, inode, fileOffset, buf, at, nbytes);
      }
      if length > fileOffset && n == 0 {
        assert nbytes == n;  // the repair changes nothing
        n := nbytes;
      }
      fds[fd] := fds[fd].(pos := fds[fd].pos + n);
      return n;
    }

    /** An open directory. */
    ghost predicate IsDirectory(fd: int)
      reads fds
    {
      Valid() && 2 <= fd < FDS && fds[fd].flags == 1 && fds[fd].ops.DirOps?
    }

    /** directory_read: the name of the slot at the position, padded with NULs to 32 bytes, as long as the position is
        at most 16; the requested length plays no part. */
    method DirectoryRead(img: seq<byte>, fd: int, buf: array<byte>) returns (r: nat)
      requires IsDirectory(fd) && |img| >= 2 * BLOCK && buf.Length >= NAME_SIZE
      modifies fds, buf
      ensures IsDirectory(fd)
      ensures var p := old(fds[fd]).pos;
        if p > 16 then r == 0 && fds[..] == old(fds[..]) && buf[..] == old(buf[..])
        else r == NAME_SIZE && fds[..] == old(fds[..])[fd := old(fds[fd]).(pos := p + 1)] &&
             forall i :: 0 <= i < buf.Length ==>
               buf[i] == if i < NAME_SIZE then Padded(Cut(NameField(img, p), NAME_SIZE), i) else old(buf[i])
    {
      var index := fds[fd].pos;
      if index > 16 {
        return 0;
      }
      Strncpy(buf, NameField(img, index), NAME_SIZE);
      fds[fd] := fds[fd].(pos := fds[fd].pos + 1);
      return NAME_SIZE;
    }

    /** The loop of syscalls/ece391ls.c: the padded names of slots 0 to 16 in order, each with a newline. */
    method List(img: seq<byte>, fd: int) returns (out: seq<byte>)
      requires IsDirectory(fd) && fds[fd].pos == 0 && |img| >= 2 * BLOCK
      modifies fds
      ensures out == Listing(img, 17, [NEWLINE])
    {
      var buf := new byte[33];
      out := [];
      ghost var n := 0;
      while true
        modifies fds, buf
        invariant IsDirectory(fd) && fds[fd].pos == n <= 17 && out == Listing(img, n, [NEWLINE])
        decreases 17 - n
      {
        var cnt := DirectoryRead(img, fd, buf);
        if cnt == 0 {
          break;
        }
        buf[cnt] := NEWLINE;
        assert buf[..cnt + 1] == NameBytes(img, n) + [NEWLINE];
        out := out + buf[..cnt + 1];
        n := n + 1;
      }
    }

    /** The read system call on an open file. */
    method Read(img: seq<byte>, fd: int, buf: array<byte>, at: nat, nbytes: int) returns (r: nat)
      requires IsFile(img, fd) && 0 <= nbytes && at + nbytes <= buf.Length
      modifies fds, buf
      ensures r == Min(nbytes, |old(Contents(img, fd))| - old(fds[fd]).pos)
      ensures fds[..] == old(fds[..])[fd := old(fds[fd]).(pos := old(fds[fd]).pos + r)]
      ensures IsFile(img, fd) && Contents(img, fd) == old(Contents(img, fd))
      ensures forall i :: 0 <= i < buf.Length ==>
        buf[i] == if at <= i < at + r then Contents(img, fd)[old(fds[fd]).pos + i - at] else old(buf[i])
    {
      var ok, ops := DispatchRead(fd);
      r := FileRead(img, fd, buf, at, nbytes);
    }

    /** Any sequence of reads: the chunks are consecutive, they are what lies between the first and the last
        position, and a chunk of a positive request is empty only at the end of the file. */
    method ReadChunks(img: seq<byte>, fd: int, sizes: seq<nat>) returns (chunks: seq<seq<byte>>)
      requires IsFile(img, fd)
      modifies fds
      ensures IsFile(img, fd) && Contents(img, fd) == old(Contents(img, fd))
      ensures old(fds[fd]).pos <= fds[fd].pos && fds[fd].pos - old(fds[fd]).pos == |Join(chunks)|
      ensures Join(chunks) == Contents(img, fd)[old(fds[fd]).pos..fds[fd].pos]
      ensures |chunks| == |sizes|
      ensures forall i :: 0 <= i < |sizes| && sizes[i] > 0 && chunks[i] == [] ==> fds[fd].pos == |Contents(img, fd)|
    {
      chunks := [];
      ghost var f, p0 := Contents(img, fd), fds[fd].pos;
      for k := 0 to |sizes|
        invariant IsFile(img, fd) && Contents(img, fd) == f && p0 <= fds[fd].pos
        invariant |chunks| == k && Join(chunks) == f[p0..fds[fd].pos]
        invariant forall i :: 0 <= i < k && sizes[i] > 0 && chunks[i] == [] ==> fds[fd].pos == |f|
      {
        ghost var p := fds[fd].pos;
        var chunk := NextChunk(img, fd, sizes[k]);
        JoinSnoc(chunks, chunk);
        ExtendRead(f, Join(chunks), chunk, p0, p, fds[fd].pos);
        chunks := chunks + [chunk];
      }
    }

    /** One read into a fresh buffer. */
    method NextChunk(img: seq<byte>, fd: int, size: nat) returns (chunk: seq<byte>)
      requires IsFile(img, fd)
      modifies fds
      ensures IsFile(img, fd) && Contents(img, fd) == old(Contents(img, fd))
      ensures |chunk| == Min(size, |Contents(img, fd)| - old(fds[fd]).pos)
      ensures fds[fd].pos == old(fds[fd]).pos + |chunk|
      ensures chunk == Contents(img, fd)[old(fds[fd]).pos..fds[fd].pos]
    {
      var buf := new byte[size];
      chunk := ReadFront(img, fd, buf);
    }

    /** One read that fills a buffer from its start; `chunk` is what it holds then. */
    method ReadFront(img: seq<byte>, fd: int, buf: array<byte>) returns (chunk: seq<byte>)
      requires IsFile(img, fd)
      modifies fds, buf
      ensures IsFile(img, fd) && Contents(img, fd) == old(Contents(img, fd))
      ensures |chunk| == Min(buf.Length, |Contents(img, fd)| - old(fds[fd]).pos)
      ensures fds[fd].pos == old(fds[fd]).pos + |chunk|
      ensures chunk == Contents(img, fd)[old(fds[fd]).pos..fds[fd].pos]
    {
      var cnt := Read(img, fd, buf, 0, buf.Length);
      chunk := buf[..cnt];
    }

    /** The loop of syscalls/ece391cat.c: it ends, having copied the rest of the file. */
    method Cat(img: seq<byte>, fd: int) returns (out: seq<byte>)
      requires IsFile(img, fd)
      modifies fds
      ensures IsFile(img, fd) && out == old(Contents(img, fd)[fds[fd].pos..])
      ensures Contents(img, fd) == old(Contents(img, fd)) && fds[fd].pos == |Contents(img, fd)|
    {
      out := [];
      ghost var f, p0 := Contents(img, fd), fds[fd].pos;
      var buf := new byte[1024];
      while true
        modifies fds, buf
        invariant IsFile(img, fd) && Contents(img, fd) == f && p0 <= fds[fd].pos
        invariant out == f[p0..fds[fd].pos]
        decreases |f| - fds[fd].pos
      {
        ghost var p := fds[fd].pos;
        var chunk := ReadFront(img, fd, buf);
        if |chunk| == 0 {
          assert f[p0..|f|] == f[p0..];
          break;
        }
        ExtendRead(f, out, chunk, p0, p, fds[fd].pos);
        out := out + chunk;
      }
    }

    /** The same loop on a directory. */
    method CatDirectory(img: seq<byte>, fd: int) returns (out: seq<byte>)
      requires IsDirectory(fd) && fds[fd].pos == 0 && |img| >= 2 * BLOCK
      modifies fds
      ensures out == Listing(img, 17, [])
    {
      var buf := new byte[1024];
      out := [];
      ghost var n := 0;
      while true
        modifies fds, buf
        invariant IsDirectory(fd) && fds[fd].pos == n <= 17 && out == Listing(img, n, [])
        decreases 17 - n
      {
        var cnt := DirectoryRead(img, fd, buf);
        if cnt == 0 {
          break;
        }
        assert buf[..cnt] == NameBytes(img, n) + [];
        out := out + buf[..cnt];
        n := n + 1;
      }
    }

    /** The loop on a descriptor that open has just filled in. */
    method CatOpened(img: seq<byte>, fd: int) returns (r: Option<seq<byte>>)
      requires Valid() && |img| >= 2 * BLOCK && 2 <= fd < FDS && fds[fd].flags == 1
      requires fds[fd].ops.FileOps? ==> fds[fd].pos == 0 && Sound(img, fds[fd].inode)
      requires fds[fd].ops.DirOps? ==> fds[fd].pos == 0
      modifies fds
      ensures var f := old(fds[fd]);
        r == Some(if f.ops.FileOps? then File(img, f.inode) else if f.ops.DirOps? then Listing(img, 17, []) else [])
    {
      if fds[fd].ops.FileOps? {
        var out := Cat(img, fd);
        return Some(out);
      } else if fds[fd].ops.DirOps? {
        var out := CatDirectory(img, fd);
        return Some(out);
      }
      return Some([]);
    }
  }

  function Join(chunks: seq<seq<byte>>): seq<byte> {
    if chunks == [] then [] else Join(chunks[..|chunks| - 1]) + chunks[|chunks| - 1]
  }

  /** What has been read so far and the next chunk. */
  lemma ExtendRead(f: seq<byte>, out: seq<byte>, chunk: seq<byte>, a: nat, b: nat, c: nat)
    requires a <= b <= c <= |f| && out == f[a..b] && chunk == f[b..c]
    ensures out + chunk == f[a..c]
  {
  }

  lemma JoinSnoc(chunks: seq<seq<byte>>, c: seq<byte>)
    ensures Join(chunks + [c]) == Join(chunks) + c
  {
    assert (chunks + [c])[..|chunks|] == chunks;
  }

  /** A directory name, padded to 32 bytes. */
  function NameBytes(img: seq<byte>, i: nat): (r: seq<byte>)
    requires i < SLOTS && |img| >= 2 * BLOCK
    ensures |r| == NAME_SIZE
  {
    seq(NAME_SIZE, j requires 0 <= j => Padded(Cut(NameField(img, i), NAME_SIZE), j))
  }

  /** The padded names of the first `n` slots, each followed by `end`. */
  function Listing(img: seq<byte>, n: nat, end: seq<byte>): seq<byte>
    requires n <= 17 && |img| >= 2 * BLOCK
  {
    if n == 0 then [] else Listing(img, n - 1, end) + (NameBytes(img, n - 1) + end)
  }

  /** What cat writes for a name: the contents of a file, the padded names of slots 0 to 16 for a directory, nothing
      for the RTC, whose reads return 0. */
  ghost function CatOutput(img: seq<byte>, name: seq<byte>): (r: Option<seq<byte>>)
    requires |img| >= 2 * BLOCK && Readable(img, name)
  {
    match Openable(img, name)
    case None => None
    case Some(f) => Some(if f.ops.FileOps? then File(img, f.inode) else if f.ops.DirOps? then Listing(img, 17, []) else [])
  }

  /** A name that stands for a regular file stands for a sound one. */
  ghost predicate Readable(img: seq<byte>, name: seq<byte>)
    requires |img| >= 2 * BLOCK
  {
    var f := Openable(img, name);
    f.Some? && f.value.ops.FileOps? ==> Sound(img, f.value.inode)
  }

  /** cat from the command line, for every name. It fails exactly when the name cannot be opened. */
  method CatByName(img: seq<byte>, filename: seq<byte>) returns (r: Option<seq<byte>>)
    requires |img| >= 2 * BLOCK && NUL in filename && Readable(img, CString(filename))
    ensures r == CatOutput(img, CString(filename))
  {
    var p := new Process();
    assert p.fds[..][2].flags == 0;
    var fd := p.Open(img, filename);
    if fd == FAIL {
      return None;
    }
    r := p.CatOpened(img, fd);
  }
}
