/** The streaming scanner of syscalls/ece391grep.c, with the string functions of
    syscalls/ece391support.c that it uses. */
module Grep {
  import opened Bytes
  import opened Lines
  import opened FileSystem
  import opened Descriptors
  import Commands

  const SIZE := BUFSIZE + 1

  /** The buffer from `check` on agrees with the pattern before position `i` and differs from it there. */
  predicate DifferFrom(data: array<byte>, check: nat, s: seq<byte>, i: nat)
    reads data
  {
    i < |s| && check + i < data.Length && data[check + i] != s[i] && forall j :: 0 <= j < i ==> data[check + j] == s[j]
  }

  /** ece391_strncmp(data + check, s, n), on a buffer string that ends at `end` and a pattern without NUL. */
  method Strncmp(data: array<byte>, check: nat, s: seq<byte>, n: nat, ghost end: nat) returns (r: int)
    requires check <= end < data.Length && data[end] == NUL && forall i :: check <= i < end ==> data[i] != NUL
    requires n < |s| && forall i :: 0 <= i < n ==> s[i] != NUL
    ensures r == 0 <==> OccursAt(data[check..end], s[..n], 0)
    ensures r != 0 ==> exists i :: 0 <= i < n && DifferFrom(data, check, s, i) && r == data[check + i] as int - s[i] as int
  {
    if n == 0 {
      return 0;
    }
    var left, i := n, 0;
    while data[check + i] == s[i]
      invariant 0 <= i < n && left == n - i && check + i <= end
      invariant forall j :: 0 <= j < i ==> data[check + j] == s[j]
      decreases n - i
    {
      left := left - 1;
      if data[check + i] == NUL || left == 0 {
        assert left == 0 && check + i < end;
        assert data[check..end][0..n] == s[..n];
        return 0;
      }
      i := i + 1;
    }
    if n <= end - check {
      assert data[check..end][0..n][i] == data[check..end][i] == data[check + i] && s[..n][i] == s[i];
    }
    assert DifferFrom(data, check, s, i);
    var a: int, b: int := data[check + i], s[i];
    return a - b;
  }

  /** The search of one line: does the pattern start at some byte of it? */
  method Search(data: array<byte>, start: nat, end: nat, s: seq<byte>, n: nat) returns (hit: bool)
    requires start <= end < data.Length && data[end] == NUL && forall i :: start <= i < end ==> data[i] != NUL
    requires n < |s| && s[n] == NUL && forall i :: 0 <= i < n ==> s[i] != NUL
    ensures hit <==> s[0] < 128 && Hits(data[start..end], s[..n])
  {
    ghost var line := data[start..end];
    for check := start to end
      invariant s[0] < 128 && n > 0 ==> forall i :: 0 <= i < check - start ==> !OccursAt(line, s[..n], i)
    {
      ShiftOccurs(line, s[..n], check - start);
      assert line[check - start..] == data[check..end];
      if Commands.Signed(s[0]) == data[check] {
        var c := Strncmp(data, check, s, n, end);
        if c == 0 {
          return true;
        }
      }
    }
    return false;
  }

  lemma ShiftOccurs(line: seq<byte>, s: seq<byte>, i: nat)
    requires i < |line|
    ensures OccursAt(line, s, i) <==> OccursAt(line[i..], s, 0)
    ensures OccursAt(line, s, i) && s != [] ==> line[i] == s[0]
  {
    if i + |s| <= |line| {
      assert line[i..][0..|s|] == line[i..i + |s|];
    }
  }

  /** ece391_strcpy(data, data + src), where the string at `src` ends at `end`. */
  method StrcpyDown(data: array<byte>, src: nat, ghost end: nat)
    requires 0 < src <= end < data.Length && data[end] == NUL && forall i :: src <= i < end ==> data[i] != NUL
    modifies data
    ensures forall i :: 0 <= i < data.Length ==> data[i] == if i <= end - src then old(data[src + i]) else old(data[i])
  {
    var i := 0;
    while true
      invariant 0 <= i <= end - src
      invariant forall j :: 0 <= j < data.Length ==> data[j] == if j < i then old(data[src + j]) else old(data[j])
      decreases end - src - i
    {
      data[i] := data[src + i];
      if data[i] == NUL {
        break;
      }
      i := i + 1;
    }
  }

  /** The bytes that ece391_fdputs(1, data + start) writes. */
  method BufferString(data: array<byte>, start: nat, ghost end: nat) returns (t: seq<byte>)
    requires start <= end < data.Length && data[end] == NUL && forall i :: start <= i < end ==> data[i] != NUL
    ensures t == data[start..end]
  {
    var len := 0;
    while data[start + len] != NUL
      invariant 0 <= len && start + len <= end
      decreases end - start - len
    {
      len := len + 1;
    }
    t := data[start..start + len];
  }

  /** What is printed for one line. */
  ghost function Printed(fname: seq<byte>, s: seq<byte>, line: seq<byte>): seq<byte> {
    if s != [] && s[0] < 128 && Hits(line, s) then Entry(fname, line) else []
  }

  /** Where the piece that starts at `at` ends: at a newline, after 1024 bytes, or with the file. */
  ghost predicate PieceEnds(f: seq<byte>, at: nat, e: nat) {
    && at <= e <= |f| && e - at <= BUFSIZE
    && (forall i :: at <= i < e ==> f[i] != NEWLINE)
    && (e == |f| || e - at == BUFSIZE || f[e] == NEWLINE)
  }

  /** Where the next piece starts: a newline inside the 1024 bytes is skipped. */
  function Next(f: seq<byte>, at: nat, e: nat): nat
    requires at <= e <= |f|
  {
    if e < |f| && e - at < BUFSIZE && f[e] == NEWLINE then e + 1 else e
  }

  /** What is printed for the file from offset `at` on: one entry for each piece that contains the pattern. A
      pattern that starts with a non-ASCII byte finds nothing, because `char` is signed and the buffer is not. */
  ghost function Output(fname: seq<byte>, s: seq<byte>, f: seq<byte>, at: nat): seq<byte>
    requires at <= |f|
  {
    if s != [] && s[0] >= 128 then [] else Report(fname, s, Pieces(f[at..]))
  }

  /** The first piece of the rest of the file, and what is left after it. */
  lemma FirstPiece(f: seq<byte>, at: nat, e: nat)
    requires PieceEnds(f, at, e) && at < |f|
    ensures Pieces(f[at..]) == [f[at..e]] + Pieces(f[Next(f, at, e)..])
  {
    var g := f[at..];
    assert g[..e - at] == f[at..e];
    if Next(f, at, e) == e + 1 {
      assert g[e - at + 1..] == f[e + 1..];
      PieceAtNewline(g, e - at);
    } else if e - at == BUFSIZE {
      assert g[BUFSIZE..] == f[e..];
      PieceFullBuffer(g);
    } else {
      assert g == f[at..e] && f[e..] == [];
      PieceLast(g);
    }
  }

  lemma OutputStep(fname: seq<byte>, s: seq<byte>, f: seq<byte>, at: nat, e: nat)
    requires PieceEnds(f, at, e)
    ensures Output(fname, s, f, at) == Printed(fname, s, f[at..e]) + Output(fname, s, f, Next(f, at, e))
  {
    if at == |f| {
      assert f[at..e] == [] && !Hits([], s);
    } else {
      FirstPiece(f, at, e);
      ReportCons(fname, s, f[at..e], Pieces(f[Next(f, at, e)..]));
    }
  }

  /** The end of a line: a NUL over its last position, the search, and the output. */
  method ProcessLine(data: array<byte>, start: nat, end: nat, fname: seq<byte>, s: seq<byte>, n: nat) returns (out: seq<byte>)
    requires start <= end < data.Length && forall i :: start <= i < end ==> data[i] != NUL
    requires n < |s| && s[n] == NUL && forall i :: 0 <= i < n ==> s[i] != NUL
    modifies data
    ensures data[end] == NUL && forall i :: 0 <= i < data.Length && i != end ==> data[i] == old(data[i])
    ensures out == Printed(fname, s[..n], old(data[start..end]))
  {
    data[end] := NUL;
    assert data[start..end] == old(data[start..end]);
    var hit := Search(data, start, end, s, n);
    if hit {
      var line := BufferString(data, start, end);
      out := fname + [58] + line + [NEWLINE];
    } else {
      out := [];
    }
  }

  /** No newline in the buffer outside [from, to). */
  ghost predicate Clean(data: array<byte>, from: int, to: int)
    reads data
  {
    forall i :: 0 <= i < data.Length && !(from <= i < to) ==> data[i] != NEWLINE
  }

  /** `owed(a)` is what is to be printed for the file from offset `a` on, piece by piece. */
  ghost predicate Owes(owed: int -> seq<byte>, fname: seq<byte>, s: seq<byte>, f: seq<byte>) {
    && owed(|f|) == []
    && forall a: nat, e: nat :: PieceEnds(f, a, e) ==> owed(a) == Printed(fname, s, f[a..e]) + owed(Next(f, a, e))
  }

  ghost function OutputOf(fname: seq<byte>, s: seq<byte>, f: seq<byte>): (owed: int -> seq<byte>)
    ensures Owes(owed, fname, s, f) && owed(0) == Output(fname, s, f, 0)
  {
    var owed := (a: int) => if 0 <= a <= |f| then Output(fname, s, f, a) else [];
    assert Owes(owed, fname, s, f) by {
      assert f[|f|..] == [];
      forall a: nat, e: nat | PieceEnds(f, a, e)
        ensures owed(a) == Printed(fname, s, f[a..e]) + owed(Next(f, a, e))
      {
        OutputStep(fname, s, f, a, e);
      }
    }
    owed
  }

  /** The buffer from `start` to `last` holds the file from offset `at` on. */
  ghost predicate Window(data: array<byte>, start: int, last: int, f: seq<byte>, at: int)
    reads data
  {
    && data.Length == SIZE && 0 <= start <= last <= BUFSIZE && 0 <= at && at + last - start <= |f|
    && forall i :: start <= i < last ==> data[i] == f[at + i - start]
  }

  /** The scan for the end of the line. It stops at the end of the piece, unless the buffer ends first. */
  method LineEnd(data: array<byte>, start: nat, last: nat, ghost f: seq<byte>, ghost at: nat) returns (end: nat)
    requires Window(data, start, last, f, at)
    ensures start <= end <= last && (end < last ==> data[end] == NEWLINE)
    ensures forall i :: start <= i < end ==> data[i] != NEWLINE
    ensures end < last || at + last - start == |f| || last - start == BUFSIZE ==> PieceEnds(f, at, at + end - start)
  {
    end := start;
    while end < last && data[end] != NEWLINE
      invariant start <= end <= last && forall i :: start <= i < end ==> data[i] != NEWLINE
    {
      end := end + 1;
    }
    forall i | at <= i < at + end - start
      ensures f[i] != NEWLINE
    {
      assert data[start + i - at] == f[i];
    }
  }

  /** The incomplete last line goes to the front of the buffer. */
  method Compact(data: array<byte>, start: nat, last0: nat, ghost f: seq<byte>, ghost at: nat) returns (last: nat)
    requires Window(data, start, last0, f, at) && 0 < start && NUL !in f && Clean(data, 0, 0)
    modifies data
    ensures last == last0 - start && Clean(data, 0, 0) && Window(data, 0, last, f, at)
  {
    data[last0] := NUL;
    StrcpyDown(data, start, last0);
    last := last0 - start;
  }

  /** One complete line: printed if it contains the pattern, and its newline is gone from the buffer. */
  method TakeLine(data: array<byte>, start: nat, end: nat, last: nat, fname: seq<byte>, s: seq<byte>, n: nat,
                  ghost f: seq<byte>, ghost at: nat, ghost owed: int -> seq<byte>) returns (part: seq<byte>, ghost next: nat)
    requires Window(data, start, last, f, at) && start <= end <= last && NUL !in f
    requires n < |s| && s[n] == NUL && forall i :: 0 <= i < n ==> s[i] != NUL
    requires Clean(data, end, last) && PieceEnds(f, at, at + end - start) && (end < last ==> data[end] == NEWLINE)
    requires end == last ==> at + last - start == |f| || last - start == BUFSIZE
    requires var e := at + end - start; owed(at) == Printed(fname, s[..n], f[at..e]) + owed(Next(f, at, e))
    modifies data
    ensures next <= |f| && owed(at) == part + owed(next)
    ensures if end < last then next == at + end + 1 - start && Window(data, end + 1, last, f, next) && Clean(data, end + 1, last)
            else next == at + last - start && Clean(data, 0, 0)
  {
    var e := at + end - start;
    next := Next(f, at, e);
    assert data[start..end] == f[at..e];
    part := ProcessLine(data, start, end, fname, s, n);
  }

  /** The inner loop over a filled buffer, which holds the file `f` from offset `at0` on. It prints what the
      complete lines deserve and moves an incomplete last line to the front. Before the next read no newline
      is left anywhere in the buffer. */
  method ScanBuffer(data: array<byte>, last0: nat, more: bool, fname: seq<byte>, s: seq<byte>, n: nat, ghost f: seq<byte>,
                    ghost at0: nat, ghost owed: int -> seq<byte>)
    returns (out: seq<byte>, last: nat, ghost at: nat)
    requires Window(data, 0, last0, f, at0) && NUL !in f && Clean(data, 0, last0)
    requires n < |s| && s[n] == NUL && forall i :: 0 <= i < n ==> s[i] != NUL
    requires at0 + last0 == |f| || (last0 == BUFSIZE && more)
    requires !more ==> last0 < BUFSIZE
    requires Owes(owed, fname, s[..n], f)
    modifies data
    ensures last < BUFSIZE && Clean(data, 0, 0) && Window(data, 0, last, f, at) && at + last == at0 + last0
    ensures !more ==> last == 0
    ensures owed(at0) == out + owed(at)
  {
    out, at := [], at0;
    var start := 0;
    while true
      invariant start == 0 || start < last0
      invariant Window(data, start, last0, f, at) && Clean(data, start, last0) && at + last0 - start == at0 + last0
      invariant owed(at0) == out + owed(at)
      decreases last0 - start
    {
      var end := LineEnd(data, start, last0, f, at);
      if data[end] != NEWLINE && more && start != 0 {
        last := Compact(data, start, last0, f, at);
        return;
      }
      var part;
      part, at := TakeLine(data, start, end, last0, fname, s, n, f, at, owed);
      Associate(out, part, owed(at));
      out := out + part;
      start := end + 1;
      if start >= last0 {
        last := 0;
        return;
      }
    }
  }

  lemma Associate(a: seq<byte>, b: seq<byte>, c: seq<byte>)
    ensures a + b + c == a + (b + c)
  {
  }

  /** One read into the free part of the buffer. */
  method Fill(img: seq<byte>, p: Process, fd: int, data: array<byte>, last: nat, ghost f: seq<byte>, ghost at: nat) returns (cnt: nat)
    requires p.IsFile(img, fd) && f == p.Contents(img, fd)
    requires last < BUFSIZE && Clean(data, 0, 0) && Window(data, 0, last, f, at) && at + last == p.fds[fd].pos
    modifies p.fds, data
    ensures p.IsFile(img, fd) && f == p.Contents(img, fd)
    ensures Window(data, 0, last + cnt, f, at) && Clean(data, 0, last + cnt) && at + last + cnt == p.fds[fd].pos
    ensures last + cnt == BUFSIZE || p.fds[fd].pos == |f|
    ensures cnt == 0 ==> p.fds[fd].pos == |f|
    ensures forall j :: 0 <= j < FDS && j != fd ==> p.fds[j] == old(p.fds[j])
  {
    cnt := p.Read(img, fd, data, last, BUFSIZE - last);
  }

  /** The two loops of do_one_file: the scanner ends and prints what it owes for the whole file. */
  method ScanFile(img: seq<byte>, p: Process, fd: int, fname: seq<byte>, s: seq<byte>, n: nat, initial: seq<byte>,
                  ghost owed: int -> seq<byte>) returns (out: seq<byte>)
    requires p.IsFile(img, fd) && p.fds[fd].pos == 0 && NUL !in p.Contents(img, fd)
    requires n < |s| && s[n] == NUL && forall i :: 0 <= i < n ==> s[i] != NUL
    requires |initial| == SIZE && NEWLINE !in initial && Owes(owed, fname, s[..n], p.Contents(img, fd))
    modifies p.fds
    ensures p.IsFile(img, fd) && forall j :: 0 <= j < FDS && j != fd ==> p.fds[j] == old(p.fds[j])
    ensures out == owed(0)
  {
    ghost var f, at := p.Contents(img, fd), 0;
    var data := new byte[SIZE](i requires 0 <= i < |initial| => initial[i]);
    var last := 0;
    out := [];
    while true
      modifies p.fds, data
      invariant p.IsFile(img, fd) && p.Contents(img, fd) == f
      invariant forall j :: 0 <= j < FDS && j != fd ==> p.fds[j] == old(p.fds[j])
      invariant last < BUFSIZE && Clean(data, 0, 0) && Window(data, 0, last, f, at) && at + last == p.fds[fd].pos
      invariant owed(0) == out + owed(at)
      decreases |f| - p.fds[fd].pos
    {
      var cnt := Fill(img, p, fd, data, last, f, at);
      var part;
      part, last, at := ScanBuffer(data, last + cnt, cnt != 0, fname, s, n, f, at, owed);
      Associate(out, part, owed(at));
      out := out + part;
      if cnt == 0 {
        break;
      }
    }
  }

  /** What the scanner reads under a name: the contents of a file, nothing from the RTC, whose reads return 0. */
  ghost function Scanned(img: seq<byte>, name: seq<byte>): seq<byte>
    requires Scannable(img, name) && Openable(img, name).Some?
  {
    var f := Openable(img, name).value;
    if f.ops.FileOps? then File(img, f.inode) else []
  }

  /** A name that can be opened stands for a sound file without NUL bytes, or for the RTC. */
  ghost predicate Scannable(img: seq<byte>, name: seq<byte>) {
    |img| >= 2 * BLOCK &&
    var f := Openable(img, name);
    f.Some? ==> !f.value.ops.DirOps? && (f.value.ops.FileOps? ==> Sound(img, f.value.inode) && NUL !in File(img, f.value.inode))
  }

  /** do_one_file, with no newline in the buffer at the start. It fails exactly when the file cannot be opened. Otherwise
      the scanner ends and prints exactly what `Output` says, which are the lines containing the pattern if and only if
      `Exact` holds. Every descriptor in use stays as it was, and no other one is in use afterwards. */
  method DoOneFile(img: seq<byte>, p: Process, fname: seq<byte>, s: seq<byte>, initial: seq<byte>) returns (ok: bool, out: seq<byte>)
    requires p.Valid() && NUL in fname && Scannable(img, CString(fname))
    requires NUL in s && |initial| == SIZE && NEWLINE !in initial
    modifies p.fds
    ensures p.Valid() && forall j :: 0 <= j < FDS ==>
      p.fds[j].flags == old(p.fds[j]).flags && (p.fds[j].flags != 0 ==> p.fds[j] == old(p.fds[j]))
    ensures ok <==> Openable(img, CString(fname)).Some? && !forall i :: 2 <= i < FDS ==> old(p.fds[i]).flags == 1
    ensures !ok ==> out == []
    ensures ok ==> var f := Scanned(img, CString(fname));
      out == Output(CString(fname), CString(s), f, 0) &&
      (out == Report(CString(fname), CString(s), LinesOf(f)) <==> Exact(f, CString(s)))
    ensures ok && NEWLINE !in CString(fname) && COLON !in CString(fname) ==>
      ReadOutput(out) == Labelled(CString(fname), Found(Scanned(img, CString(fname)), CString(s)))
    ensures ok && out != [] && COLON !in CString(fname) ==> Find(out, 58) == |CString(fname)|
  {
    ghost var name, t := CString(fname), CString(s);
    var fd := p.Open(img, fname);
    if fd == FAIL {
      return false, [];
    }
    ghost var f := Scanned(img, name);
    OutputIsExactIff(name, t, f);
    OutputIsReadable(name, t, f);
    if p.fds[fd].ops.FileOps? {
      ghost var owed := OutputOf(name, t, f);
      out := ScanFile(img, p, fd, CString(fname), s, Find(s, NUL), initial, owed);
    } else {
      out := [];
    }
    var _, _ := p.Close(fd);
    return true, out;
  }

  /** Every line that the pattern hits fits into the buffer, and the pattern starts with an ASCII byte. */
  ghost predicate Exact(f: seq<byte>, s: seq<byte>) {
    forall l :: l in LinesOf(f) && Hits(l, s) ==> |l| <= BUFSIZE && s[0] < 128
  }

  /** For every file and every pattern, exactly the lines containing the pattern are printed, each once and in
      order, if and only if each of them has at most 1024 bytes and the pattern does not start with a non-ASCII byte. */
  lemma OutputIsExactIff(fname: seq<byte>, s: seq<byte>, f: seq<byte>)
    ensures Output(fname, s, f, 0) == Report(fname, s, LinesOf(f)) <==> Exact(f, s)
  {
    assert f[0..] == f;
    if s != [] && s[0] >= 128 {
      EmptyReportIff(fname, s, LinesOf(f));
    } else {
      ReportsAgree(fname, s, f);
      SelectionIsExactIff(f, s);
    }
  }

  /** The byte C3 is not found in a file that consists of it. */
  lemma NonAsciiIsMissed(fname: seq<byte>)
    ensures Output(fname, [0xC3], [0xC3], 0) == [] && Report(fname, [0xC3], LinesOf([0xC3])) == Entry(fname, [0xC3])
  {
    assert OccursAt([0xC3], [0xC3], 0);
    ReportCons(fname, [0xC3], [0xC3], []);
  }

  /** A line of 1025 letters is printed as two. */
  lemma LongLineIsBroken(fname: seq<byte>, line: seq<byte>)
    requires line == seq(1025, i => 97)
    ensures Output(fname, [97], line, 0) == Entry(fname, line[..1024]) + Entry(fname, [97])
    ensures Report(fname, [97], LinesOf(line)) == Entry(fname, line)
  {
    assert line[0..] == line && line[1024..] == [97];
    PieceFullBuffer(line);
    PieceLast([97]);
    FindIs(line, NEWLINE, |line|);
    assert LinesOf(line) == [line] + [];
    assert OccursAt(line, [97], 0) && OccursAt(line[..1024], [97], 0) && OccursAt([97], [97], 0);
    ReportCons(fname, [97], line[..1024], [[97]]);
    ReportCons(fname, [97], [97], []);
    ReportCons(fname, [97], line, []);
  }

  /** The lines that the scanner prints: the pieces that contain the pattern, or none. */
  ghost function Found(f: seq<byte>, s: seq<byte>): seq<seq<byte>> {
    if s != [] && s[0] >= 128 then [] else Selected(Pieces(f), s)
  }

  /** Reading the output back, at its newlines and first colons, gives exactly the lines found. */
  lemma OutputIsReadable(fname: seq<byte>, s: seq<byte>, f: seq<byte>)
    ensures NEWLINE !in fname && COLON !in fname ==> ReadOutput(Output(fname, s, f, 0)) == Labelled(fname, Found(f, s))
    ensures Output(fname, s, f, 0) != [] && COLON !in fname ==> Find(Output(fname, s, f, 0), 58) == |fname|
  {
    assert f[0..] == f && Output(fname, s, f, 0) == Render(fname, Found(f, s));
    SelectedHaveNoNewline(f, s);
    if NEWLINE !in fname && COLON !in fname {
      OutputReadsBack(fname, Found(f, s));
    }
    if COLON !in fname && Found(f, s) != [] {
      FirstColon(fname, Found(f, s));
    }
  }

  /** In the file f, the pattern x selects the line x, and what is printed is f:x and a newline. */
  lemma OneLine()
    ensures Output([102], [120], [120], 0) == [102, 58, 120, 10]
  {
    assert [120][0..] == [120];
    PieceLast([120]);
    assert OccursAt([120], [120], 0);
    ReportCons([102], [120], [120], []);
  }

  /** The name in directory slot `i`. */
  function NameOf(img: seq<byte>, i: nat): seq<byte>
    requires i < 17 && |img| >= 2 * BLOCK
  {
    Commands.Cut(Commands.NameField(img, i), Commands.NAME_SIZE)
  }

  /** Names that start with a dot are skipped. */
  predicate Skipped(name: seq<byte>) {
    name != [] && name[0] == 46
  }

  ghost predicate AllScannable(img: seq<byte>, n: nat)
    requires n <= 17 && |img| >= 2 * BLOCK
  {
    forall i :: 0 <= i < n ==> Skipped(NameOf(img, i)) || Scannable(img, NameOf(img, i))
  }

  /** What grep has printed after `n` directory slots, and whether it is still going: a name that cannot be opened ends it. */
  ghost function GrepSlots(img: seq<byte>, s: seq<byte>, n: nat): (bool, seq<byte>)
    requires n <= 17 && |img| >= 2 * BLOCK && AllScannable(img, n)
  {
    if n == 0 then (true, []) else AfterName(img, s, NameOf(img, n - 1), GrepSlots(img, s, n - 1))
  }

  /** One more name. */
  ghost function AfterName(img: seq<byte>, s: seq<byte>, name: seq<byte>, before: (bool, seq<byte>)): (bool, seq<byte>)
    requires |img| >= 2 * BLOCK && (Skipped(name) || Scannable(img, name))
  {
    if !before.0 || Skipped(name) then before
    else if Openable(img, name).None? then (false, before.1)
    else (true, before.1 + Output(name, s, Scanned(img, name), 0))
  }

  /** Slot by slot: grep skips the names that start with a dot, stops at a name that cannot be opened, and prints the
      lines found in every other file. */
  lemma GrepSlotStep(img: seq<byte>, s: seq<byte>, n: nat)
    requires n < 17 && |img| >= 2 * BLOCK && AllScannable(img, n + 1) && GrepSlots(img, s, n).0
    ensures var (name, before, after) := (NameOf(img, n), GrepSlots(img, s, n), GrepSlots(img, s, n + 1));
      if name != [] && name[0] == 46 then after == before
      else if Openable(img, name).None? then !after.0 && after.1 == before.1
      else after.0 && after.1 == before.1 + Render(name, Found(Scanned(img, name), s))
  {
    assert AllScannable(img, n);
    if !Skipped(NameOf(img, n)) && Openable(img, NameOf(img, n)).Some? {
      var f := Scanned(img, NameOf(img, n));
      assert f[0..] == f;
    }
  }

  /** One name of the directory. */
  method GrepName(img: seq<byte>, p: Process, buf: seq<byte>, s: seq<byte>, initial: seq<byte>, ghost n: nat, ghost k: nat)
    returns (ok: bool, part: seq<byte>)
    requires p.Valid() && 2 <= k < FDS && p.fds[k].flags == 0 && |img| >= 2 * BLOCK && n < 17
    requires NUL in buf && CString(buf) == NameOf(img, n)
    requires AllScannable(img, 17)
    requires NUL in s && |initial| == SIZE && NEWLINE !in initial
    modifies p.fds
    ensures p.Valid() && forall j :: 0 <= j < FDS ==>
      p.fds[j].flags == old(p.fds[j]).flags && (p.fds[j].flags != 0 ==> p.fds[j] == old(p.fds[j]))
    ensures var before := GrepSlots(img, CString(s), n);
      before.0 ==> GrepSlots(img, CString(s), n + 1) == (ok, before.1 + part)
  {
    ghost var name, before := NameOf(img, n), GrepSlots(img, CString(s), n);
    assert before.1 + [] == before.1;
    if buf[0] == 46 {
      return true, [];
    }
    ok, part := DoOneFile(img, p, buf, s, initial);
  }

  /** main of grep, after the pattern has been fetched. The code is 2 when the directory cannot be opened, 3 when one of
      its names cannot, and 0 otherwise. */
  method GrepMain(img: seq<byte>, s: seq<byte>, initial: seq<seq<byte>>) returns (code: int, out: seq<byte>)
    requires |img| >= 2 * BLOCK && (Openable(img, [46]).Some? ==> Openable(img, [46]).value.ops.DirOps?)
    requires AllScannable(img, 17)
    requires NUL in s && |initial| == 17 && forall i :: 0 <= i < 17 ==> |initial[i]| == SIZE && NEWLINE !in initial[i]
    ensures var (complete, text) := GrepSlots(img, CString(s), 17);
      if Openable(img, [46]).None? then code == 2 && out == [] else code == (if complete then 0 else 3) && out == text
  {
    var p := new Process();
    assert [46, NUL][..1] == [46];
    FindIs([46, NUL], NUL, 1);
    assert p.fds[2].flags == 0;
    var fd := p.Open(img, [46, NUL]);
    if fd == FAIL {
      return 2, [];
    }
    var ok;
    ok, out := GrepDirectory(img, p, fd, s, initial, if fd == 2 then 3 else 2);
    return if ok then 0 else 3, out;
  }

  /** The next name of the directory, as a C string. */
  method NextName(img: seq<byte>, p: Process, fd: int, buf: array<byte>, ghost n: nat) returns (more: bool)
    requires p.IsDirectory(fd) && p.fds[fd].pos == n <= 17 && |img| >= 2 * BLOCK && buf.Length == 33
    modifies p.fds, buf
    ensures p.IsDirectory(fd) && forall j :: 0 <= j < FDS && j != fd ==> p.fds[j] == old(p.fds[j])
    ensures more <==> n < 17
    ensures more ==> p.fds[fd].pos == n + 1 && NUL in buf[..] && CString(buf[..]) == NameOf(img, n)
  {
    var cnt := p.DirectoryRead(img, fd, buf);
    if cnt == 0 {
      return false;
    }
    buf[cnt] := NUL;
    Commands.PaddedString(NameOf(img, n), buf[..]);
    return true;
  }

  /** The directory loop scans the names of slots 0 to 16 in order,
      skips those that start with a dot and stops at the first one that cannot be opened. */
  method GrepDirectory(img: seq<byte>, p: Process, fd: int, s: seq<byte>, initial: seq<seq<byte>>, ghost k: nat)
    returns (ok: bool, out: seq<byte>)
    requires p.IsDirectory(fd) && p.fds[fd].pos == 0 && 2 <= k < FDS && p.fds[k].flags == 0 && |img| >= 2 * BLOCK
    requires AllScannable(img, 17)
    requires NUL in s && |initial| == 17 && forall i :: 0 <= i < 17 ==> |initial[i]| == SIZE && NEWLINE !in initial[i]
    modifies p.fds
    ensures (ok, out) == GrepSlots(img, CString(s), 17)
  {
    var buf := new byte[33];
    ok, out := true, [];
    ghost var n := 0;
    while true
      modifies p.fds, buf
      invariant p.IsDirectory(fd) && p.fds[fd].pos == n <= 17 && p.fds[k].flags == 0
      invariant (true, out) == GrepSlots(img, CString(s), n)
      decreases 17 - n
    {
      var more := NextName(img, p, fd, buf, n);
      if !more {
        break;
      }
      var part;
      ok, part := GrepName(img, p, buf[..], s, initial[p.fds[fd].pos - 1], n, k);
      out := out + part;
      n := n + 1;
      if !ok {
        GrepEnds(img, CString(s), n, 17);
        return;
      }
    }
  }

  /** Once grep has ended, later slots do not matter. */
  lemma {:induction false} GrepEnds(img: seq<byte>, s: seq<byte>, n: nat, m: nat)
    requires n <= m <= 17 && |img| >= 2 * BLOCK && AllScannable(img, m)
    requires !GrepSlots(img, s, n).0
    ensures GrepSlots(img, s, m) == GrepSlots(img, s, n)
  {
    if n < m {
      GrepEnds(img, s, n, m - 1);
    }
  }
}
