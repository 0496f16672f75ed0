/** Command parsing (student-distrib/systemcalls.c) and name lookup
    (student-distrib/filesystem.c, lib.c). */
module Commands {
  import opened Bytes
  import opened FileSystem

  const NAME_SIZE := 32
  const SLOTS := 64

  datatype Option<T> = None | Some(value: T)

  /** A string buffer cut at its first NUL or after `n` bytes. */
  function Cut(s: seq<byte>, n: nat): (r: seq<byte>)
    ensures |r| <= n && NUL !in r
  {
    CString(s[..Min(n, |s|)])
  }

  /** A C `char` is signed. */
  function Signed(b: byte): int {
    if b < 128 then b else b - 256
  }

  /** The strings agree before position `i` and differ there; both go on at least that far. */
  predicate DifferAt(s1: seq<byte>, s2: seq<byte>, i: int) {
    0 <= i < |s1| && i < |s2| && s1[i] != s2[i] && forall j :: 0 <= j < i ==> s1[j] == s2[j] && s1[j] != NUL
  }

  /** strncmp: zero exactly when the two strings agree once cut at NUL or at n bytes; otherwise the difference of the
      first two bytes that differ, as signed chars. */
  method Strncmp(s1: seq<byte>, s2: seq<byte>, n: nat) returns (r: int)
    requires (n <= |s1| || NUL in s1) && (n <= |s2| || NUL in s2)
    ensures r == 0 <==> Cut(s1, n) == Cut(s2, n)
    ensures r != 0 ==> exists i :: i < n && DifferAt(s1, s2, i) && r == Signed(s1[i]) - Signed(s2[i])
  {
    for i := 0 to n
      invariant i <= |s1| && i <= |s2|
      invariant forall j :: 0 <= j < i ==> s1[j] == s2[j] && s1[j] != NUL
    {
      StillInside(s1, i, n);
      StillInside(s2, i, n);
      if s1[i] != s2[i] || s1[i] == NUL {
        CutDiffers(s1, s2, i, n);
        assert s1[i] != s2[i] ==> DifferAt(s1, s2, i);
        return Signed(s1[i]) - Signed(s2[i]);
      }
    }
    CutWhole(s1, n);
    CutWhole(s2, n);
    assert s1[..n] == s2[..n];
    return 0;
  }

  /** A terminated string has not ended before its NUL was seen. */
  lemma StillInside(s: seq<byte>, i: nat, n: nat)
    requires i < n && (n <= |s| || NUL in s) && i <= |s| && forall j :: 0 <= j < i ==> s[j] != NUL
    ensures i < |s|
  {
  }

  lemma CutWhole(s: seq<byte>, n: nat)
    requires n <= |s| && forall j :: 0 <= j < n ==> s[j] != NUL
    ensures Cut(s, n) == s[..n]
  {
    FindIs(s[..n], NUL, n);
  }

  lemma CutAtNul(s: seq<byte>, i: nat, n: nat)
    requires i < n && i < |s| && s[i] == NUL && forall j :: 0 <= j < i ==> s[j] != NUL
    ensures Cut(s, n) == s[..i]
  {
    FindIs(s[..Min(n, |s|)], NUL, i);
  }

  lemma CutDiffers(s1: seq<byte>, s2: seq<byte>, i: nat, n: nat)
    requires i < n && i < |s1| && i < |s2| && (s1[i] != s2[i] || s1[i] == NUL)
    requires forall j :: 0 <= j < i ==> s1[j] == s2[j] && s1[j] != NUL
    ensures s1[i] == s2[i] <==> Cut(s1, n) == Cut(s2, n)
  {
    if s1[i] == s2[i] {
      CutAtNul(s1, i, n);
      CutAtNul(s2, i, n);
      assert s1[..i] == s2[..i];
    } else if s1[i] == NUL {
      CutAtNul(s1, i, n);
      CutIsLonger(s2, i, n);
    } else {
      CutIsLonger(s1, i, n);
      assert Cut(s1, n)[i] == s1[i];
      if s2[i] == NUL {
        CutAtNul(s2, i, n);
      } else {
        CutIsLonger(s2, i, n);
      }
    }
  }

  lemma CutIsLonger(s: seq<byte>, i: nat, n: nat)
    requires i < n && i < |s| && forall j :: 0 <= j <= i ==> s[j] != NUL
    ensures |Cut(s, n)| > i && Cut(s, n)[i] == s[i]
  {
  }

  /** The 32 name bytes of directory slot `i`. The 64th slot lies in the block after the boot block. */
  function NameField(img: seq<byte>, i: nat): seq<byte>
    requires i < SLOTS && |img| >= 2 * BLOCK
  {
    img[64 + 64 * i..64 + 64 * i + NAME_SIZE]
  }

  function SlotType(img: seq<byte>, i: nat): nat
    requires i < SLOTS && |img| >= 2 * BLOCK
  {
    Word(img, 64 + 64 * i + 32)
  }

  function SlotInode(img: seq<byte>, i: nat): nat
    requires i < SLOTS && |img| >= 2 * BLOCK
  {
    Word(img, 64 + 64 * i + 36)
  }

  /** Slot `i` carries the name `name`. */
  predicate Named(img: seq<byte>, i: nat, name: seq<byte>)
    requires i < SLOTS && |img| >= 2 * BLOCK
  {
    Cut(NameField(img, i), NAME_SIZE) == name
  }

  /** The lowest slot with a given name. */
  ghost predicate IsLookup(img: seq<byte>, name: seq<byte>, r: Option<nat>)
    requires |img| >= 2 * BLOCK
  {
    match r
    case None => forall i :: 0 <= i < SLOTS ==> !Named(img, i, name)
    case Some(k) => k < SLOTS && Named(img, k, name) && forall i :: 0 <= i < k ==> !Named(img, i, name)
  }

  function Lookup(img: seq<byte>, name: seq<byte>): (r: Option<nat>)
    requires |img| >= 2 * BLOCK
    ensures IsLookup(img, name, r)
  {
    LookupFrom(img, name, 0)
  }

  function LookupFrom(img: seq<byte>, name: seq<byte>, i: nat): (r: Option<nat>)
    requires |img| >= 2 * BLOCK && i <= SLOTS && forall j :: 0 <= j < i ==> !Named(img, j, name)
    ensures IsLookup(img, name, r)
    decreases SLOTS - i
  {
    if i == SLOTS then None else if Named(img, i, name) then Some(i) else LookupFrom(img, name, i + 1)
  }

  lemma LookupIs(img: seq<byte>, name: seq<byte>, r: Option<nat>)
    requires |img| >= 2 * BLOCK && IsLookup(img, name, r)
    ensures r == Lookup(img, name)
  {
  }

  /** read_dentry_by_name. */
  method ReadDentryByName(img: seq<byte>, fname: seq<byte>) returns (r: Option<nat>)
    requires |img| >= 2 * BLOCK && NUL in fname
    ensures IsLookup(img, CString(fname), r)
  {
    if Find(fname, NUL) > NAME_SIZE {
      return None;
    }
    CutShort(fname);
    for i := 0 to SLOTS
      invariant forall j :: 0 <= j < i ==> !Named(img, j, CString(fname))
    {
      var d := Strncmp(fname, NameField(img, i), NAME_SIZE);
      if d == 0 {
        return Some(i);
      }
    }
    return None;
  }

  /** A string of at most 32 bytes is not changed by cutting it there. */
  lemma CutShort(s: seq<byte>)
    requires NUL in s && Find(s, NUL) <= NAME_SIZE
    ensures Cut(s, NAME_SIZE) == CString(s)
  {
    var k := Find(s, NUL);
    FindIs(s[..Min(NAME_SIZE, |s|)], NUL, k);
  }

  /** The first word of a command: everything before its first space. */
  function FirstWord(c: seq<byte>): seq<byte> {
    c[..Find(c, SPACE)]
  }

  /** What follows that space. */
  function Rest(c: seq<byte>): seq<byte> {
    if Find(c, SPACE) < |c| then c[Find(c, SPACE) + 1..] else []
  }

  /** Rejoining the two parts gives the command back. */
  lemma Rejoin(c: seq<byte>)
    ensures SPACE !in FirstWord(c)
    ensures c == FirstWord(c) + (if SPACE in c then [SPACE] + Rest(c) else [])
    ensures SPACE !in c ==> Rest(c) == []
  {
    var k := Find(c, SPACE);
    if k < |c| {
      assert c == c[..k] + ([c[k]] + c[k + 1..]);
    } else {
      assert c == c[..k];
    }
  }

  /** A byte of a string padded with NULs. */
  function Padded(s: seq<byte>, i: nat): byte {
    if i < |s| then s[i] else NUL
  }

  /** strncpy: the string cut at n bytes, padded with NULs to n bytes. */
  method Strncpy(dest: array<byte>, src: seq<byte>, n: nat)
    requires n <= dest.Length && (n <= |src| || NUL in src)
    modifies dest
    ensures forall i :: 0 <= i < dest.Length ==> dest[i] == if i < n then Padded(Cut(src, n), i) else old(dest[i])
  {
    ghost var k := |Cut(src, n)|;
    var i := 0;
    while i < n && src[i] != NUL
      invariant 0 <= i <= k
      invariant forall j :: 0 <= j < dest.Length ==> dest[j] == if j < i then src[j] else old(dest[j])
    {
      dest[i] := src[i];
      i := i + 1;
    }
    while i < n
      invariant k <= i <= n
      invariant forall j :: 0 <= j < dest.Length ==> dest[j] == if j < k then src[j] else if j < i then NUL else old(dest[j])
    {
      dest[i] := NUL;
      i := i + 1;
    }
  }

  /** parse: the first word and the rest, each padded with NULs, in buffers of 34 bytes (the two stores at
      index ARG_SIZE + 1 = 33 need the 34th). */
  method Parse(cmd: seq<byte>, file: array<byte>, arg: array<byte>)
    requires NUL in cmd && file.Length == arg.Length == 34 && file != arg
    requires |FirstWord(CString(cmd))| <= 32 && |Rest(CString(cmd))| <= 32
    modifies file, arg
    ensures forall i :: 0 <= i < 34 ==> file[i] == Padded(FirstWord(CString(cmd)), i)
    ensures forall i :: 0 <= i < 34 ==> arg[i] == Padded(Rest(CString(cmd)), i)
  {
    ZeroBuffer(arg);
    ZeroBuffer(file);
    var cmdLength := WordLength(cmd);
    Split(cmd, cmdLength, file, arg, Find(cmd, NUL));
  }

  /** The second loop of parse, on a command of `len` bytes whose first space (if any) is at `cmdLength`. */
  method Split(cmd: seq<byte>, cmdLength: nat, file: array<byte>, arg: array<byte>, ghost len: nat)
    requires file.Length == arg.Length == 34 && file != arg
    requires len < |cmd| && cmd[len] == NUL && forall j :: 0 <= j < len ==> cmd[j] != NUL
    requires cmdLength <= len && (cmdLength < len ==> cmd[cmdLength] == SPACE)
    requires forall j :: 0 <= j < cmdLength ==> cmd[j] != SPACE
    requires cmdLength <= 32 && len - cmdLength <= 33
    requires forall j :: 0 <= j < 34 ==> file[j] == arg[j] == NUL
    modifies file, arg
    ensures forall j :: 0 <= j < 34 ==> file[j] == if j < cmdLength then cmd[j] else NUL
    ensures forall j :: 0 <= j < 34 ==> arg[j] == if cmdLength + 1 + j < len then cmd[cmdLength + 1 + j] else NUL
  {
    var cmdFirst := false;
    var i := 0;
    while cmd[i] != NUL
      invariant 0 <= i <= len && cmdFirst == (i > cmdLength)
      invariant forall j :: 0 <= j < 34 ==> file[j] == if j < i && j < cmdLength then cmd[j] else NUL
      invariant forall j :: 0 <= j < 34 ==> arg[j] == if cmdLength + 1 + j < i then cmd[cmdLength + 1 + j] else NUL
      decreases len - i
    {
      if cmd[i] == SPACE && !cmdFirst {
        cmdFirst := true;
      } else if cmdFirst {
        arg[i - cmdLength - 1] := cmd[i];
      } else {
        file[i] := cmd[i];
      }
      i := i + 1;
    }
  }

  /** The zeroing stores and loop of parse. */
  method ZeroBuffer(buf: array<byte>)
    requires buf.Length == 34
    modifies buf
    ensures forall j :: 0 <= j < 34 ==> buf[j] == NUL
  {
    buf[33] := NUL;
    for i := 0 to 33
      invariant forall j :: 0 <= j < i || j == 33 ==> buf[j] == NUL
    {
      buf[i] := NUL;
    }
  }

  /** The scan for the first space or NUL. */
  method WordLength(cmd: seq<byte>) returns (n: nat)
    requires NUL in cmd
    ensures n == Find(CString(cmd), SPACE)
  {
    ghost var c := CString(cmd);
    n := 0;
    while cmd[n] != SPACE && cmd[n] != NUL
      invariant n <= Find(c, SPACE)
      decreases |c| - n
    {
      n := n + 1;
    }
  }

  /** The lookup that execute makes: the lowest directory slot named by the command's first word. */
  method FindCommand(img: seq<byte>, cmd: seq<byte>) returns (r: Option<nat>, args: seq<byte>)
    requires |img| >= 2 * BLOCK && NUL in cmd
    requires |FirstWord(CString(cmd))| <= 32 && |Rest(CString(cmd))| <= 32
    ensures IsLookup(img, FirstWord(CString(cmd)), r) && CString(args) == Rest(CString(cmd))
  {
    var file, arg := new byte[34], new byte[34];
    Parse(cmd, file, arg);
    PaddedString(FirstWord(CString(cmd)), file[..]);
    PaddedString(Rest(CString(cmd)), arg[..]);
    r := ReadDentryByName(img, file[..]);
    args := arg[..];
  }

  lemma PaddedString(s: seq<byte>, buffer: seq<byte>)
    requires NUL !in s && |s| < |buffer| && forall i :: 0 <= i < |buffer| ==> buffer[i] == Padded(s, i)
    ensures NUL in buffer && CString(buffer) == s
  {
    assert buffer[|s|] == NUL;
    assert buffer[..|s|] == s;
    FindIs(buffer, NUL, |s|);
  }
}
