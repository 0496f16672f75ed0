/** The file system image as a disk writer lays it out, written down from the layout alone: a boot block with the
    directory, a block for every index node, the data blocks. Reading such an image gives back what was put there. */
module DiskImage {
  import opened Bytes
  import opened FileSystem
  import opened Commands
  import opened Descriptors
  import Grep

  /** A directory entry: the kind is 0 for the RTC, 1 for a directory, 2 for a file. */
  datatype Dentry = Dentry(name: seq<byte>, kind: nat, inode: nat)

  /** A file: its length, and the numbers of the data blocks that hold it, in any order on the disk. */
  datatype Inode = Inode(size: nat, blocks: seq<nat>)

  datatype Disk = Disk(dentries: seq<Dentry>, inodes: seq<Inode>, data: seq<seq<byte>>) {
    ghost predicate Valid() {
      && |dentries| <= 63 && |inodes| < 0x1_0000_0000 && 0 < |data| < 0x1_0000_0000
      && (forall j :: 0 <= j < |dentries| ==> ValidDentry(dentries[j]))
      && (forall i :: 0 <= i < |inodes| ==> ValidInode(inodes[i]))
      && (forall b :: 0 <= b < |data| ==> |data[b]| == 4096)
    }

    predicate ValidDentry(e: Dentry) {
      0 < |e.name| <= 32 && NUL !in e.name && e.kind < 0x1_0000_0000 && e.inode < |inodes|
    }

    predicate ValidInode(n: Inode) {
      |n.blocks| <= 1023 && n.size <= 4096 * |n.blocks| && forall k :: 0 <= k < |n.blocks| ==> n.blocks[k] < |data|
    }
  }

  function Zeros(n: nat): (r: seq<byte>)
    ensures |r| == n
  {
    seq(n, i => NUL)
  }

  function PadTo(s: seq<byte>, n: nat): (r: seq<byte>)
    requires |s| <= n
    ensures |r| == n
  {
    s + Zeros(n - |s|)
  }

  /** A 32-bit word, lowest byte first. */
  function WordBytes(v: nat): (r: seq<byte>)
    ensures |r| == 4
  {
    [v % 0x100, v / 0x100 % 0x100, v / 0x1_0000 % 0x100, v / 0x100_0000 % 0x100]
  }

  function DentryBytes(e: Dentry): (r: seq<byte>)
    requires |e.name| <= 32
    ensures |r| == 64
  {
    PadTo(e.name, 32) + WordBytes(e.kind) + WordBytes(e.inode) + Zeros(24)
  }

  predicate ShortNames(dentries: seq<Dentry>) {
    forall j :: 0 <= j < |dentries| ==> |dentries[j].name| <= 32
  }

  function Directory(dentries: seq<Dentry>): (r: seq<byte>)
    requires ShortNames(dentries)
    ensures |r| == 64 * |dentries|
  {
    if dentries == [] then [] else Directory(dentries[..|dentries| - 1]) + DentryBytes(dentries[|dentries| - 1])
  }

  function Words(ws: seq<nat>): (r: seq<byte>)
    ensures |r| == 4 * |ws|
  {
    if ws == [] then [] else Words(ws[..|ws| - 1]) + WordBytes(ws[|ws| - 1])
  }

  function BootBlock(d: Disk): (r: seq<byte>)
    requires |d.dentries| <= 63 && ShortNames(d.dentries)
    ensures |r| == 4096
  {
    PadTo(WordBytes(|d.dentries|) + WordBytes(|d.inodes|) + WordBytes(|d.data|) + Zeros(52) + Directory(d.dentries), 4096)
  }

  function InodeBlock(n: Inode): (r: seq<byte>)
    requires |n.blocks| <= 1023
    ensures |r| == 4096
  {
    PadTo(WordBytes(n.size) + Words(n.blocks), 4096)
  }

  function InodeBlocks(inodes: seq<Inode>): (r: seq<seq<byte>>)
    requires forall i :: 0 <= i < |inodes| ==> |inodes[i].blocks| <= 1023
    ensures |r| == |inodes| && forall i :: 0 <= i < |r| ==> r[i] == InodeBlock(inodes[i])
  {
    seq(|inodes|, i requires 0 <= i < |inodes| => InodeBlock(inodes[i]))
  }

  /** The image is the concatenation of its blocks. */
  ghost function Image(d: Disk): seq<byte>
    requires d.Valid()
  {
    Join(ImageBlocks(d))
  }

  ghost function ImageBlocks(d: Disk): (r: seq<seq<byte>>)
    requires d.Valid()
    ensures |r| == 1 + |d.inodes| + |d.data| && forall i :: 0 <= i < |r| ==> |r[i]| == 4096
  {
    [BootBlock(d)] + InodeBlocks(d.inodes) + d.data
  }

  /** What a file holds: its data blocks one after the other, cut at its length. */
  ghost function FileOn(d: Disk, i: nat): (r: seq<byte>)
    requires d.Valid() && i < |d.inodes|
    ensures |r| == d.inodes[i].size
  {
    var n := d.inodes[i];
    JoinLength(BlocksOf(d, n));
    Join(BlocksOf(d, n))[..n.size]
  }

  ghost function BlocksOf(d: Disk, n: Inode): (r: seq<seq<byte>>)
    requires d.Valid() && d.ValidInode(n)
    ensures |r| == |n.blocks| && forall k :: 0 <= k < |r| ==> n.blocks[k] < |d.data| && r[k] == d.data[n.blocks[k]] && |r[k]| == 4096
  {
    seq(|n.blocks|, k requires 0 <= k < |n.blocks| => d.data[n.blocks[k]])
  }

  // ---- Finding a byte in a concatenation --------------------------------------------

  lemma {:induction false} JoinLength(blocks: seq<seq<byte>>)
    requires forall b :: 0 <= b < |blocks| ==> |blocks[b]| == 4096
    ensures |Join(blocks)| == 4096 * |blocks|
  {
    if blocks != [] {
      JoinLength(blocks[..|blocks| - 1]);
    }
  }

  /** In a concatenation of 4096-byte blocks, block `b` starts at 4096 * b. */
  lemma {:induction false} JoinAt(blocks: seq<seq<byte>>, b: nat)
    requires b < |blocks| && forall i :: 0 <= i < |blocks| ==> |blocks[i]| == 4096
    ensures |Join(blocks)| == 4096 * |blocks|
    ensures Join(blocks)[4096 * b..4096 * b + 4096] == blocks[b]
  {
    JoinLength(blocks);
    var n := |blocks| - 1;
    var t, s := Join(blocks), Join(blocks[..n]);
    JoinLength(blocks[..n]);
    if b < n {
      JoinAt(blocks[..n], b);
      assert t[4096 * b..4096 * b + 4096] == s[4096 * b..4096 * b + 4096];
    } else {
      assert t[4096 * n..4096 * n + 4096] == blocks[n];
    }
  }

  lemma {:induction false} WordsAt(ws: seq<nat>, k: nat)
    requires k < |ws|
    ensures Words(ws)[4 * k..4 * k + 4] == WordBytes(ws[k])
  {
    var n := |ws| - 1;
    var t := Words(ws);
    if k < n {
      WordsAt(ws[..n], k);
      assert t[4 * k..4 * k + 4] == Words(ws[..n])[4 * k..4 * k + 4];
    } else {
      assert t[4 * k..4 * k + 4] == WordBytes(ws[n]);
    }
  }

  lemma {:induction false} DirectoryAt(dentries: seq<Dentry>, j: nat)
    requires j < |dentries| && ShortNames(dentries)
    ensures Directory(dentries)[64 * j..64 * j + 64] == DentryBytes(dentries[j])
  {
    var n := |dentries| - 1;
    var t := Directory(dentries);
    if j < n {
      DirectoryAt(dentries[..n], j);
      assert t[64 * j..64 * j + 64] == Directory(dentries[..n])[64 * j..64 * j + 64];
    } else {
      assert t[64 * j..64 * j + 64] == DentryBytes(dentries[n]);
    }
  }

  lemma DigitsOfWord(v: nat)
    requires v < 0x1_0000_0000
    ensures v == v % 0x100 + 0x100 * (v / 0x100 % 0x100) + 0x1_0000 * (v / 0x1_0000 % 0x100) + 0x100_0000 * (v / 0x100_0000 % 0x100)
  {
    var q := v / 0x100;
    var p := q / 0x100;
    assert v == 0x100 * q + v % 0x100 && q == 0x100 * p + q % 0x100 && p == 0x100 * (p / 0x100) + p % 0x100;
    assert p == v / 0x1_0000 && p / 0x100 == v / 0x100_0000 < 0x100;
  }

  lemma WordReadsBack(s: seq<byte>, a: nat, v: nat)
    requires a + 4 <= |s| && s[a..a + 4] == WordBytes(v) && v < 0x1_0000_0000
    ensures Word(s, a) == v
  {
    var w := WordBytes(v);
    assert s[a] == w[0] && s[a + 1] == w[1] && s[a + 2] == w[2] && s[a + 3] == w[3];
    DigitsOfWord(v);
  }

  /** Block `b` of the image is `block`. */
  ghost predicate HasBlock(img: seq<byte>, b: nat, block: seq<byte>) {
    |block| == 4096 && 4096 * b + 4096 <= |img| && img[4096 * b..4096 * b + 4096] == block
  }

  /** The layout: the boot block, the index nodes, the data. */
  ghost predicate Laid(img: seq<byte>, d: Disk) {
    && d.Valid() && |img| == 4096 * (1 + |d.inodes| + |d.data|)
    && HasBlock(img, 0, BootBlock(d))
    && (forall i :: 0 <= i < |d.inodes| ==> HasInode(img, d, i))
    && (forall b :: 0 <= b < |d.data| ==> HasData(img, d, b))
  }

  ghost predicate HasInode(img: seq<byte>, d: Disk, i: int)
    requires 0 <= i < |d.inodes|
  {
    d.ValidInode(d.inodes[i]) && HasBlock(img, 1 + i, InodeBlock(d.inodes[i]))
  }

  ghost predicate HasData(img: seq<byte>, d: Disk, b: int)
    requires 0 <= b < |d.data|
  {
    HasBlock(img, 1 + |d.inodes| + b, d.data[b])
  }

  lemma JoinHasBlock(blocks: seq<seq<byte>>, b: nat)
    requires b < |blocks| && forall i :: 0 <= i < |blocks| ==> |blocks[i]| == 4096
    ensures |Join(blocks)| == 4096 * |blocks| && HasBlock(Join(blocks), b, blocks[b])
  {
    JoinAt(blocks, b);
  }

  lemma NthBlock(boot: seq<byte>, inodes: seq<seq<byte>>, data: seq<seq<byte>>, i: nat)
    requires i < |inodes|
    ensures ([boot] + inodes + data)[1 + i] == inodes[i]
  {
  }

  lemma InodeIsLaid(d: Disk, i: nat)
    requires d.Valid() && i < |d.inodes|
    ensures HasInode(Image(d), d, i)
  {
    assert d.ValidInode(d.inodes[i]);
    NthBlock(BootBlock(d), InodeBlocks(d.inodes), d.data, i);
    JoinHasBlock(ImageBlocks(d), 1 + i);
  }

  lemma DataIsLaid(d: Disk, b: nat)
    requires d.Valid() && b < |d.data|
    ensures HasData(Image(d), d, b)
  {
    assert ImageBlocks(d)[1 + |d.inodes| + b] == d.data[b];
    JoinHasBlock(ImageBlocks(d), 1 + |d.inodes| + b);
  }

  /** The image of a disk has that layout. */
  lemma ImageIsLaid(d: Disk)
    requires d.Valid()
    ensures Laid(Image(d), d)
  {
    JoinHasBlock(ImageBlocks(d), 0);
    forall i | 0 <= i < |d.inodes|
      ensures HasInode(Image(d), d, i)
    {
      InodeIsLaid(d, i);
    }
    forall b | 0 <= b < |d.data|
      ensures HasData(Image(d), d, b)
    {
      DataIsLaid(d, b);
    }
  }

  /** A slice of a block is a slice of the image. */
  lemma SliceOfBlock(img: seq<byte>, b: nat, block: seq<byte>, x: nat, y: nat)
    requires HasBlock(img, b, block) && x <= y <= 4096
    ensures img[4096 * b + x..4096 * b + y] == block[x..y]
  {
    var at := 4096 * b;
    SubSlice(img, at, at + 4096, x, y);
  }

  lemma ByteOfBlock(img: seq<byte>, b: nat, block: seq<byte>, x: nat)
    requires HasBlock(img, b, block) && x < 4096
    ensures img[4096 * b + x] == block[x]
  {
    var at := 4096 * b;
    assert img[at..at + 4096][x] == img[at + x];
  }

  lemma WordOfBlock(img: seq<byte>, b: nat, block: seq<byte>, x: nat, v: nat)
    requires HasBlock(img, b, block) && x + 4 <= 4096 && block[x..x + 4] == WordBytes(v) && v < 0x1_0000_0000
    ensures Word(img, 4096 * b + x) == v
  {
    SliceOfBlock(img, b, block, x, x + 4);
    WordReadsBack(img, 4096 * b + x, v);
  }

  // ---- What the kernel reads from the image ------------------------------------------

  lemma NumInodesOn(img: seq<byte>, d: Disk)
    requires Laid(img, d)
    ensures |img| >= 2 * BLOCK && NumInodes(img) == |d.inodes|
  {
    assert BootBlock(d)[4..8] == WordBytes(|d.inodes|);
    WordOfBlock(img, 0, BootBlock(d), 4, |d.inodes|);
  }

  lemma SizeOn(img: seq<byte>, d: Disk, i: nat)
    requires Laid(img, d) && i < |d.inodes|
    ensures |img| >= BLOCK * (i + 3) && Size(img, i) == d.inodes[i].size <= 4096 * |d.inodes[i].blocks| <= 4096 * 1023
  {
    var n := d.inodes[i];
    assert HasInode(img, d, i);
    InodeSize(n);
    WordOfBlock(img, 1 + i, InodeBlock(n), 0, n.size);
  }

  lemma BlockOn(img: seq<byte>, d: Disk, i: nat, k: nat)
    requires Laid(img, d) && i < |d.inodes| && k < |d.inodes[i].blocks|
    ensures |img| >= BLOCK * (i + 3) && k < 1023 && BlockOf(img, i, k) == d.inodes[i].blocks[k] < |d.data|
  {
    var n := d.inodes[i];
    assert HasInode(img, d, i);
    InodeWord(n, k);
    WordOfBlock(img, 1 + i, InodeBlock(n), 4 + 4 * k, n.blocks[k]);
  }

  lemma InodeSize(n: Inode)
    requires |n.blocks| <= 1023
    ensures InodeBlock(n)[0..4] == WordBytes(n.size)
  {
  }

  lemma InodeWord(n: Inode, k: nat)
    requires k < |n.blocks| <= 1023
    ensures InodeBlock(n)[4 + 4 * k..8 + 4 * k] == WordBytes(n.blocks[k])
  {
    var t, w := InodeBlock(n), Words(n.blocks);
    WordsAt(n.blocks, k);
    assert t[4 + 4 * k..8 + 4 * k] == w[4 * k..4 * k + 4];
  }

  /** Every index node of the disk is sound. */
  lemma SoundOn(img: seq<byte>, d: Disk, i: nat)
    requires Laid(img, d) && i < |d.inodes|
    ensures Sound(img, i)
  {
    NumInodesOn(img, d);
    SizeOn(img, d, i);
    forall k: nat | BLOCK * k < Size(img, i)
      ensures BlockStart(img, BlockOf(img, i, k)) + BLOCK <= |img|
    {
      BlockOn(img, d, i, k);
    }
  }

  lemma ByteOn(img: seq<byte>, d: Disk, i: nat, p: nat)
    requires Laid(img, d) && i < |d.inodes| && p < d.inodes[i].size
    ensures Sound(img, i) && p < Size(img, i) && p / 4096 < |d.inodes[i].blocks|
    ensures var b := d.inodes[i].blocks[p / 4096];
      b < |d.data| && |d.data[b]| == 4096 && FileByte(img, i, p) == d.data[b][p % 4096]
  {
    var n, k := d.inodes[i], p / 4096;
    SoundOn(img, d, i);
    NumInodesOn(img, d);
    SizeOn(img, d, i);
    ChunkInside(p, n.size, |n.blocks|);
    BlockOn(img, d, i, k);
    ByteOfData(img, d, n.blocks[k], p % 4096);
    FileByteAt(img, i, p, 4096 * (|d.inodes| + 1 + n.blocks[k]) + p % 4096);
  }

  lemma FileByteAt(img: seq<byte>, i: nat, p: nat, at: nat)
    requires Sound(img, i) && p < Size(img, i) && at < |img|
    requires at == BlockStart(img, BlockOf(img, i, p / BLOCK)) + p % BLOCK
    ensures FileByte(img, i, p) == img[at]
  {
  }

  lemma ChunkInside(p: nat, size: nat, chunks: nat)
    requires p < size <= 4096 * chunks
    ensures p / 4096 < chunks
  {
  }

  lemma ByteOfData(img: seq<byte>, d: Disk, b: nat, x: nat)
    requires Laid(img, d) && b < |d.data| && x < 4096
    ensures 4096 * (|d.inodes| + 1 + b) + x < |img| && |d.data[b]| == 4096
    ensures img[4096 * (|d.inodes| + 1 + b) + x] == d.data[b][x]
  {
    assert HasData(img, d, b);
    ByteOfBlock(img, |d.inodes| + 1 + b, d.data[b], x);
  }

  lemma ByteOfFile(d: Disk, i: nat, p: nat)
    requires d.Valid() && i < |d.inodes| && p < d.inodes[i].size && p / 4096 < |d.inodes[i].blocks|
    ensures var b := d.inodes[i].blocks[p / 4096];
      b < |d.data| && |d.data[b]| == 4096 && FileOn(d, i)[p] == d.data[b][p % 4096]
  {
    var blocks, k := BlocksOf(d, d.inodes[i]), p / 4096;
    JoinHasBlock(blocks, k);
    ByteOfBlock(Join(blocks), k, blocks[k], p % 4096);
  }

  /** Reading a file from the image gives back what the disk holds, wherever its blocks are scattered. */
  lemma FileReadsBack(img: seq<byte>, d: Disk, i: nat)
    requires Laid(img, d) && i < |d.inodes|
    ensures Sound(img, i) && File(img, i) == FileOn(d, i)
  {
    SoundOn(img, d, i);
    SizeOn(img, d, i);
    forall p | 0 <= p < d.inodes[i].size
      ensures File(img, i)[p] == FileOn(d, i)[p]
    {
      ByteOn(img, d, i, p);
      ByteOfFile(d, i, p);
    }
  }

  // ---- The directory -----------------------------------------------------------------

  /** The name field of slot `j`. */
  ghost function SlotName(d: Disk, j: nat): (r: seq<byte>)
    requires d.Valid()
    ensures |r| == 32
  {
    if j < |d.dentries| then
      assert d.ValidDentry(d.dentries[j]);
      PadTo(d.dentries[j].name, 32)
    else Zeros(32)
  }

  lemma DentryParts(e: Dentry)
    requires |e.name| <= 32
    ensures var b := DentryBytes(e);
      b[0..32] == PadTo(e.name, 32) && b[32..36] == WordBytes(e.kind) && b[36..40] == WordBytes(e.inode)
  {
  }

  lemma DentryInBoot(d: Disk, j: nat, x: nat, y: nat)
    requires j < |d.dentries| <= 63 && ShortNames(d.dentries) && x <= y <= 64
    ensures BootBlock(d)[64 + 64 * j + x..64 + 64 * j + y] == DentryBytes(d.dentries[j])[x..y]
  {
    var block, dir, at := BootBlock(d), Directory(d.dentries), 64 * j;
    assert block[64..64 + |dir|] == dir;
    SubSlice(block, 64, 64 + |dir|, at + x, at + y);
    DirectoryAt(d.dentries, j);
    SubSlice(dir, at, at + 64, x, y);
  }

  /** Names in the boot block; the slots behind the last entry are empty. */
  lemma NameOn(img: seq<byte>, d: Disk, j: nat)
    requires Laid(img, d) && j < 63
    ensures |img| >= 2 * BLOCK && NameField(img, j) == SlotName(d, j)
  {
    var block, at := BootBlock(d), 64 + 64 * j;
    SliceOfBlock(img, 0, block, at, at + 32);
    if j < |d.dentries| {
      assert d.ValidDentry(d.dentries[j]);
      DentryInBoot(d, j, 0, 32);
      DentryParts(d.dentries[j]);
    } else {
      assert block[at..at + 32] == Zeros(32);
    }
  }

  lemma DentryOn(img: seq<byte>, d: Disk, j: nat)
    requires Laid(img, d) && j < |d.dentries|
    ensures |img| >= 2 * BLOCK && d.ValidDentry(d.dentries[j])
    ensures SlotType(img, j) == d.dentries[j].kind && SlotInode(img, j) == d.dentries[j].inode
  {
    KindOn(img, d, j);
    InodeOn(img, d, j);
  }

  lemma KindOn(img: seq<byte>, d: Disk, j: nat)
    requires Laid(img, d) && j < |d.dentries|
    ensures |img| >= 2 * BLOCK && SlotType(img, j) == d.dentries[j].kind
  {
    var e := d.dentries[j];
    assert d.ValidDentry(e);
    DentryParts(e);
    DentryWord(img, d, j, 32, e.kind);
  }

  lemma InodeOn(img: seq<byte>, d: Disk, j: nat)
    requires Laid(img, d) && j < |d.dentries|
    ensures |img| >= 2 * BLOCK && d.ValidDentry(d.dentries[j]) && SlotInode(img, j) == d.dentries[j].inode
  {
    var e := d.dentries[j];
    assert d.ValidDentry(e);
    DentryParts(e);
    DentryWord(img, d, j, 36, e.inode);
  }

  lemma DentryWord(img: seq<byte>, d: Disk, j: nat, x: nat, v: nat)
    requires Laid(img, d) && j < |d.dentries| && x <= 60 && |d.dentries[j].name| <= 32
    requires DentryBytes(d.dentries[j])[x..x + 4] == WordBytes(v) && v < 0x1_0000_0000
    ensures Word(img, 64 + 64 * j + x) == v
  {
    var at, y := 64 + 64 * j + x, x + 4;
    DentryInBoot(d, j, x, y);
    WordOfBlock(img, 0, BootBlock(d), at, v);
  }

  /** The 32 bytes after the boot block, where name lookup goes on reading. */
  ghost function Behind(d: Disk): (r: seq<byte>)
    requires d.Valid()
    ensures |r| == 32
  {
    if d.inodes != [] then InodeBlock(d.inodes[0])[..32] else d.data[0][..32]
  }

  lemma LastSlotOn(img: seq<byte>, d: Disk)
    requires Laid(img, d)
    ensures |img| >= 2 * BLOCK && NameField(img, 63) == Behind(d)
  {
    if d.inodes != [] {
      assert HasInode(img, d, 0);
      SliceOfBlock(img, 1, InodeBlock(d.inodes[0]), 0, 32);
    } else {
      assert HasData(img, d, 0);
      SliceOfBlock(img, 1, d.data[0], 0, 32);
    }
  }

  lemma CutPadded(name: seq<byte>)
    requires |name| <= 32 && NUL !in name
    ensures Cut(PadTo(name, 32), 32) == name
  {
    var p := PadTo(name, 32);
    assert p[..32] == p && p[..|name|] == name;
    FindIs(p, NUL, |name|);
  }

  /** The first entry with a name, |es| when there is none. */
  function FirstNamed(es: seq<Dentry>, name: seq<byte>): (k: nat)
    ensures k <= |es| && (k < |es| ==> es[k].name == name)
    ensures forall i :: 0 <= i < k ==> es[i].name != name
  {
    if es == [] || es[0].name == name then 0 else 1 + FirstNamed(es[1..], name)
  }

  lemma NamedOn(img: seq<byte>, d: Disk, j: nat, name: seq<byte>)
    requires Laid(img, d) && j < 63 && name != []
    ensures |img| >= 2 * BLOCK && (Named(img, j, name) <==> j < |d.dentries| && d.dentries[j].name == name)
  {
    NameOn(img, d, j);
    if j < |d.dentries| {
      assert d.ValidDentry(d.dentries[j]);
      CutPadded(d.dentries[j].name);
    } else {
      CutPadded([]);
      assert PadTo([], 32) == Zeros(32);
    }
  }

  /** Name lookup finds the first entry with the name. A name that no entry has is not found either, if and only if the
      bytes after the boot block do not happen to spell it. */
  lemma LookupOn(img: seq<byte>, d: Disk, name: seq<byte>)
    requires Laid(img, d) && name != []
    ensures |img| >= 2 * BLOCK
    ensures var k := FirstNamed(d.dentries, name);
      Lookup(img, name) == if k < |d.dentries| then Some(k) else if Cut(Behind(d), 32) == name then Some(63) else None
  {
    if FirstNamed(d.dentries, name) < |d.dentries| {
      FoundOn(img, d, name);
    } else {
      NotFoundOn(img, d, name);
    }
  }

  lemma FoundOn(img: seq<byte>, d: Disk, name: seq<byte>)
    requires Laid(img, d) && name != [] && FirstNamed(d.dentries, name) < |d.dentries|
    ensures |img| >= 2 * BLOCK && Lookup(img, name) == Some(FirstNamed(d.dentries, name))
  {
    var k := FirstNamed(d.dentries, name);
    NamedOn(img, d, k, name);
    NotNamedOn(img, d, k, name);
    LookupIs(img, name, Some(k));
  }

  lemma NotFoundOn(img: seq<byte>, d: Disk, name: seq<byte>)
    requires Laid(img, d) && name != [] && FirstNamed(d.dentries, name) == |d.dentries|
    ensures |img| >= 2 * BLOCK && Lookup(img, name) == if Cut(Behind(d), 32) == name then Some(63) else None
  {
    LastSlotOn(img, d);
    NotNamedOn(img, d, 63, name);
    LookupMisses(img, name);
  }

  lemma LookupMisses(img: seq<byte>, name: seq<byte>)
    requires |img| >= 2 * BLOCK && forall i :: 0 <= i < 63 ==> !Named(img, i, name)
    ensures Lookup(img, name) == if Cut(NameField(img, 63), 32) == name then Some(63) else None
  {
    LookupIs(img, name, if Named(img, 63, name) then Some(63) else None);
  }

  lemma NotNamedOn(img: seq<byte>, d: Disk, n: nat, name: seq<byte>)
    requires Laid(img, d) && n <= 63 && name != [] && forall i :: 0 <= i < n && i < |d.dentries| ==> d.dentries[i].name != name
    ensures |img| >= 2 * BLOCK && forall i :: 0 <= i < n ==> !Named(img, i, name)
  {
    LastSlotOn(img, d);
    forall i | 0 <= i < n
      ensures !Named(img, i, name)
    {
      NamedOn(img, d, i, name);
    }
  }

  /** What open gives for a name on the disk. */
  lemma OpenOn(img: seq<byte>, d: Disk, name: seq<byte>)
    requires Laid(img, d) && name != [] && FirstNamed(d.dentries, name) < |d.dentries|
    ensures |img| >= 2 * BLOCK
    ensures var e := d.dentries[FirstNamed(d.dentries, name)];
      Openable(img, name) ==
        if e.kind == 2 then Some(Fd(FileOps, e.inode, 0, 1))
        else if e.kind == 1 then Some(Fd(DirOps, 0, 0, 1))
        else if e.kind == 0 then Some(Fd(RtcOps, 0, 0xFFFF_FFFF, 1)) else None
  {
    LookupOn(img, d, name);
    DentryOn(img, d, FirstNamed(d.dentries, name));
  }

  /** The padded names of the first `n` slots, each followed by `end`. */
  ghost function NamesOn(d: Disk, n: nat, end: seq<byte>): seq<byte>
    requires d.Valid()
  {
    if n == 0 then [] else NamesOn(d, n - 1, end) + (SlotName(d, n - 1) + end)
  }

  lemma {:induction false} ListingOn(img: seq<byte>, d: Disk, n: nat, end: seq<byte>)
    requires Laid(img, d) && n <= 17
    ensures |img| >= 2 * BLOCK && Listing(img, n, end) == NamesOn(d, n, end)
  {
    LastSlotOn(img, d);
    if n > 0 {
      ListingOn(img, d, n - 1, end);
      NameBytesOn(img, d, n - 1);
    }
  }

  lemma NameBytesOn(img: seq<byte>, d: Disk, j: nat)
    requires Laid(img, d) && j < 17
    ensures |img| >= 2 * BLOCK && NameBytes(img, j) == SlotName(d, j)
  {
    NameOn(img, d, j);
    var name := if j < |d.dentries| then d.dentries[j].name else [];
    assert j < |d.dentries| ==> d.ValidDentry(d.dentries[j]);
    CutPadded(name);
    assert SlotName(d, j) == PadTo(name, 32);
    PaddedIs(img, j, name);
  }

  lemma PaddedIs(img: seq<byte>, j: nat, name: seq<byte>)
    requires j < 17 && |img| >= 2 * BLOCK && |name| <= 32 && Cut(NameField(img, j), 32) == name
    ensures NameBytes(img, j) == PadTo(name, 32)
  {
  }

  // ---- The programs, on the image of a disk -------------------------------------------

  /** The file that a name stands for. */
  ghost predicate IsFileOn(d: Disk, name: seq<byte>) {
    d.Valid() && name != [] && var k := FirstNamed(d.dentries, name); k < |d.dentries| && d.dentries[k].kind == 2
  }

  ghost function Contained(d: Disk, name: seq<byte>): seq<byte>
    requires IsFileOn(d, name)
  {
    assert d.ValidDentry(d.dentries[FirstNamed(d.dentries, name)]);
    FileOn(d, d.dentries[FirstNamed(d.dentries, name)].inode)
  }

  lemma OpenFileOn(img: seq<byte>, d: Disk, name: seq<byte>) returns (inode: nat)
    requires Laid(img, d) && IsFileOn(d, name)
    ensures |img| >= 2 * BLOCK && Openable(img, name) == Some(Fd(FileOps, inode, 0, 1))
    ensures Sound(img, inode) && File(img, inode) == Contained(d, name)
  {
    var e := d.dentries[FirstNamed(d.dentries, name)];
    assert d.ValidDentry(e);
    inode := e.inode;
    OpenOn(img, d, name);
    FileReadsBack(img, d, inode);
  }

  /** read_data on a file of the disk: its bytes from `offset` on, at most `length` of them. */
  method ReadOn(img: seq<byte>, ghost d: Disk, i: nat, offset: nat, length: nat) returns (out: seq<byte>)
    requires Laid(img, d) && i < |d.inodes| && offset + length < 0x1_0000_0000
    ensures out == Part(FileOn(d, i), offset, length)
  {
    FileReadsBack(img, d, i);
    out := ReadBytes(img, i, offset, length);
  }

  /** cat on a file of the disk. */
  method CatOn(img: seq<byte>, ghost d: Disk, filename: seq<byte>) returns (r: Option<seq<byte>>)
    requires Laid(img, d) && NUL in filename && IsFileOn(d, CString(filename))
    ensures r == Some(Contained(d, CString(filename)))
  {
    ghost var inode := OpenFileOn(img, d, CString(filename));
    r := CatByName(img, filename);
  }

  /** cat on a directory of the disk. */
  method CatDirectoryOn(img: seq<byte>, ghost d: Disk, filename: seq<byte>) returns (r: Option<seq<byte>>)
    requires Laid(img, d) && NUL in filename && CString(filename) != []
    requires var k := FirstNamed(d.dentries, CString(filename)); k < |d.dentries| && d.dentries[k].kind == 1
    ensures r == Some(NamesOn(d, 17, []))
  {
    OpenOn(img, d, CString(filename));
    ListingOn(img, d, 17, []);
    r := CatByName(img, filename);
  }

  /** grep's scanner on a file of the disk without NUL bytes. */
  method GrepOn(img: seq<byte>, ghost d: Disk, p: Process, fname: seq<byte>, s: seq<byte>, initial: seq<byte>)
    returns (ok: bool, out: seq<byte>)
    requires Laid(img, d) && NUL in fname && IsFileOn(d, CString(fname)) && NUL !in Contained(d, CString(fname))
    requires p.Valid() && p.fds[2].flags == 0 && NUL in s && |initial| == 1025 && NEWLINE !in initial
    modifies p.fds
    ensures ok && out == Grep.Output(CString(fname), CString(s), Contained(d, CString(fname)), 0)
  {
    ghost var inode := OpenFileOn(img, d, CString(fname));
    ok, out := Grep.DoOneFile(img, p, fname, s, initial);
  }

  /** Why the bytes after the boot block matter: when the first file is 97 bytes long and has one block, a file "a" that
      is not on the disk is found, and it is the RTC. */
  lemma PhantomFile(img: seq<byte>, d: Disk)
    requires Laid(img, d) && FirstNamed(d.dentries, [97]) == |d.dentries|
    requires d.inodes != [] && d.inodes[0].size == 97 && |d.inodes[0].blocks| == 1
    ensures |img| >= 2 * BLOCK && Openable(img, [97]) == Some(Fd(RtcOps, 0, 0xFFFF_FFFF, 1))
  {
    PhantomName(d);
    NotFoundOn(img, d, [97]);
    assert HasInode(img, d, 0);
    PhantomType(img, d.inodes[0]);
  }

  lemma PhantomType(img: seq<byte>, n: Inode)
    requires n.size == 97 && |n.blocks| == 1 && HasBlock(img, 1, InodeBlock(n))
    ensures |img| >= 2 * BLOCK && SlotType(img, 63) == 0
  {
    PhantomBytes(n);
    WordOfBlock(img, 1, InodeBlock(n), 32, 0);
  }

  lemma PhantomName(d: Disk)
    requires d.Valid() && d.inodes != [] && d.inodes[0].size == 97 && |d.inodes[0].blocks| == 1
    ensures Cut(Behind(d), 32) == [97]
  {
    PhantomBytes(d.inodes[0]);
    var b := Behind(d);
    assert b[0] == 97 && b[1] == 0;
    CutAtNul(b, 1, 32);
    assert b[..1] == [97];
  }

  lemma PhantomBytes(n: Inode)
    requires n.size == 97 && |n.blocks| == 1
    ensures var block := InodeBlock(n); block[0] == 97 && block[1] == 0 && block[32..36] == WordBytes(0)
  {
    InodeSize(n);
    var block := InodeBlock(n);
    assert block[0] == block[0..4][0] && block[1] == block[0..4][1];
  }

  // ---- A disk written from a list of files ----------------------------------------------

  datatype NamedFile = NamedFile(name: seq<byte>, contents: seq<byte>)

  /** The contents of a file in blocks, the last one padded. */
  function Chunks(c: seq<byte>): (r: seq<seq<byte>>)
    ensures |r| == (|c| + 4095) / 4096 && forall k :: 0 <= k < |r| ==> |r[k]| == 4096
  {
    seq((|c| + 4095) / 4096, k requires 0 <= k < (|c| + 4095) / 4096 => Chunk(c, k))
  }

  function Chunk(c: seq<byte>, k: nat): (r: seq<byte>)
    requires k < (|c| + 4095) / 4096
    ensures |r| == 4096
  {
    if 4096 * k + 4096 <= |c| then c[4096 * k..4096 * k + 4096] else PadTo(c[4096 * k..], 4096)
  }

  /** A spare data block, then the files one after the other. */
  function Pack(files: seq<NamedFile>): Disk {
    if files == [] then Disk([], [], [Zeros(4096)]) else Added(Pack(files[..|files| - 1]), files[|files| - 1])
  }

  /** Names of 1 to 32 bytes, all different, at most 63 of them, and contents that fit. */
  ghost predicate Packable(files: seq<NamedFile>) {
    && |files| <= 63
    && (forall i :: 0 <= i < |files| ==> 0 < |files[i].name| <= 32 && NUL !in files[i].name && |files[i].contents| <= 4096 * 1023)
    && (forall i, j :: 0 <= i < j < |files| ==> files[i].name != files[j].name)
  }

  function Added(d: Disk, f: NamedFile): Disk {
    var chunks := Chunks(f.contents);
    Disk(d.dentries + [Dentry(f.name, 2, |d.inodes|)],
         d.inodes + [Inode(|f.contents|, seq(|chunks|, k requires 0 <= k => |d.data| + k))],
         d.data + chunks)
  }

  lemma AddedIsValid(d: Disk, f: NamedFile)
    requires d.Valid() && |d.dentries| < 63 && |d.inodes| < 63 && |d.data| < 0x1_0000
    requires 0 < |f.name| <= 32 && NUL !in f.name && |f.contents| <= 4096 * 1023
    ensures Added(d, f).Valid()
  {
    var r := Added(d, f);
    forall j | 0 <= j < |r.dentries|
      ensures r.ValidDentry(r.dentries[j])
    {
      assert j < |d.dentries| ==> d.ValidDentry(d.dentries[j]);
    }
    forall i | 0 <= i < |r.inodes|
      ensures r.ValidInode(r.inodes[i])
    {
      assert i < |d.inodes| ==> d.ValidInode(d.inodes[i]);
    }
  }

  /** A new file leaves the others alone. */
  lemma AddedKeeps(d: Disk, f: NamedFile, i: nat)
    requires d.Valid() && Added(d, f).Valid() && i < |d.inodes|
    ensures FileOn(Added(d, f), i) == FileOn(d, i)
  {
    var r, n := Added(d, f), d.inodes[i];
    assert r.inodes[i] == n && d.ValidInode(n);
    assert BlocksOf(r, n) == BlocksOf(d, n);
  }

  /** The new file holds its contents. */
  lemma AddedHolds(d: Disk, f: NamedFile)
    requires d.Valid() && Added(d, f).Valid()
    ensures FileOn(Added(d, f), |d.inodes|) == f.contents
  {
    var r, c := Added(d, f), f.contents;
    var n := r.inodes[|d.inodes|];
    assert BlocksOf(r, n) == Chunks(c);
    ChunksJoin(c);
  }

  lemma ChunksJoin(c: seq<byte>)
    ensures |Join(Chunks(c))| >= |c| && Join(Chunks(c))[..|c|] == c
  {
    var chunks := Chunks(c);
    var j := Join(chunks);
    JoinLength(chunks);
    forall p | 0 <= p < |c|
      ensures j[p] == c[p]
    {
      var k := p / 4096;
      JoinHasBlock(chunks, k);
      ByteOfBlock(j, k, chunks[k], p % 4096);
      ChunkByte(c, k, p % 4096);
    }
  }

  lemma ChunkByte(c: seq<byte>, k: nat, x: nat)
    requires x < 4096 && 4096 * k + x < |c|
    ensures k < (|c| + 4095) / 4096 && Chunk(c, k)[x] == c[4096 * k + x]
  {
  }

  /** File `i` of the disk is `f`. */
  ghost predicate HoldsAt(d: Disk, f: NamedFile, i: nat) {
    d.Valid() && i < |d.inodes| && i < |d.dentries| && d.dentries[i] == Dentry(f.name, 2, i) && FileOn(d, i) == f.contents
  }

  lemma AddedHoldsAt(d: Disk, f: NamedFile, g: NamedFile, i: nat)
    requires HoldsAt(d, g, i) && Added(d, f).Valid()
    ensures HoldsAt(Added(d, f), g, i)
  {
    AddedKeeps(d, f, i);
  }

  /** The disk holds exactly these files. */
  ghost predicate Holds(d: Disk, files: seq<NamedFile>) {
    && d.Valid() && |d.inodes| == |d.dentries| == |files| && |d.data| <= 1 + 1024 * |files|
    && forall i :: 0 <= i < |files| ==> HoldsAt(d, files[i], i)
  }

  lemma AddedHoldsAll(d: Disk, f: NamedFile, files: seq<NamedFile>)
    requires Holds(d, files) && |files| < 63
    requires 0 < |f.name| <= 32 && NUL !in f.name && |f.contents| <= 4096 * 1023
    ensures Holds(Added(d, f), files + [f])
  {
    var n := |files|;
    AddedIsValid(d, f);
    AddedHolds(d, f);
    forall i | 0 <= i <= n
      ensures HoldsAt(Added(d, f), (files + [f])[i], i)
    {
      if i < n {
        AddedHoldsAt(d, f, files[i], i);
      }
    }
  }

  /** A list of files, written to a disk, is there. */
  lemma {:induction false} PackHolds(files: seq<NamedFile>)
    requires Packable(files)
    ensures Holds(Pack(files), files)
  {
    if files != [] {
      var before, f := files[..|files| - 1], files[|files| - 1];
      PackHolds(before);
      AddedHoldsAll(Pack(before), f, before);
      assert before + [f] == files;
    }
  }

  lemma FirstNamedIs(es: seq<Dentry>, k: nat)
    requires k < |es| && forall i :: 0 <= i < k ==> es[i].name != es[k].name
    ensures FirstNamed(es, es[k].name) == k
  {
  }

  lemma HeldName(d: Disk, files: seq<NamedFile>, i: nat)
    requires Holds(d, files) && Packable(files) && i < |files|
    ensures HoldsAt(d, files[i], i) && FirstNamed(d.dentries, files[i].name) == i
  {
    assert HoldsAt(d, files[i], i);
    forall j | 0 <= j < i
      ensures d.dentries[j].name != files[i].name
    {
      assert HoldsAt(d, files[j], j) && files[j].name != files[i].name;
    }
    FirstNamedIs(d.dentries, i);
  }

  /** The round trip: a list of files is written to an image; the kernel finds each of them under its name, reads exactly
      its contents, and so does cat. */
  lemma PackReadsBack(files: seq<NamedFile>, i: nat)
    requires Packable(files) && i < |files|
    ensures Pack(files).Valid()
    ensures var img, name, contents := Image(Pack(files)), files[i].name, files[i].contents;
      && |img| >= 2 * BLOCK && Lookup(img, name) == Some(i)
      && Sound(img, i) && File(img, i) == contents
      && Readable(img, name) && CatOutput(img, name) == Some(contents)
  {
    PackHolds(files);
    ImageIsLaid(Pack(files));
    LaidReadsBack(Image(Pack(files)), Pack(files), files, i);
  }

  lemma LaidReadsBack(img: seq<byte>, d: Disk, files: seq<NamedFile>, i: nat)
    requires Laid(img, d) && Holds(d, files) && Packable(files) && i < |files|
    ensures |img| >= 2 * BLOCK && Lookup(img, files[i].name) == Some(i)
    ensures Sound(img, i) && File(img, i) == files[i].contents
    ensures Readable(img, files[i].name) && CatOutput(img, files[i].name) == Some(files[i].contents)
  {
    HeldName(d, files, i);
    FoundOn(img, d, files[i].name);
    OpenOn(img, d, files[i].name);
    FileReadsBack(img, d, i);
  }

  /** Such a disk: the only file is "f", with 97 bytes, and opening "a" gives the RTC. */
  lemma PhantomOnDisk(contents: seq<byte>)
    requires |contents| == 97
    ensures var d := Pack([NamedFile([102], contents)]);
      d.Valid() && |Image(d)| >= 2 * BLOCK && Openable(Image(d), [97]) == Some(Fd(RtcOps, 0, 0xFFFF_FFFF, 1))
  {
    var f := NamedFile([102], contents);
    var d := Pack([f]);
    PackHolds([f]);
    assert [f][..0] == [];
    assert d == Added(Pack([]), f);
    ImageIsLaid(d);
    PhantomFile(Image(d), d);
  }
}
