/** The read-only file system of student-distrib/filesystem.c, on the bytes of
    its image: the boot block, the index nodes, then the data blocks, 4 KB each. */
module FileSystem {
  import opened Bytes
  import Memory

  const BLOCK := 4096
  const MAX_BLOCKS := 1023

  /** A little-endian 32-bit word of the image. */
  function Word(img: seq<byte>, a: nat): (w: nat)
    requires a + 4 <= |img|
  {
    var b0: int, b1: int, b2: int, b3: int := img[a], img[a + 1], img[a + 2], img[a + 3];
    b0 + 0x100 * b1 + 0x1_0000 * b2 + 0x100_0000 * b3
  }

  /** The bytes of a word are the bytes of the image, lowest first. */
  lemma WordIsLittleEndian(img: seq<byte>, a: nat)
    requires a + 4 <= |img|
    ensures forall k :: 0 <= k < 4 ==> Memory.WordByte(Word(img, a), k) == img[a + k]
  {
    var b0: int, b1: int, b2: int, b3: int := img[a], img[a + 1], img[a + 2], img[a + 3];
    var w1: nat, w2: nat := b1 + 0x100 * b2 + 0x1_0000 * b3, b2 + 0x100 * b3;
    var w := Word(img, a);
    assert w / 0x100 == w1 && w1 / 0x100 == w2 && w2 / 0x100 == b3;
    assert Memory.WordByte(b3, 0) == b3 && Memory.WordByte(w2, 0) == b2 && Memory.WordByte(w2, 1) == b3;
    assert Memory.WordByte(w1, 0) == b1 && Memory.WordByte(w1, 1) == b2 && Memory.WordByte(w1, 2) == b3;
    assert Memory.WordByte(w, 0) == b0 && Memory.WordByte(w, 1) == b1 && Memory.WordByte(w, 2) == b2 && Memory.WordByte(w, 3) == b3;
  }

  function NumInodes(img: seq<byte>): nat
    requires |img| >= BLOCK
  {
    Word(img, 4)
  }

  /** file_size of an index node. */
  function Size(img: seq<byte>, inode: nat): nat
    requires |img| >= BLOCK * (inode + 2)
  {
    Word(img, BLOCK * (inode + 1))
  }

  /** data_block[k] of an index node; k == 1023 reads the word after the node. */
  function BlockOf(img: seq<byte>, inode: nat, k: nat): nat
    requires k <= MAX_BLOCKS && |img| >= BLOCK * (inode + 3)
  {
    Word(img, BLOCK * (inode + 1) + 4 + 4 * k)
  }

  /** The address of a data block. */
  function BlockStart(img: seq<byte>, block: nat): nat
    requires |img| >= BLOCK
  {
    BLOCK * (NumInodes(img) + 1 + block)
  }

  /** An index node whose size fits its block list and whose blocks lie in the image. */
  ghost predicate Sound(img: seq<byte>, inode: nat) {
    && |img| >= BLOCK * (inode + 3) && inode < NumInodes(img)
    && Size(img, inode) <= BLOCK * MAX_BLOCKS
    && forall k :: 0 <= k && BLOCK * k < Size(img, inode) ==> BlockStart(img, BlockOf(img, inode, k)) + BLOCK <= |img|
  }

  /** The byte at position `p` of a file. */
  function FileByte(img: seq<byte>, inode: nat, p: nat): byte
    requires Sound(img, inode) && p < Size(img, inode)
  {
    img[BlockStart(img, BlockOf(img, inode, p / BLOCK)) + p % BLOCK]
  }

  /** The flat contents of a file: its data blocks one after another, cut at its size. */
  function File(img: seq<byte>, inode: nat): (f: seq<byte>)
    requires Sound(img, inode)
    ensures |f| == Size(img, inode)
  {
    seq(Size(img, inode), p requires 0 <= p < Size(img, inode) => FileByte(img, inode, p))
  }

  function Min(a: int, b: int): int {
    if a <= b then a else b
  }

  /** How many bytes a read of `length` at `offset` can deliver. */
  function Available(size: nat, offset: nat, length: nat): nat {
    if size <= offset then 0 else Min(length, size - offset)
  }

  /** memcpy from the image into a buffer. */
  method CopyOut(img: seq<byte>, from: nat, buf: array<byte>, at: nat, n: nat)
    requires at + n <= buf.Length && (n == 0 || from + n <= |img|)
    modifies buf
    ensures forall i :: 0 <= i < buf.Length ==> buf[i] == if at <= i < at + n then img[from + i - at] else old(buf[i])
  {
    for k := 0 to n
      invariant forall i :: 0 <= i < buf.Length ==> buf[i] == if at <= i < at + k then img[from + i - at] else old(buf[i])
    {
      buf[at + k] := img[from + k];
    }
  }

  /** One memcpy of read_data: `n` bytes of data block `b` from offset `off` on. With n == 0 the block
      number is looked up and not used. */
  method CopyFromBlock(img: seq<byte>, inode: nat, b: nat, off: nat, buf: array<byte>, at: nat, n: nat)
    requires Sound(img, inode) && b <= MAX_BLOCKS && off + n <= BLOCK && at + n <= buf.Length
    requires n == 0 || BLOCK * b + off + n <= Size(img, inode)
    modifies buf
    ensures forall i :: 0 <= i < buf.Length ==>
      buf[i] == if at <= i < at + n then FileByte(img, inode, BLOCK * b + off + i - at) else old(buf[i])
  {
    var addr := BlockStart(img, BlockOf(img, inode, b));
    CopyOut(img, addr + off, buf, at, n);
    forall i | at <= i < at + n
      ensures buf[i] == FileByte(img, inode, BLOCK * b + off + i - at)
    {
      assert (BLOCK * b + off + i - at) / BLOCK == b;
    }
  }

  /** read_data: exactly the bytes file[offset .. min(offset + length, size)) go to the buffer, and nothing
      else is written. The 32-bit sum of offset and length must not wrap when the read starts inside the file. */
  method ReadData(img: seq<byte>, inode: nat, offset: nat, buf: array<byte>, at: nat, length0: nat) returns (r: nat)
    requires Sound(img, inode)
    requires offset < Size(img, inode) ==> offset + length0 < 0x1_0000_0000
    requires at + Available(Size(img, inode), offset, length0) <= buf.Length
    modifies buf
    ensures r == Available(Size(img, inode), offset, length0)
    ensures forall i :: 0 <= i < buf.Length ==>
      buf[i] == if at <= i < at + r then FileByte(img, inode, offset + i - at) else old(buf[i])
  {
    var inodeSize := Size(img, inode);
    var off := offset % BLOCK;
    var offsetDiv := offset / BLOCK;
    var bytesRead, length := 0, length0;
    if inodeSize <= offset {
      return 0;
    }
    if (length + offset) % 0x1_0000_0000 > inodeSize {
      length := inodeSize - offset;
    }
    var i := 0;
    while !(bytesRead >= inodeSize) || !(bytesRead >= length)
      invariant 0 <= i && 0 <= bytesRead <= length
      invariant if i == 0 then bytesRead == 0 && off == offset % BLOCK
                else off == 0 && bytesRead == BLOCK * (i + offsetDiv) - offset
      invariant forall j :: 0 <= j < buf.Length ==>
        buf[j] == if at <= j < at + bytesRead then FileByte(img, inode, offset + j - at) else old(buf[j])
      decreases length - bytesRead
    {
      var readEntire := BLOCK - off;
      var bytesRemaining := length + off - bytesRead;
      if bytesRemaining < BLOCK {
        CopyFromBlock(img, inode, i + offsetDiv, off, buf, at + bytesRead, length - bytesRead);
        bytesRead := bytesRead + (length - bytesRead);
        break;
      } else {
        CopyFromBlock(img, inode, i + offsetDiv, off, buf, at + bytesRead, readEntire);
        bytesRead := bytesRead + readEntire;
        off := 0;
      }
      i := i + 1;
    }
    return bytesRead;
  }

  /** A part of a file, from `offset` on. */
  ghost function Part(f: seq<byte>, offset: nat, length: nat): seq<byte> {
    if |f| <= offset then [] else f[offset..Min(offset + length, |f|)]
  }

  /** read_data into a fresh buffer, in terms of the flat file. */
  method ReadBytes(img: seq<byte>, inode: nat, offset: nat, length: nat) returns (out: seq<byte>)
    requires Sound(img, inode) && offset + length < 0x1_0000_0000
    ensures out == Part(File(img, inode), offset, length)
  {
    ghost var part := Part(File(img, inode), offset, length);
    var buf := new byte[length];
    var n := ReadData(img, inode, offset, buf, 0, length);
    assert n == |part|;
    assert forall j :: 0 <= j < n ==> buf[j] == FileByte(img, inode, offset + j) == part[j];
    out := buf[..n];
  }
}
