/** The memory primitives of student-distrib/lib.c, on one flat memory.

    `skew` is the address of `mem[0]` modulo 4, so that `skew + edi` has the
    alignment of the address in register `edi`. */
module Memory {
  import opened Bytes

  /** `n` bytes moved from `src` to `dst`, all at once. */
  function Copied(m: seq<byte>, dst: nat, src: nat, n: nat): (r: seq<byte>)
    requires dst + n <= |m| && src + n <= |m|
    ensures |r| == |m|
  {
    m[..dst] + m[src..src + n] + m[dst + n..]
  }

  /** `n` bytes from `at` on set to `c`. */
  function Filled(m: seq<byte>, at: nat, c: byte, n: nat): (r: seq<byte>)
    requires at + n <= |m|
    ensures |r| == |m|
  {
    m[..at] + seq(n, i => c) + m[at + n..]
  }

  /** Cell by cell: every cell of the destination gets what its counterpart held before, all other cells stay. */
  lemma CopiedCell(m: seq<byte>, dst: nat, src: nat, n: nat, i: nat)
    requires dst + n <= |m| && src + n <= |m| && i < |m|
    ensures Copied(m, dst, src, n)[i] == if dst <= i < dst + n then m[src + (i - dst)] else m[i]
  {
    if dst <= i < dst + n {
      assert m[src..src + n][i - dst] == m[src + (i - dst)];
    }
  }

  /** Cell by cell: exactly the `n` cells from `at` on are `c`. */
  lemma FilledCell(m: seq<byte>, at: nat, c: byte, n: nat, i: nat)
    requires at + n <= |m| && i < |m|
    ensures Filled(m, at, c, n)[i] == if at <= i < at + n then c else m[i]
  {
  }

  /** What one cell of `Copied` holds. */
  function CopiedAt(m: seq<byte>, dst: nat, src: nat, n: nat, i: nat): byte
    requires dst + n <= |m| && src + n <= |m| && i < |m|
  {
    if dst <= i < dst + n then m[src + i - dst] else m[i]
  }

  lemma CopiedByCells(m: seq<byte>, now: seq<byte>, dst: nat, src: nat, n: nat)
    requires dst + n <= |m| == |now| && src + n <= |m|
    requires forall i :: 0 <= i < |m| ==> now[i] == CopiedAt(m, dst, src, n, i)
    ensures now == Copied(m, dst, src, n)
  {
  }

  /** `count` bytes upwards, when the first `k` bytes are already in place (`rep movsb` with the
      direction flag clear, and the byte tail of memcpy). */
  method CopyBytes(mem: array<byte>, edi0: nat, esi0: nat, count: nat, ghost m: seq<byte>, ghost k: nat)
    requires |m| == mem.Length && k <= edi0 && k <= esi0
    requires edi0 + count <= mem.Length && esi0 + count <= mem.Length
    requires edi0 <= esi0 || esi0 + count <= edi0 - k
    requires forall i :: 0 <= i < mem.Length ==> mem[i] == CopiedAt(m, edi0 - k, esi0 - k, k, i)
    modifies mem
    ensures forall i :: 0 <= i < mem.Length ==> mem[i] == CopiedAt(m, edi0 - k, esi0 - k, k + count, i)
  {
    var edi, esi, ecx := edi0, esi0, count;
    while ecx != 0
      invariant 0 <= ecx <= count && edi == edi0 + count - ecx && esi == esi0 + count - ecx
      invariant forall i :: 0 <= i < mem.Length ==> mem[i] == CopiedAt(m, edi0 - k, esi0 - k, k + count - ecx, i)
    {
      mem[edi] := mem[esi];
      edi, esi, ecx := edi + 1, esi + 1, ecx - 1;
    }
  }

  /** `rep movsl`: each step reads four bytes, then writes four bytes. */
  method CopyWords(mem: array<byte>, edi0: nat, esi0: nat, words: nat, ghost m: seq<byte>, ghost k: nat)
    requires |m| == mem.Length && k <= edi0 && k <= esi0
    requires edi0 + 4 * words <= mem.Length && esi0 + 4 * words <= mem.Length
    requires edi0 + 4 * words <= esi0 - k || esi0 + 4 * words <= edi0 - k
    requires forall i :: 0 <= i < mem.Length ==> mem[i] == CopiedAt(m, edi0 - k, esi0 - k, k, i)
    modifies mem
    ensures forall i :: 0 <= i < mem.Length ==> mem[i] == CopiedAt(m, edi0 - k, esi0 - k, k + 4 * words, i)
  {
    var edi, esi, ecx := edi0, esi0, words;
    while ecx != 0
      invariant 0 <= ecx <= words && edi == edi0 + 4 * (words - ecx) && esi == esi0 + 4 * (words - ecx)
      invariant forall i :: 0 <= i < mem.Length ==>
        mem[i] == CopiedAt(m, edi0 - k, esi0 - k, k + 4 * (words - ecx), i)
    {
      var b0, b1, b2, b3 := mem[esi], mem[esi + 1], mem[esi + 2], mem[esi + 3];
      mem[edi] := b0;
      mem[edi + 1] := b1;
      mem[edi + 2] := b2;
      mem[edi + 3] := b3;
      edi, esi, ecx := edi + 4, esi + 4, ecx - 1;
    }
  }

  /** The byte loop that runs until the destination is word aligned, or nothing is left. */
  method CopyHead(mem: array<byte>, skew: nat, dest: nat, src: nat, n: nat) returns (ecx: nat)
    requires dest + n <= mem.Length && src + n <= mem.Length
    requires dest + n <= src || src + n <= dest
    modifies mem
    ensures ecx <= n && (ecx == 0 || (skew + dest + n - ecx) % 4 == 0)
    ensures forall i :: 0 <= i < mem.Length ==> mem[i] == CopiedAt(old(mem[..]), dest, src, n - ecx, i)
  {
    ghost var m := mem[..];
    var edi, esi := dest, src;
    ecx := n;
    while ecx != 0 && (skew + edi) % 4 != 0
      invariant 0 <= ecx <= n && edi == dest + n - ecx && esi == src + n - ecx
      invariant forall i :: 0 <= i < mem.Length ==> mem[i] == CopiedAt(m, dest, src, n - ecx, i)
    {
      mem[edi] := mem[esi];
      edi, esi, ecx := edi + 1, esi + 1, ecx - 1;
    }
  }

  /** memcpy: bytes up to a word boundary of the destination, then whole words, then the last bytes. */
  method Memcpy(mem: array<byte>, skew: nat, dest: nat, src: nat, n: nat)
    requires dest + n <= mem.Length && src + n <= mem.Length
    requires dest + n <= src || src + n <= dest
    modifies mem
    ensures mem[..] == Copied(old(mem[..]), dest, src, n)
  {
    ghost var m := mem[..];
    var ecx := CopyHead(mem, skew, dest, src, n);
    var edx := ecx % 4;
    CopyWords(mem, dest + n - ecx, src + n - ecx, ecx / 4, m, n - ecx);
    CopyBytes(mem, dest + n - edx, src + n - edx, edx, m, n - edx);
    CopiedByCells(m, mem[..], dest, src, n);
  }

  /** The downward `rep movsb`, from the last byte to the first. */
  method CopyDown(mem: array<byte>, dest: nat, src: nat, n: nat)
    requires src < dest && dest + n <= mem.Length
    modifies mem
    ensures mem[..] == Copied(old(mem[..]), dest, src, n)
  {
    ghost var m := mem[..];
    var esi, edi, ecx := src + n - 1, dest + n - 1, n;
    while ecx != 0
      invariant 0 <= ecx <= n && edi == dest + ecx - 1 && esi == src + ecx - 1
      invariant forall i :: 0 <= i < mem.Length ==> mem[i] == CopiedAt(m, dest + ecx, src + ecx, n - ecx, i)
    {
      mem[edi] := mem[esi];
      edi, esi, ecx := edi - 1, esi - 1, ecx - 1;
    }
  }

  /** memmove: upwards when the source is at or above the destination, downwards otherwise. */
  method Memmove(mem: array<byte>, dest: nat, src: nat, n: nat)
    requires dest + n <= mem.Length && src + n <= mem.Length
    modifies mem
    ensures mem[..] == Copied(old(mem[..]), dest, src, n)
  {
    if src >= dest {
      ghost var m := mem[..];
      CopyBytes(mem, dest, src, n, m, 0);
      CopiedByCells(m, mem[..], dest, src, n);
    } else {
      CopyDown(mem, dest, src, n);
    }
  }

  /** The word that memset hands to `stosl`: `c` in each of its four bytes. */
  function FillWord(c: byte): (w: nat)
  {
    ((c * 256 + c) * 256 + c) * 256 + c
  }

  /** Byte `k` of a little-endian word. */
  function WordByte(w: nat, k: nat): (b: byte)
  {
    if k == 0 then w % 256 else WordByte(w / 256, k - 1)
  }

  lemma {:induction false} FillWordBytes(c: byte)
    ensures forall k :: 0 <= k < 4 ==> WordByte(FillWord(c), k) == c
  {
    var w1, w2, w3 := c * 256 + c, (c * 256 + c) * 256 + c, FillWord(c);
    assert w1 / 256 == c && w2 / 256 == w1 && w3 / 256 == w2;
    assert WordByte(w1, 0) == WordByte(w1, 1) == c;
    assert WordByte(w2, 1) == WordByte(w2, 2) == c;
    assert WordByte(w3, 0) == WordByte(w3, 1) == WordByte(w3, 2) == WordByte(w3, 3) == c;
  }

  function FilledAt(m: seq<byte>, at: nat, c: byte, n: nat, i: nat): byte
    requires at + n <= |m| && i < |m|
  {
    if at <= i < at + n then c else m[i]
  }

  /** `count` bytes stored upwards, when the `k` bytes before `edi0` are already filled. */
  method FillBytes(mem: array<byte>, edi0: nat, al: byte, count: nat, ghost m: seq<byte>, ghost k: nat)
    requires |m| == mem.Length && k <= edi0 && edi0 + count <= mem.Length
    requires forall i :: 0 <= i < mem.Length ==> mem[i] == FilledAt(m, edi0 - k, al, k, i)
    modifies mem
    ensures forall i :: 0 <= i < mem.Length ==> mem[i] == FilledAt(m, edi0 - k, al, k + count, i)
  {
    var edi, ecx := edi0, count;
    while ecx != 0
      invariant 0 <= ecx <= count && edi == edi0 + count - ecx
      invariant forall i :: 0 <= i < mem.Length ==> mem[i] == FilledAt(m, edi0 - k, al, k + count - ecx, i)
    {
      mem[edi] := al;
      edi, ecx := edi + 1, ecx - 1;
    }
  }

  /** `rep stosl`. */
  method FillWords(mem: array<byte>, edi0: nat, eax: nat, words: nat, ghost c: byte, ghost m: seq<byte>, ghost k: nat)
    requires |m| == mem.Length && k <= edi0 && edi0 + 4 * words <= mem.Length
    requires forall j :: 0 <= j < 4 ==> WordByte(eax, j) == c
    requires forall i :: 0 <= i < mem.Length ==> mem[i] == FilledAt(m, edi0 - k, c, k, i)
    modifies mem
    ensures forall i :: 0 <= i < mem.Length ==> mem[i] == FilledAt(m, edi0 - k, c, k + 4 * words, i)
  {
    var edi, ecx := edi0, words;
    while ecx != 0
      invariant 0 <= ecx <= words && edi == edi0 + 4 * (words - ecx)
      invariant forall i :: 0 <= i < mem.Length ==> mem[i] == FilledAt(m, edi0 - k, c, k + 4 * (words - ecx), i)
    {
      mem[edi] := WordByte(eax, 0);
      mem[edi + 1] := WordByte(eax, 1);
      mem[edi + 2] := WordByte(eax, 2);
      mem[edi + 3] := WordByte(eax, 3);
      edi, ecx := edi + 4, ecx - 1;
    }
  }

  /** The byte loop up to the first word boundary. */
  method FillHead(mem: array<byte>, skew: nat, s: nat, al: byte, n: nat) returns (ecx: nat)
    requires s + n <= mem.Length
    modifies mem
    ensures ecx <= n && (ecx == 0 || (skew + s + n - ecx) % 4 == 0)
    ensures forall i :: 0 <= i < mem.Length ==> mem[i] == FilledAt(old(mem[..]), s, al, n - ecx, i)
  {
    ghost var m := mem[..];
    var edi := s;
    ecx := n;
    while ecx != 0 && (skew + edi) % 4 != 0
      invariant 0 <= ecx <= n && edi == s + n - ecx
      invariant forall i :: 0 <= i < mem.Length ==> mem[i] == FilledAt(m, s, al, n - ecx, i)
    {
      mem[edi] := al;
      edi, ecx := edi + 1, ecx - 1;
    }
  }

  /** memset: the low byte of `c`, written bytewise up to a word boundary, then wordwise, then bytewise. */
  method Memset(mem: array<byte>, skew: nat, s: nat, c: int, n: nat)
    requires s + n <= mem.Length
    modifies mem
    ensures mem[..] == Filled(old(mem[..]), s, c % 256, n)
  {
    ghost var m := mem[..];
    var al: byte := c % 256;
    var eax := FillWord(al);
    FillWordBytes(al);
    var ecx := FillHead(mem, skew, s, al, n);
    var edx := ecx % 4;
    FillWords(mem, s + n - ecx, eax, ecx / 4, al, m, n - ecx);
    FillBytes(mem, s + n - edx, al, edx, m, n - edx);
  }
}
