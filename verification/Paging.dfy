/** The addresses that student-distrib/systemcalls.c and schedule.c compute from
    a process id, as 32-bit words. */
module Paging {

  const EIGHT_MB: bv32 := 0x80_0000
  const FOUR_MB: bv32 := 0x40_0000
  const EIGHT_KB: bv32 := 0x2000

  /** A process id as a machine word. */
  function Pid(p: int): bv32
    requires 0 <= p < 6
  {
    if p == 0 then 0 else if p == 1 then 1 else if p == 2 then 2 else if p == 3 then 3 else if p == 4 then 4 else 5
  }

  /** The page-directory entry that execute, halt and schedule_handling install for a process. */
  function PageEntry(p: int): bv32
    requires 0 <= p < 6
  {
    (EIGHT_MB + FOUR_MB * Pid(p)) | 0x87
  }

  /** The physical 4 MB page that an entry with the page-size bit maps (bits 31..22). */
  function Frame(entry: bv32): bv32 {
    entry & 0xFFC0_0000
  }

  /** The PCB of a process, at the bottom of its 8 KB kernel stack. */
  function PcbOf(p: int): bv32
    requires 0 <= p < 6
  {
    EIGHT_MB - EIGHT_KB * (Pid(p) + 1)
  }

  /** The kernel stack pointer loaded into the TSS for a process. */
  function StackTop(p: int): bv32
    requires 0 <= p < 6
  {
    EIGHT_MB - EIGHT_KB * Pid(p) - 4
  }

  /** An address inside the 8 KB of a process. */
  predicate InStack(p: int, esp: bv32)
    requires 0 <= p < 6
  {
    PcbOf(p) <= esp && esp - PcbOf(p) < EIGHT_KB
  }

  /** get_pcb. */
  function GetPcb(esp: bv32): bv32 {
    esp & 0xFFFF_E000
  }

  /** Masking any stack pointer of a process gives that process's PCB. */
  lemma MaskGivesPcb(p: int, esp: bv32)
    requires 0 <= p < 6 && InStack(p, esp)
    ensures GetPcb(esp) == PcbOf(p)
  {
  }

  /** An address given by its offset into the 8 KB of a process. */
  lemma OffsetInStack(p: int, offset: bv32)
    requires 0 <= p < 6 && offset < EIGHT_KB
    ensures InStack(p, PcbOf(p) + offset)
  {
  }

  lemma StackTopInStack(p: int)
    requires 0 <= p < 6
    ensures InStack(p, StackTop(p))
  {
    if p == 0 {
      assert PcbOf(p) == 0x7F_E000 && StackTop(p) == 0x7F_FFFC;
    } else if p == 1 {
      assert PcbOf(p) == 0x7F_C000 && StackTop(p) == 0x7F_DFFC;
    } else if p == 2 {
      assert PcbOf(p) == 0x7F_A000 && StackTop(p) == 0x7F_BFFC;
    } else if p == 3 {
      assert PcbOf(p) == 0x7F_8000 && StackTop(p) == 0x7F_9FFC;
    } else if p == 4 {
      assert PcbOf(p) == 0x7F_6000 && StackTop(p) == 0x7F_7FFC;
    } else {
      assert PcbOf(p) == 0x7F_4000 && StackTop(p) == 0x7F_5FFC;
    }
  }

  /** `esp0` is the top word of the 8 KB of process `p`: these are the 0x1FFC bytes below it and its own 4. */
  ghost predicate IsTop(p: int, esp0: bv32)
    requires 0 <= p < 6
  {
    forall a: bv32 :: InStack(p, a) <==> esp0 - 0x1FFC <= a && a <= esp0 + 3
  }

  lemma StackTopIsTop(p: int)
    requires 0 <= p < 6
    ensures IsTop(p, StackTop(p))
  {
    StackAddresses();
    if p == 0 {
      assert IsTop(0, 0x7F_FFFC);
    } else if p == 1 {
      assert IsTop(1, 0x7F_DFFC);
    } else if p == 2 {
      assert IsTop(2, 0x7F_BFFC);
    } else if p == 3 {
      assert IsTop(3, 0x7F_9FFC);
    } else if p == 4 {
      assert IsTop(4, 0x7F_7FFC);
    } else {
      assert IsTop(5, 0x7F_5FFC);
    }
  }

  /** Everything pushed on a stack that is empty but for its top word stays in the 8 KB of the process. */
  lemma PushesStay(p: int, esp0: bv32, d: bv32)
    requires 0 <= p < 6 && esp0 == StackTop(p) && d <= 0x1FFC
    ensures InStack(p, esp0 - d) && InStack(p, esp0 + 3) && !InStack(p, esp0 + 4) && !InStack(p, esp0 - 0x1FFD)
  {
    StackAddresses();
    if p == 0 {
    } else if p == 1 {
    } else if p == 2 {
    } else if p == 3 {
    } else if p == 4 {
    } else {
    }
  }

  /** The kernel stacks lie below 8 MB, that of process 0 highest, and the pages above it, that of process 0 lowest. */
  lemma StackAddresses()
    ensures PcbOf(0) == 0x7F_E000 && PcbOf(1) == 0x7F_C000 && PcbOf(2) == 0x7F_A000
    ensures PcbOf(3) == 0x7F_8000 && PcbOf(4) == 0x7F_6000 && PcbOf(5) == 0x7F_4000
    ensures StackTop(0) == 0x7F_FFFC && StackTop(1) == 0x7F_DFFC && StackTop(2) == 0x7F_BFFC
    ensures StackTop(3) == 0x7F_9FFC && StackTop(4) == 0x7F_7FFC && StackTop(5) == 0x7F_5FFC
    ensures Frame(PageEntry(0)) == 0x80_0000 && Frame(PageEntry(1)) == 0xC0_0000 && Frame(PageEntry(2)) == 0x100_0000
    ensures Frame(PageEntry(3)) == 0x140_0000 && Frame(PageEntry(4)) == 0x180_0000 && Frame(PageEntry(5)) == 0x1C0_0000
  {
  }

  /** Kernel stacks of different processes do not overlap. */
  lemma StacksDisjoint(p: int, q: int, esp: bv32)
    requires 0 <= p < 6 && 0 <= q < 6 && InStack(p, esp) && InStack(q, esp)
    ensures p == q
  {
    MaskGivesPcb(p, esp);
    MaskGivesPcb(q, esp);
    PcbsDiffer(p, q);
  }

  lemma PcbsDiffer(p: int, q: int)
    requires 0 <= p < 6 && 0 <= q < 6
    ensures PcbOf(p) == PcbOf(q) <==> p == q
  {
  }

  /** The entry maps the process's own 4 MB page above 8 MB: present, writable, user, large page. */
  lemma EntryMapsOwnPage(p: int)
    requires 0 <= p < 6
    ensures Frame(PageEntry(p)) == EIGHT_MB + FOUR_MB * Pid(p)
    ensures PageEntry(p) & 0x3F_FFFF == 0x87
  {
  }

  lemma FramesDiffer(p: int, q: int)
    requires 0 <= p < 6 && 0 <= q < 6
    ensures Frame(PageEntry(p)) == Frame(PageEntry(q)) <==> p == q
  {
  }

  lemma StackBelowPages(q: int, a: bv32)
    requires 0 <= q < 6 && InStack(q, a)
    ensures a < EIGHT_MB
  {
  }

  lemma PageAbove(p: int, a: bv32)
    requires 0 <= p < 6 && a & 0xFFC0_0000 == Frame(PageEntry(p))
    ensures EIGHT_MB <= a
  {
  }

  /** A physical address lies in the page of at most one process, and in no kernel stack. */
  lemma PagesDisjoint(p: int, q: int, a: bv32)
    requires 0 <= p < 6 && 0 <= q < 6 && a & 0xFFC0_0000 == Frame(PageEntry(p))
    ensures a & 0xFFC0_0000 == Frame(PageEntry(q)) ==> p == q
    ensures !InStack(q, a)
  {
    FramesDiffer(p, q);
    PageAbove(p, a);
    if InStack(q, a) {
      StackBelowPages(q, a);
    }
  }
}
