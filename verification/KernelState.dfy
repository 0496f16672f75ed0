/** The kernel state that execute, halt and the scheduler share, and what every step
    keeps (student-distrib/systemcalls.c, schedule.c, pit.c). */
module KernelState {
  import opened ProcessTable
  import opened Paging

  datatype Regs = Regs(esp: bv32, ebp: bv32)

  /** The PCB fields used here: the registers of the parent at the execute call. */
  datatype Pcb = Pcb(processNum: int, esp: bv32, ebp: bv32)

  /** A tick that interrupted terminal `terminal` with these registers. */
  datatype Save = Save(terminal: int, regs: Regs)

  ghost predicate Ran(h: seq<Save>, t: int) {
    exists i :: 0 <= i < |h| && h[i].terminal == t
  }

  /** The registers at the latest tick at which a terminal was running. */
  ghost function Latest(h: seq<Save>, t: int): Regs
    requires Ran(h, t)
  {
    if h[|h| - 1].terminal == t then h[|h| - 1].regs else Latest(h[..|h| - 1], t)
  }

  /** The saved registers of every terminal that has been interrupted are those of its latest tick. */
  ghost predicate SavedOk(h: seq<Save>, saved: seq<Regs>) {
    |saved| == TERMINALS && forall t :: 0 <= t < TERMINALS && Ran(h, t) ==> saved[t] == Latest(h, t)
  }

  lemma SaveStep(h: seq<Save>, saved: seq<Regs>, t: int, r: Regs)
    requires SavedOk(h, saved) && 0 <= t < TERMINALS
    ensures SavedOk(h + [Save(t, r)], saved[t := r]) && Ran(h + [Save(t, r)], t)
    ensures forall u :: Ran(h, u) ==> Ran(h + [Save(t, r)], u)
  {
    var g := h + [Save(t, r)];
    assert g[..|g| - 1] == h && g[|g| - 1] == Save(t, r);
    forall u | Ran(h, u)
      ensures Ran(g, u)
    {
      var i :| 0 <= i < |h| && h[i].terminal == u;
      assert g[i] == h[i];
    }
    forall u | 0 <= u < TERMINALS && Ran(g, u) && u != t
      ensures Ran(h, u) && Latest(g, u) == Latest(h, u)
    {
      var i :| 0 <= i < |g| && g[i].terminal == u;
      assert h[i] == g[i];
    }
  }

  /** The registers stored for a child process point into its parent's kernel stack. */
  predicate ParentStackOk(chains: seq<seq<int>>, pcbs: seq<Pcb>, t: int, i: int)
    requires 0 <= t < |chains| && 0 < i < |chains[t]|
  {
    var p, q := chains[t][i - 1], chains[t][i];
    0 <= p < SLOTS && 0 <= q < |pcbs| && InStack(p, pcbs[q].esp)
  }

  ghost predicate ParentStacksOk(chains: seq<seq<int>>, pcbs: seq<Pcb>) {
    forall t, i :: 0 <= t < |chains| && 0 < i < |chains[t]| ==> ParentStackOk(chains, pcbs, t, i)
  }

  /** A new process on top of terminal `t` keeps that, when its parent called execute on its own stack. */
  lemma ExecParentStacks(s: Table, pcbs: seq<Pcb>, t: int, p: int, pcb: Pcb)
    requires s.Sized() && s.Disjoint() && 0 <= t < TERMINALS && 0 <= p < SLOTS && !s.Placed(p) && |pcbs| == SLOTS
    requires ParentStacksOk(s.chains, pcbs)
    requires s.chains[t] != [] ==> 0 <= s.top[t] < SLOTS && s.top[t] == s.chains[t][|s.chains[t]| - 1] && InStack(s.top[t], pcb.esp)
    ensures ParentStacksOk(s.Exec(t, p).chains, pcbs[p := pcb])
  {
    var c, after := s.Exec(t, p).chains, pcbs[p := pcb];
    forall u, i | 0 <= u < |c| && 0 < i < |c[u]|
      ensures ParentStackOk(c, after, u, i)
    {
      assert c[u][i - 1] == s.chains[u][i - 1] && s.PlaceOk(u, i - 1);
      if !(u == t && i == |s.chains[t]|) {
        assert c[u][i] == s.chains[u][i] && s.PlaceOk(u, i) && ParentStackOk(s.chains, pcbs, u, i);
      }
    }
  }

  /** Every PCB in use carries its process id, and the stack pointer of the process that called execute. */
  ghost predicate PcbsOk(s: Table, pcbs: seq<Pcb>) {
    && s.Sized() && |pcbs| == SLOTS && ParentStacksOk(s.chains, pcbs)
    && forall p :: 0 <= p < SLOTS && s.Placed(p) ==> pcbs[p].processNum == p
  }

  lemma ExecPcbs(s: Table, b: int, pcbs: seq<Pcb>, t: int, p: int, esp: bv32, ebp: bv32)
    requires s.Inv(b) && 0 <= t < TERMINALS && 0 <= p < SLOTS && !s.occupied[p] && PcbsOk(s, pcbs)
    requires s.chains[t] != [] ==> 0 <= s.top[t] < SLOTS && InStack(s.top[t], esp)
    ensures PcbsOk(s.Exec(t, p), pcbs[p := Pcb(p, esp, ebp)])
  {
    ExecParentStacks(s, pcbs, t, p, Pcb(p, esp, ebp));
    forall q | 0 <= q < SLOTS && s.Exec(t, p).Placed(q)
      ensures pcbs[p := Pcb(p, esp, ebp)][q].processNum == q
    {
      assert q != p ==> s.Placed(q);
    }
  }

  lemma RestartPcbs(s: Table, pcbs: seq<Pcb>, before: seq<Pcb>, p: int)
    requires s.Inv(TERMINALS) && 0 <= p < 3 && PcbsOk(s, before) && |pcbs| == SLOTS && pcbs == before[p := pcbs[p]] && pcbs[p].processNum == p
    ensures PcbsOk(s.(previous := s.previous[p := p]), pcbs)
  {
    var r := s.(previous := s.previous[p := p]);
    forall t, i | 0 <= t < |s.chains| && 0 < i < |s.chains[t]|
      ensures ParentStackOk(s.chains, pcbs, t, i)
    {
      RootIff(s, t, i);
      assert ParentStackOk(s.chains, before, t, i);
    }
    assert forall x :: 0 <= x < SLOTS ==> r.Placed(x) == s.Placed(x);
  }

  lemma PopPcbs(s: Table, pcbs: seq<Pcb>, t: int)
    requires s.Inv(TERMINALS) && 0 <= t < TERMINALS && 0 <= s.top[t] < SLOTS && PcbsOk(s, pcbs)
    ensures PcbsOk(s.Pop(t), pcbs)
  {
    PopParentStacks(s.chains, pcbs, t);
    forall q | 0 <= q < SLOTS && s.Pop(t).Placed(q)
      ensures s.Placed(q)
    {
    }
  }

  lemma PopParentStacks(chains: seq<seq<int>>, pcbs: seq<Pcb>, t: int)
    requires 0 <= t < |chains| && chains[t] != [] && ParentStacksOk(chains, pcbs)
    ensures ParentStacksOk(Popped(chains, t), pcbs)
  {
    var c := Popped(chains, t);
    forall u, i | 0 <= u < |c| && 0 < i < |c[u]|
      ensures ParentStackOk(c, pcbs, u, i)
    {
      assert ParentStackOk(chains, pcbs, u, i);
    }
  }

  /** The process whose PCB is at an address, -1 when there is none. */
  function PcbIndex(a: bv32): int {
    if a == PcbOf(0) then 0 else if a == PcbOf(1) then 1 else if a == PcbOf(2) then 2
    else if a == PcbOf(3) then 3 else if a == PcbOf(4) then 4 else if a == PcbOf(5) then 5 else -1
  }

  /** get_pcb finds the PCB of the process on whose kernel stack it is called. */
  lemma PcbFound(p: int, esp: bv32)
    requires 0 <= p < SLOTS && InStack(p, esp)
    ensures PcbIndex(GetPcb(esp)) == p
  {
    MaskGivesPcb(p, esp);
  }

  datatype Sys = Sys(
    table: Table, pcbs: seq<Pcb>,
    page: bv32,             // pDirectory[32]
    esp0: bv32,             // tss.esp0
    active: int,            // the visible terminal
    masked: bool,           // the keyboard line of the interrupt controller
    count: int,             // current_running_process_count
    next: int,              // next_terminal_in_schedule
    saved: seq<Regs>,       // current_esp and current_ebp of each terminal
    history: seq<Save>)
  {
    /** The number of terminals with a root shell. */
    function Booted(): int {
      if count < TERMINALS then count else TERMINALS
    }

    /** The terminal whose process is on the CPU, -1 before the first tick. */
    function Running(): int {
      if count <= TERMINALS then count - 1 else next
    }

    /** Until round robin starts, the running terminal is the visible one and the keyboard is off. */
    predicate Scheduled() {
      && 0 <= count <= 4 && 0 <= next < TERMINALS && 0 <= active < TERMINALS
      && (count <= TERMINALS ==> next == 2)
      && (1 <= count <= TERMINALS ==> active == count - 1 && masked)
    }

    /** The running process, once there is one. */
    function Process(): int
      requires Scheduled() && table.Sized() && count > 0
    {
      table.top[Running()]
    }

    /** The page mapped for user programs and the kernel stack are those of process `p`. */
    predicate Mapped(p: int) {
      0 <= p < SLOTS && page == PageEntry(p) && InStack(p, esp0)
    }

    /** What every step keeps. */
    ghost predicate Ok() {
      && Scheduled() && table.Inv(Booted()) && PcbsOk(table, pcbs)
      && (count > 0 ==> Mapped(Process()))
      && SavedOk(history, saved)
      && forall t :: 0 <= t < TERMINALS && t < count - 1 ==> Ran(history, t)
    }

    /** The stores of execute, on the visible terminal. */
    function Started(p: int, esp: bv32, ebp: bv32): Sys
      requires 0 <= p < SLOTS && 0 <= active < TERMINALS && table.Sized() && |pcbs| == SLOTS
    {
      this.(table := table.Exec(active, p), pcbs := pcbs[p := Pcb(p, esp, ebp)], page := PageEntry(p), esp0 := StackTop(p))
    }

    /** The stores of halt, for a process that is not a root shell. */
    function Left(t: int): Sys
      requires table.Sized() && |pcbs| == SLOTS && 0 <= t < TERMINALS && table.chains[t] != []
      requires 0 <= table.top[t] < SLOTS && 0 <= table.previous[table.top[t]] < SLOTS
    {
      var p := table.top[t];
      this.(table := table.Pop(t), page := PageEntry(table.previous[p]), esp0 := pcbs[p].esp)
    }

    /** halt of root shell `p`: its slot is freed, and the execute that halt makes takes it again. */
    function Restarted(p: int, esp: bv32, ebp: bv32): Sys
      requires 0 <= p < TERMINALS && 0 <= active < TERMINALS && table.Sized() && |pcbs| == SLOTS
    {
      this.(table := table.Freed(p)).Started(p, esp, ebp)
    }

    /** A stack pointer lies in the kernel stack of the running process. */
    predicate OnOwnStack(esp: bv32) {
      Scheduled() && table.Sized() && count > 0 && 0 <= Process() < SLOTS && InStack(Process(), esp)
    }

    /** The kernel stack loaded for the running process is its own, and empty. */
    ghost predicate TopLoaded() {
      Scheduled() && table.Sized() && count > 0 && 0 <= Process() < SLOTS && IsTop(Process(), esp0)
    }

    /** Every terminal that is not running has its stack pointer saved, in the kernel stack of its own process. */
    ghost predicate Resumable() {
      Scheduled() && table.Sized() && |saved| == TERMINALS && forall t :: 0 <= t < Booted() && t != Running() ==> Parked(t)
    }

    predicate Parked(t: int)
      requires table.Sized() && |saved| == TERMINALS && 0 <= t < TERMINALS
    {
      0 <= table.top[t] < SLOTS && InStack(table.top[t], saved[t].esp)
    }

    /** The registers saved by a tick. */
    function Interrupted(r: Regs): Sys
      requires Scheduled() && count > 0 && |saved| == TERMINALS
    {
      this.(saved := saved[Running() := r], history := history + [Save(Running(), r)])
    }

    /** A tick that boots the next root shell. */
    function BootTick(r: Regs): Sys
      requires Scheduled() && count < TERMINALS && table.Sized() && |pcbs| == SLOTS && |saved| == TERMINALS
    {
      var u := if count == 0 then this else Interrupted(r);
      u.(masked := true, active := count, count := count + 1).Started(count, r.esp, r.ebp)
    }

    /** The tick after the last root shell has started. */
    function LastBootTick(r: Regs): Sys
      requires Scheduled() && count == TERMINALS && |saved| == TERMINALS
    {
      Interrupted(r).(masked := true, active := 0, count := 4)
    }

    /** A round-robin tick. */
    function RoundTick(r: Regs): Sys
      requires Scheduled() && count == 4 && |saved| == TERMINALS && table.Sized()
      requires 0 <= table.top[(next + 1) % 3] < SLOTS
    {
      var n := (next + 1) % 3;
      var p := table.top[n];
      Interrupted(r).(next := n, masked := n != active, page := PageEntry(p), esp0 := StackTop(p))
    }
  }

  /** Before the first tick the table is empty. */
  lemma EmptyOk(s: Sys)
    requires s.Scheduled() && s.count == 0 && s.table.Sized() && |s.pcbs| == SLOTS && |s.saved| == TERMINALS
    requires s.table.chains == [[], [], []] && s.history == []
    requires forall p :: 0 <= p < SLOTS ==> !s.table.occupied[p]
    ensures s.Ok() && s.Resumable()
  {
    assert forall p :: 0 <= p < SLOTS ==> !s.table.Placed(p);
  }

  /** The same machine, with any chains and any history of ticks. */
  ghost predicate SameMachine(s: Sys, u: Sys) {
    && u.table.occupied == s.table.occupied && u.table.previous == s.table.previous && u.table.top == s.table.top
    && u.pcbs == s.pcbs && u.page == s.page && u.esp0 == s.esp0 && u.active == s.active && u.masked == s.masked
    && u.count == s.count && u.next == s.next && u.saved == s.saved
  }

  /** Some chains and some history make the machine satisfy the invariant. */
  ghost predicate Explained(s: Sys) {
    exists u :: SameMachine(s, u) && u.Ok()
  }

  /** When the process of the visible terminal is the one mapped, the visible terminal is the running one. */
  lemma LoadedIsRunning(s: Sys)
    requires s.table.Sized() && s.count >= TERMINALS && 0 <= s.active < TERMINALS
    requires 0 <= s.table.top[s.active] < SLOTS && s.page == PageEntry(s.table.top[s.active]) && Explained(s)
    ensures s.active == s.Running()
  {
    var u :| SameMachine(s, u) && u.Ok();
    FramesDiffer(u.Process(), u.table.top[u.active]);
    TopIsHere(u.table, u.Running(), u.active);
  }

  lemma StartedOk(s: Sys, esp: bv32, ebp: bv32)
    requires s.Ok() && s.count >= TERMINALS && s.active == s.Running()
    requires InStack(s.Process(), esp) && FirstFree(s.table.occupied) >= 0
    ensures s.Started(FirstFree(s.table.occupied), esp, ebp).Ok()
  {
    var p := FirstFree(s.table.occupied);
    ExecInv(s.table, TERMINALS, s.active);
    ExecPcbs(s.table, TERMINALS, s.pcbs, s.active, p, esp, ebp);
    StackTopInStack(p);
  }

  /** A successful execute keeps the invariant if and only if the calling process runs on the visible terminal; on a
      hidden one, no chains and no history at all explain the machine that results. */
  lemma StartedOkIff(s: Sys, esp: bv32, ebp: bv32)
    requires s.Ok() && s.count >= TERMINALS && InStack(s.Process(), esp) && FirstFree(s.table.occupied) >= 0
    ensures var u := s.Started(FirstFree(s.table.occupied), esp, ebp);
      (u.Ok() <==> s.active == s.Running()) && (Explained(u) <==> s.active == s.Running())
    ensures FirstFree(s.table.occupied) >= 3
  {
    var u := s.Started(FirstFree(s.table.occupied), esp, ebp);
    RootsTaken(s.table);
    if s.active == s.Running() {
      StartedOk(s, esp, ebp);
      assert SameMachine(u, u);
    }
    if u.Ok() {
      assert SameMachine(u, u);
    }
    if Explained(u) {
      LoadedIsRunning(u);
    }
  }

  lemma LeftOk(s: Sys)
    requires s.Ok() && s.count >= TERMINALS && s.Process() >= 3
    ensures 0 <= s.table.previous[s.Process()] < SLOTS && s.Left(s.Running()).Ok()
  {
    var t := s.Running();
    var n := |s.table.chains[t]| - 1;
    PopInv(s.table, t);
    PopPcbs(s.table, s.pcbs, t);
    assert ParentStackOk(s.table.chains, s.pcbs, t, n);
  }

  /** A root shell that halts is alone on its terminal. */
  lemma RootIsAlone(s: Sys)
    requires s.Ok() && s.count >= TERMINALS && s.Process() < 3
    ensures 0 <= s.Process() == s.Running() && s.table.chains[s.Running()] == [s.Process()]
  {
    var t := s.Running();
    TopIsHere(s.table, t, t);
    RootIff(s.table, t, |s.table.chains[t]| - 1);
  }

  lemma RestartedOk(s: Sys, esp: bv32, ebp: bv32)
    requires s.Ok() && s.count >= TERMINALS && 0 <= s.Process() < 3 && s.active == s.Running()
    ensures s.Restarted(s.Process(), esp, ebp).Ok()
    ensures s.Restarted(s.Process(), esp, ebp).table.chains == s.table.chains
  {
    var p := s.Process();
    RootIsAlone(s);
    RestartTable(s.table, p);
    RootPrevious(s.table, p, p);
    RestartPcbs(s.table, s.pcbs[p := Pcb(p, esp, ebp)], s.pcbs, p);
    StackTopInStack(p);
  }

  /** halt of a root shell keeps the invariant if and only if its terminal is visible. */
  lemma RestartedOkIff(s: Sys, esp: bv32, ebp: bv32)
    requires s.Ok() && s.count >= TERMINALS && 0 <= s.Process() < 3
    ensures var u := s.Restarted(s.Process(), esp, ebp);
      (u.Ok() <==> s.active == s.Running()) && (Explained(u) <==> s.active == s.Running())
  {
    var u := s.Restarted(s.Process(), esp, ebp);
    if s.active == s.Running() {
      RestartedOk(s, esp, ebp);
      assert SameMachine(u, u);
    }
    if u.Ok() {
      assert SameMachine(u, u);
    }
    if Explained(u) {
      LoadedIsRunning(u);
    }
  }

  lemma BootTickOk(s: Sys, r: Regs)
    requires s.Ok() && s.count < TERMINALS
    ensures s.BootTick(r).Ok() && FirstFree(s.table.occupied) == s.count
  {
    var b := s.count;
    BootSlot(s.table, b);
    ExecInv(s.table, b, b);
    ExecPcbs(s.table, b, s.pcbs, b, b, r.esp, r.ebp);
    StackTopInStack(b);
    if b > 0 {
      SaveStep(s.history, s.saved, s.Running(), r);
    }
  }

  lemma LastBootTickOk(s: Sys, r: Regs)
    requires s.Ok() && s.count == TERMINALS
    ensures s.LastBootTick(r).Ok()
  {
    SaveStep(s.history, s.saved, s.Running(), r);
  }

  /** A round-robin tick restores the registers saved at the latest tick where the next terminal was running. */
  lemma RoundTickOk(s: Sys, r: Regs)
    requires s.Ok() && s.count == 4
    ensures 0 <= s.table.top[(s.next + 1) % 3] < SLOTS
    ensures var u := s.RoundTick(r);
      u.Ok() && Ran(u.history, u.next) && u.saved[u.next] == Latest(u.history, u.next)
  {
    var n := (s.next + 1) % 3;
    TopIsHere(s.table, n, n);
    StackTopInStack(s.table.top[n]);
    SaveStep(s.history, s.saved, s.Running(), r);
    var u := s.RoundTick(r);
    assert u.table == s.table && u.pcbs == s.pcbs && u.count == 4 && u.Scheduled() && u.Mapped(u.Process());
    assert Ran(u.history, n);
  }

  /** What can happen to the kernel; the registers are those at the interrupt or system call. */
  datatype Event =
    | TickEvent(regs: Regs)
    | ExecuteEvent(valid: bool, regs: Regs)
    | HaltEvent(regs: Regs)
    | ShowEvent(terminal: int)

  /** An event can happen: a key press needs the keyboard line, a system call the stack of the running process. */
  ghost predicate Enabled(s: Sys, e: Event)
    requires s.Ok()
  {
    match e
    case TickEvent(_) => true
    case ShowEvent(t) => !s.masked && 0 <= t < TERMINALS
    case ExecuteEvent(_, r) => s.count >= TERMINALS && InStack(s.Process(), r.esp)
    case HaltEvent(r) => s.count >= TERMINALS && InStack(s.Process(), r.esp)
  }

  /** The event starts a process by a system call: a successful execute, or the one inside halt of a root shell. */
  ghost predicate Launches(s: Sys, e: Event)
    requires s.Ok() && Enabled(s, e)
  {
    (e.ExecuteEvent? && e.valid && FirstFree(s.table.occupied) >= 0) || (e.HaltEvent? && s.Process() < 3)
  }

  /** Processes are started from the visible terminal only. */
  ghost predicate Orderly(s: Sys, e: Event) {
    s.Ok() && Enabled(s, e) && Launches(s, e) ==> s.active == s.Running()
  }

  /** One tick of the scheduler, by phase. */
  ghost predicate Ticked(s: Sys, r: Regs, u: Sys)
    requires s.Ok()
  {
    if s.count < TERMINALS then u == s.BootTick(r)
    else if s.count == TERMINALS then u == s.LastBootTick(r)
    else 0 <= s.table.top[(s.next + 1) % 3] < SLOTS && u == s.RoundTick(r)
  }

  /** The effect of an event. */
  ghost predicate Step(s: Sys, e: Event, u: Sys)
    requires s.Ok() && Enabled(s, e)
  {
    match e
    case TickEvent(r) => Ticked(s, r, u)
    case ShowEvent(t) => u == s.(active := t)
    case ExecuteEvent(valid, r) =>
      var p := FirstFree(s.table.occupied);
      if !valid || p < 0 then u == s else u == s.Started(p, r.esp, r.ebp)
    case HaltEvent(r) =>
      var p := s.Process();
      if p < 3 then 0 <= p && u == s.Restarted(p, r.esp, r.ebp)
      else 0 <= s.table.previous[p] < SLOTS && u == s.Left(s.Running())
  }

  lemma BootLoadsTop(s: Sys, r: Regs)
    requires s.Scheduled() && s.count < TERMINALS && s.table.Sized() && |s.pcbs| == SLOTS && |s.saved| == TERMINALS
    ensures s.BootTick(r).TopLoaded()
  {
    StackTopIsTop(s.count);
  }

  lemma RoundLoadsTop(s: Sys, r: Regs)
    requires s.Scheduled() && s.count == 4 && s.table.Sized() && |s.saved| == TERMINALS
    requires 0 <= s.table.top[(s.next + 1) % 3] < SLOTS
    ensures s.RoundTick(r).TopLoaded()
  {
    StackTopIsTop(s.table.top[(s.next + 1) % 3]);
  }

  /** A booting tick and a round-robin tick leave the running process an empty kernel stack. */
  lemma TickLoadsTop(s: Sys, r: Regs, u: Sys)
    requires s.Ok() && Ticked(s, r, u) && s.count != TERMINALS
    ensures u.TopLoaded()
  {
    if s.count < TERMINALS {
      BootLoadsTop(s, r);
    } else {
      RoundLoadsTop(s, r);
    }
  }

  lemma TickKeepsOk(s: Sys, r: Regs, u: Sys)
    requires s.Ok() && Ticked(s, r, u)
    ensures u.Ok()
  {
    if s.count < TERMINALS {
      BootTickOk(s, r);
    } else if s.count == TERMINALS {
      LastBootTickOk(s, r);
    } else {
      RoundTickOk(s, r);
    }
  }

  lemma CallKeepsOk(s: Sys, e: Event, u: Sys)
    requires s.Ok() && Enabled(s, e) && Step(s, e, u) && (e.ExecuteEvent? || e.HaltEvent?)
    ensures (u.Ok() <==> Orderly(s, e)) && (Explained(u) <==> Orderly(s, e))
  {
    if !Launches(s, e) {
      if e.HaltEvent? {
        LeftOk(s);
      }
      assert SameMachine(u, u);
    } else if e.ExecuteEvent? {
      StartedOkIff(s, e.regs.esp, e.regs.ebp);
    } else {
      RestartedOkIff(s, e.regs.esp, e.regs.ebp);
    }
  }

  /** Every step keeps the invariant, unless it starts a process from a hidden terminal; then nothing explains the
      machine that results. */
  lemma StepKeepsOk(s: Sys, e: Event, u: Sys)
    requires s.Ok() && Enabled(s, e) && Step(s, e, u)
    ensures (u.Ok() <==> Orderly(s, e)) && (Explained(u) <==> Orderly(s, e))
  {
    match e
    case TickEvent(r) =>
      TickKeepsOk(s, r, u);
      assert SameMachine(u, u);
    case ShowEvent(t) =>
      assert SameMachine(u, u);
    case _ =>
      CallKeepsOk(s, e, u);
  }

  /** A run: in each state the next event can happen, and the next state is its effect. */
  ghost predicate IsRun(states: seq<Sys>, events: seq<Event>) {
    && |states| == |events| + 1
    && forall i :: 0 <= i < |events| ==> Follows(states[i], events[i], states[i + 1])
  }

  ghost predicate Follows(s: Sys, e: Event, u: Sys) {
    s.Ok() ==> Enabled(s, e) && Step(s, e, u)
  }

  /** Safety over whole runs: when the first state satisfies the invariant and processes are started from the visible
      terminal only, every state satisfies it. In particular the counter never exceeds 4, the keyboard is off until round
      robin starts, the running process has its own page and kernel stack, and the saved registers of a terminal are those
      of the latest tick that interrupted it. */
  lemma {:induction false} RunsAreSafe(states: seq<Sys>, events: seq<Event>, i: nat)
    requires IsRun(states, events) && states[0].Ok() && i <= |events|
    requires forall j :: 0 <= j < i ==> Orderly(states[j], events[j])
    ensures states[i].Ok() && states[i].count <= 4
    ensures 1 <= states[i].count <= TERMINALS ==> states[i].masked && states[i].active == states[i].Running()
    ensures states[i].count > 0 ==> states[i].Mapped(states[i].Process())
    ensures SavedOk(states[i].history, states[i].saved)
  {
    if i > 0 {
      RunsAreSafe(states, events, i - 1);
      assert Follows(states[i - 1], events[i - 1], states[i - 1 + 1]);
      assert Orderly(states[i - 1], events[i - 1]);
      StepKeepsOk(states[i - 1], events[i - 1], states[i]);
    }
  }

  /** A run satisfies the invariant throughout if and only if processes are started from the visible terminal only. */
  lemma RunIsSafeIff(states: seq<Sys>, events: seq<Event>)
    requires IsRun(states, events) && states[0].Ok()
    ensures (forall i :: 0 <= i < |states| ==> states[i].Ok()) <==> forall i :: 0 <= i < |events| ==> Orderly(states[i], events[i])
  {
    if forall i :: 0 <= i < |events| ==> Orderly(states[i], events[i]) {
      forall i | 0 <= i < |states|
        ensures states[i].Ok()
      {
        RunsAreSafe(states, events, i);
      }
    }
    if forall i :: 0 <= i < |states| ==> states[i].Ok() {
      forall i | 0 <= i < |events|
        ensures Orderly(states[i], events[i])
      {
        assert Follows(states[i], events[i], states[i + 1]) && states[i + 1].Ok();
        StepKeepsOk(states[i], events[i], states[i + 1]);
      }
    }
  }

  /** A tick arrives on the kernel stack of the running process. */
  ghost predicate OnStack(s: Sys, e: Event) {
    s.Ok() && e.TickEvent? && s.count > 0 ==> InStack(s.Process(), e.regs.esp)
  }

  /** A terminal stays parked while its process and its saved registers stay. */
  lemma StaysParked(s: Sys, u: Sys, t: int)
    requires s.table.Sized() && |s.saved| == TERMINALS && 0 <= t < TERMINALS && s.Parked(t)
    requires u.table.Sized() && |u.saved| == TERMINALS && u.table.top[t] == s.table.top[t] && u.saved[t] == s.saved[t]
    ensures u.Parked(t)
  {
  }

  lemma BootParks(s: Sys, r: Regs)
    requires s.Resumable() && s.count < TERMINALS && |s.pcbs| == SLOTS
    requires s.count > 0 ==> 0 <= s.Process() < SLOTS && InStack(s.Process(), r.esp)
    ensures s.BootTick(r).Resumable()
  {
    var u := s.BootTick(r);
    forall t | 0 <= t < u.Booted() && t != u.Running()
      ensures u.Parked(t)
    {
      assert u.table.top[t] == s.table.top[t];
      if t != s.Running() {
        StaysParked(s, u, t);
      }
    }
  }

  lemma LastBootParks(s: Sys, r: Regs)
    requires s.Resumable() && s.count == TERMINALS && 0 <= s.Process() < SLOTS && InStack(s.Process(), r.esp)
    ensures s.LastBootTick(r).Resumable()
  {
    var u := s.LastBootTick(r);
    forall t | 0 <= t < u.Booted() && t != u.Running()
      ensures u.Parked(t)
    {
      StaysParked(s, u, t);
    }
  }

  lemma RoundParks(s: Sys, r: Regs)
    requires s.Resumable() && s.count == 4 && 0 <= s.Process() < SLOTS && InStack(s.Process(), r.esp)
    requires 0 <= s.table.top[(s.next + 1) % 3] < SLOTS
    ensures var u := s.RoundTick(r); u.Resumable() && u.Parked(u.next)
  {
    var u := s.RoundTick(r);
    forall t | 0 <= t < u.Booted()
      ensures u.Parked(t)
    {
      if t != s.Running() {
        StaysParked(s, u, t);
      }
    }
  }

  /** Such a tick parks the interrupted process, and the process that round robin resumes continues on its own stack. */
  lemma TickParks(s: Sys, r: Regs, u: Sys)
    requires s.Ok() && s.Resumable() && OnStack(s, TickEvent(r)) && Ticked(s, r, u)
    ensures u.Resumable()
    ensures s.count == 4 ==> u.Parked(u.Running())
  {
    if s.count < TERMINALS {
      BootParks(s, r);
    } else if s.count == TERMINALS {
      LastBootParks(s, r);
    } else {
      RoundParks(s, r);
    }
  }

  /** A system call changes the process of the running terminal only. */
  lemma CallParks(s: Sys, u: Sys)
    requires s.Resumable() && u.Scheduled() && u.table.Sized() && |u.saved| == TERMINALS && u.count == s.count && u.next == s.next
    requires u.saved == s.saved && forall t :: 0 <= t < TERMINALS && t != s.Running() ==> u.table.top[t] == s.table.top[t]
    ensures u.Resumable()
  {
    forall t | 0 <= t < u.Booted() && t != u.Running()
      ensures u.Parked(t)
    {
      StaysParked(s, u, t);
    }
  }

  lemma StartedParks(s: Sys, p: int, esp: bv32, ebp: bv32)
    requires s.Resumable() && s.active == s.Running() && 0 <= p < SLOTS && |s.pcbs| == SLOTS
    ensures s.Started(p, esp, ebp).Resumable()
  {
    CallParks(s, s.Started(p, esp, ebp));
  }

  lemma HaltParks(s: Sys, r: Regs, u: Sys)
    requires s.Ok() && Enabled(s, HaltEvent(r)) && Step(s, HaltEvent(r), u) && s.Resumable()
    requires s.Process() < 3 ==> s.active == s.Running()
    ensures u.Resumable()
  {
    var p := s.Process();
    if p < 3 {
      var freed := s.(table := s.table.Freed(p));
      CallParks(s, freed);
      StartedParks(freed, p, r.esp, r.ebp);
    } else {
      TopIsHere(s.table, s.Running(), s.Running());
      CallParks(s, s.Left(s.Running()));
    }
  }

  lemma StepKeepsResumable(s: Sys, e: Event, u: Sys)
    requires s.Ok() && Enabled(s, e) && Step(s, e, u) && Orderly(s, e) && s.Resumable() && OnStack(s, e)
    ensures u.Resumable()
  {
    match e
    case TickEvent(r) => TickParks(s, r, u);
    case ShowEvent(_) => CallParks(s, u);
    case ExecuteEvent(valid, r) =>
      var p := FirstFree(s.table.occupied);
      if valid && p >= 0 {
        StartedParks(s, p, r.esp, r.ebp);
      }
    case HaltEvent(r) => HaltParks(s, r, u);
  }

  /** Over every such run, every terminal that is not running is parked on the kernel stack of its own process. */
  lemma {:induction false} RunsAreResumable(states: seq<Sys>, events: seq<Event>, i: nat)
    requires IsRun(states, events) && states[0].Ok() && states[0].Resumable() && i <= |events|
    requires forall j :: 0 <= j < i ==> Orderly(states[j], events[j]) && OnStack(states[j], events[j])
    ensures states[i].Ok() && states[i].Resumable()
  {
    RunsAreSafe(states, events, i);
    if i > 0 {
      RunsAreResumable(states, events, i - 1);
      assert Follows(states[i - 1], events[i - 1], states[i - 1 + 1]);
      assert Orderly(states[i - 1], events[i - 1]) && OnStack(states[i - 1], events[i - 1]);
      StepKeepsResumable(states[i - 1], events[i - 1], states[i]);
    }
  }

  /** The chains determine the occupancy table, each terminal's process and the page mapping. */
  lemma ChainsRestoreAll(s: Sys, u: Sys)
    requires s.Ok() && u.Ok() && s.count >= TERMINALS && u.count == s.count && u.next == s.next
    requires u.table.chains == s.table.chains
    ensures u.table.occupied == s.table.occupied && u.table.top == s.table.top && u.page == s.page
  {
    ChainsDetermine(s.table, u.table, TERMINALS);
  }

  /** The running process has its own page mapped and its own kernel stack loaded, get_pcb on that stack finds its
      PCB, and no address of either belongs to another process `q`. */
  lemma RunningIsIsolated(s: Sys, q: int, a: bv32)
    requires s.Ok() && s.count > 0 && 0 <= q < SLOTS && q != s.Process()
    ensures 0 <= s.Process() < SLOTS && s.table.occupied[s.Process()]
    ensures Frame(s.page) == EIGHT_MB + FOUR_MB * Pid(s.Process()) && GetPcb(s.esp0) == PcbOf(s.Process())
    ensures a & 0xFFC0_0000 == Frame(s.page) ==> a & 0xFFC0_0000 != Frame(PageEntry(q)) && !InStack(q, a)
    ensures !InStack(q, s.esp0)
  {
    var t, p := s.Running(), s.Process();
    assert s.table.PlaceOk(t, |s.table.chains[t]| - 1) && s.table.Placed(p);
    EntryMapsOwnPage(p);
    MaskGivesPcb(p, s.esp0);
    if a & 0xFFC0_0000 == Frame(s.page) {
      PagesDisjoint(p, q, a);
    }
    if InStack(q, s.esp0) {
      StacksDisjoint(p, q, s.esp0);
    }
  }
}
