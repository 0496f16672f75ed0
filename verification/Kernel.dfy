/** execute, halt and the scheduler as they run: arrays and registers updated in
    place (student-distrib/systemcalls.c, schedule.c, pit.c). */
module Kernel {
  import opened ProcessTable
  import opened Paging
  import opened KernelState

  /** Executes and halts that match like brackets, with the registers at the two calls. */
  datatype Nest = Done | Session(call: Regs, inner: Nest, exit: Regs, rest: Nest)

  /** The registers that the halts load, in order: each one those of its own execute. */
  function Resumed(n: Nest): seq<Regs> {
    match n
    case Done => []
    case Session(call, inner, _, rest) => Resumed(inner) + [call] + Resumed(rest)
  }

  class Machine {
    const occupants: array<bool>
    const previous: array<int>
    const processNum: array<int>
    const pcb: array<Pcb>
    const saved: array<Regs>
    var page: bv32
    var esp0: bv32
    var active: int
    var masked: bool
    var count: int
    var next: int
    ghost var chains: seq<seq<int>>
    ghost var owner: seq<int>
    ghost var depth: seq<int>
    ghost var history: seq<Save>

    ghost function Now(): Sys
      reads this, occupants, previous, processNum, pcb, saved
    {
      Sys(Table(occupants[..], previous[..], processNum[..], chains, owner, depth), pcb[..],
          page, esp0, active, masked, count, next, saved[..], history)
    }

    ghost predicate Valid()
      reads this, occupants, previous, processNum, pcb, saved
    {
      Now().Ok()
    }

    /** schedule_initialization, with an empty process table. */
    constructor ()
      ensures Valid() && Now().Resumable() && count == 0 && history == [] && chains == [[], [], []]
      ensures occupants.Length == 6 && processNum.Length == 3 && forall p :: 0 <= p < 6 ==> !occupants[p]
      ensures fresh(occupants) && fresh(previous) && fresh(processNum) && fresh(pcb) && fresh(saved)
    {
      occupants := new bool[SLOTS](i => false);
      previous := new int[SLOTS](i => 0);
      processNum := new int[TERMINALS](i => 0);
      pcb := new Pcb[SLOTS](i => Pcb(0, 0, 0));
      saved := new Regs[TERMINALS](i => Regs(0, 0));
      page, esp0, active, masked, count, next := 2, 0x80_0000, 0, false, 0, 2;
      chains, owner, depth, history := [[], [], []], seq(SLOTS, i => -1), seq(SLOTS, i => 0), [];
      new;
      assert forall p :: 0 <= p < SLOTS ==> !occupants[..][p];
      EmptyOk(Now());
    }

    /** The slot search of execute. */
    method FindSlot() returns (pid: int)
      requires occupants.Length == SLOTS
      ensures pid == FirstFree(occupants[..])
    {
      for i := 0 to SLOTS
        invariant forall j :: 0 <= j < i ==> occupants[j]
      {
        if !occupants[i] {
          assert !occupants[..][i] && forall j :: 0 <= j < i ==> occupants[..][j];
          return i;
        }
      }
      assert forall j :: 0 <= j < SLOTS ==> occupants[..][j];
      return -1;
    }

    ghost predicate Sized()
      reads this, occupants, previous, processNum, pcb, saved
    {
      Now().table.Sized() && pcb.Length == SLOTS && saved.Length == TERMINALS && 0 <= active < TERMINALS
    }

    /** The table entries that execute fills in for slot `pid`. */
    method Claim(pid: int)
      requires Sized() && 0 <= pid < SLOTS
      modifies occupants, previous, processNum, this`chains, this`owner, this`depth
      ensures Now() == old(Now()).(table := old(Now()).table.Exec(active, pid))
    {
      ghost var r := Now().table.Exec(active, pid);
      occupants[pid] := true;
      previous[pid] := processNum[active];
      processNum[active] := pid;
      chains, owner, depth := r.chains, r.owner, r.depth;
    }

    /** The PCBs of the processes that were there before are what they were. */
    twostate predicate PcbsKept()
      reads pcb, occupants
    {
      pcb.Length == occupants.Length && forall p :: 0 <= p < pcb.Length && old(occupants[p]) ==> pcb[p] == old(pcb[p])
    }

    /** A process with these registers of its parent is in slot `r`, which was free; all others are still there. */
    twostate predicate Entered(r: int, esp: bv32, ebp: bv32)
      reads pcb, occupants
    {
      && pcb.Length == occupants.Length && 0 <= r < pcb.Length && !old(occupants[r]) && occupants[r]
      && pcb[r] == Pcb(r, esp, ebp) && PcbsKept()
      && forall p :: 0 <= p < pcb.Length && old(occupants[p]) ==> occupants[p]
    }

    /** The stores of execute for a process in slot `pid`. */
    method Install(pid: int, esp: bv32, ebp: bv32)
      requires Sized() && 0 <= pid < SLOTS
      modifies occupants, previous, processNum, pcb, this`page, this`esp0, this`chains, this`owner, this`depth
      ensures Now() == old(Now()).Started(pid, esp, ebp)
      ensures !old(occupants[pid]) ==> Entered(pid, esp, ebp)
    {
      Claim(pid);
      page := PageEntry(pid);
      pcb[pid] := Pcb(pid, esp, ebp);
      esp0 := StackTop(pid);
    }

    /** execute, called on the kernel stack of the running process. `valid` says whether the command names an executable.
        It fails exactly on an invalid command or a full table, changing nothing. Otherwise the new process goes to the
        visible terminal, and the kernel keeps its invariant if and only if that is the running one. */
    method Execute(valid: bool, esp: bv32, ebp: bv32) returns (r: int)
      requires Valid() && count >= TERMINALS && InStack(Now().Process(), esp)
      modifies occupants, previous, processNum, pcb, this`page, this`esp0, this`chains, this`owner, this`depth
      ensures r == -1 <==> !valid || forall p :: 0 <= p < SLOTS ==> old(occupants[..])[p]
      ensures r == -1 ==> Now() == old(Now())
      ensures r != -1 ==> 3 <= r == FirstFree(old(occupants[..])) && Now() == old(Now()).Started(r, esp, ebp)
      ensures r != -1 ==> (Valid() <==> active == old(Now().Running())) && (Explained(Now()) <==> active == old(Now().Running()))
      ensures r != -1 ==> r < SLOTS && IsTop(r, esp0)
      ensures r != -1 ==> Entered(r, esp, ebp)
      ensures r != -1 && Valid() ==> processNum[active] == r && chains == Pushed(old(chains), active, r)
    {
      if !valid {
        return -1;
      }
      r := FindSlot();
      if r == -1 {
        return;
      }
      Launch(r, esp, ebp);
    }

    /** execute, once it has found a free slot. */
    method Launch(p: int, esp: bv32, ebp: bv32)
      requires Valid() && count >= TERMINALS && InStack(Now().Process(), esp) && 0 <= p == FirstFree(occupants[..])
      modifies occupants, previous, processNum, pcb, this`page, this`esp0, this`chains, this`owner, this`depth
      ensures 3 <= p < SLOTS && Now() == old(Now()).Started(p, esp, ebp)
      ensures (Valid() <==> active == old(Now().Running())) && (Explained(Now()) <==> active == old(Now().Running()))
      ensures IsTop(p, esp0) && Entered(p, esp, ebp)
      ensures 0 <= active < processNum.Length && processNum[active] == p
      ensures Valid() ==> |old(chains)| == TERMINALS && chains == Pushed(old(chains), active, p)
    {
      StartedOkIff(Now(), esp, ebp);
      StackTopIsTop(p);
      Install(p, esp, ebp);
    }

    /** The search of halt for the terminal that runs a process. */
    method FindTerminal(pid: int, ghost t: int) returns (i: int)
      requires Valid() && count >= TERMINALS && 0 <= t < TERMINALS && processNum[t] == pid
      ensures i == t
    {
      i := 0;
      while processNum[i] != pid
        invariant 0 <= i <= t
        decreases t - i
      {
        i := i + 1;
      }
      TopIsHere(Now().table, i, t);
    }

    /** The stores of halt for a process that is not a root shell. */
    method Leave(term: int, child: int)
      requires Sized() && 0 <= term < TERMINALS && chains[term] != [] && child == processNum[term]
      requires 0 <= child < SLOTS && 0 <= previous[child] < SLOTS
      modifies occupants, processNum, this`page, this`esp0, this`chains, this`owner
      ensures Now() == old(Now()).Left(term)
    {
      ghost var r := Now().table.Pop(term);
      var pid := processNum[term];
      occupants[pid] := false;
      processNum[term] := previous[pid];
      pid := processNum[term];
      page := PageEntry(pid);
      esp0 := pcb[child].esp;
      chains, owner := r.chains, r.owner;
    }

    method Free(pid: int)
      requires Sized() && 0 <= pid < TERMINALS
      modifies occupants, this`chains, this`owner
      ensures Now() == old(Now()).(table := old(Now()).table.Freed(pid))
    {
      ghost var r := Now().table.Freed(pid);
      occupants[pid] := false;
      chains, owner := r.chains, r.owner;
    }

    /** The restart of a root shell: its slot is freed, and execute finds it again as the first free one. */
    method Restart(pid: int, esp: bv32, ebp: bv32)
      requires Valid() && count >= TERMINALS && 0 <= pid < 3
      modifies occupants, previous, processNum, pcb, this`page, this`esp0, this`chains, this`owner, this`depth
      ensures Now() == old(Now()).Restarted(pid, esp, ebp)
    {
      ghost var s := Now().table;
      RootsTaken(s);
      Free(pid);
      FreedIsFirst(s.occupied, occupants[..], pid);
      var slot := FindSlot();
      Install(slot, esp, ebp);
    }

    /** halt, called on the kernel stack of the running process. A root shell is started again in its own old slot, and
        when its terminal is visible no chain changes; any other process leaves its chain and its parent runs again. The
        kernel keeps its invariant, unless a root shell halts on a hidden terminal. The registers returned are those
        loaded for the parent. */
    method Halt(esp: bv32, ebp: bv32) returns (loaded: Regs)
      requires Valid() && count >= TERMINALS && InStack(Now().Process(), esp)
      modifies occupants, previous, processNum, pcb, this`page, this`esp0, this`chains, this`owner, this`depth
      ensures var s := old(Now()); var p := s.Process();
        if p < 3 then 0 <= p == s.Running() && Now() == s.Restarted(p, esp, ebp)
        else 0 <= s.table.previous[p] < SLOTS && Now() == s.Left(s.Running())
      ensures var s := old(Now()); var fits := s.Process() < 3 ==> s.active == s.Running();
        (Valid() <==> fits) && (Explained(Now()) <==> fits)
      ensures Valid() && old(Now().Process()) < 3 ==> chains == old(chains)
      ensures var s := old(Now()); var p := s.Process();
        p >= 3 ==> loaded == Regs(s.pcbs[p].esp, s.pcbs[p].ebp) && esp0 == loaded.esp
    {
      ghost var s := Now();
      ghost var t, p := s.Running(), s.Process();
      TopIsHere(s.table, t, t);
      PcbFound(p, esp);
      assert s.table.Placed(p);
      var child := PcbIndex(GetPcb(esp));
      var term := FindTerminal(pcb[child].processNum, t);
      var pid := processNum[term];
      if pid == 0 || pid == 1 || pid == 2 {
        RestartHere(pid, esp, ebp);
        loaded := Regs(esp, ebp);
      } else {
        loaded := LeaveHere(term, child);
      }
    }

    /** The two ways of halt, with what they do to the invariant. */
    method RestartHere(pid: int, esp: bv32, ebp: bv32)
      requires Valid() && count >= TERMINALS && 0 <= pid < 3 && pid == Now().Process()
      modifies occupants, previous, processNum, pcb, this`page, this`esp0, this`chains, this`owner, this`depth
      ensures pid == old(Now().Running()) && Now() == old(Now()).Restarted(pid, esp, ebp)
      ensures (Valid() <==> active == pid) && (Explained(Now()) <==> active == pid)
      ensures Valid() ==> chains == old(chains)
    {
      RootIsAlone(Now());
      RestartedOkIff(Now(), esp, ebp);
      if active == pid {
        RestartedOk(Now(), esp, ebp);
      }
      Restart(pid, esp, ebp);
    }

    method LeaveHere(term: int, child: int) returns (loaded: Regs)
      requires Valid() && count >= TERMINALS && term == Now().Running() && child == Now().Process() >= 3
      modifies occupants, previous, processNum, pcb, this`page, this`esp0, this`chains, this`owner, this`depth
      ensures 0 <= old(Now()).table.previous[child] < SLOTS && Now() == old(Now()).Left(term)
      ensures Valid() && Explained(Now())
      ensures var c := old(Now()).pcbs[child]; loaded == Regs(c.esp, c.ebp) && esp0 == loaded.esp
    {
      LeftOk(Now());
      TopIsHere(Now().table, term, term);
      Leave(term, child);
      loaded := Regs(pcb[child].esp, pcb[child].ebp);
      assert SameMachine(Now(), Now());
    }

    /** Alt-F1..F3: only the visible terminal changes. The handler runs only while the keyboard line is unmasked. */
    method Show(t: int)
      requires Valid() && !masked && 0 <= t < TERMINALS
      modifies this`active
      ensures Valid() && Now() == old(Now()).(active := t)
    {
      active := t;
    }

    /** The store of the interrupted registers into terminal `t`. */
    method SaveRegs(t: int, regs: Regs)
      requires 0 <= t < saved.Length
      modifies saved, this`history
      ensures Now() == old(Now()).(saved := old(saved[..])[t := regs], history := old(history) + [Save(t, regs)])
    {
      saved[t] := regs;
      history := history + [Save(t, regs)];
    }

    /** One timer interrupt (PIT_handler and schedule_handling). The registers returned are those loaded at the end. A
        booting tick and a round-robin tick leave the running process an empty kernel stack of its own. */
    method Tick(regs: Regs) returns (loaded: Regs)
      requires Valid()
      modifies occupants, previous, processNum, pcb, saved, this`page, this`esp0, this`active, this`masked, this`count, this`next,
               this`chains, this`owner, this`depth, this`history
      ensures Valid() && Ticked(old(Now()), regs, Now())
      ensures old(count) == 4 ==> Ran(history, next) && loaded == Latest(history, next)
      ensures old(Now().Resumable() && OnStack(Now(), TickEvent(regs))) ==>
        Now().Resumable() && (old(count) == 4 ==> Now().OnOwnStack(loaded.esp))
      ensures old(count) != TERMINALS ==> Now().TopLoaded()
    {
      ghost var s := Now();
      loaded := TickByPhase(regs);
      if s.Resumable() && OnStack(s, TickEvent(regs)) {
        TickParks(s, regs, Now());
      }
      if s.count != TERMINALS {
        TickLoadsTop(s, regs, Now());
      }
    }

    /** schedule_handling, by the phase of the scheduler. */
    method TickByPhase(regs: Regs) returns (loaded: Regs)
      requires Valid()
      modifies occupants, previous, processNum, pcb, saved, this`page, this`esp0, this`active, this`masked, this`count, this`next,
               this`chains, this`owner, this`depth, this`history
      ensures Valid() && Ticked(old(Now()), regs, Now())
      ensures old(count) == 4 ==> Ran(history, next) && loaded == Latest(history, next) && 0 <= next < saved.Length && loaded == saved[next]
    {
      ghost var s := Now();
      loaded := regs;
      if count < TERMINALS {
        BootTickOk(s, regs);
        BootStep(regs);
      } else if count == TERMINALS {
        LastBootTickOk(s, regs);
        LastBootStep(regs);
      } else {
        loaded := RoundOne(regs);
      }
    }

    /** The first four ticks: each terminal runs its root shell, terminal 2 is running and terminal 0 is visible. */
    method Boot(regs: Regs)
      requires Valid() && count == 0 && chains == [[], [], []]
      modifies occupants, previous, processNum, pcb, saved, this`page, this`esp0, this`active, this`masked, this`count, this`next,
               this`chains, this`owner, this`depth, this`history
      ensures Valid() && count == 4 && next == 2 && active == 0 && chains == [[0], [1], [2]]
      ensures FirstFree(occupants[..]) == 3 && Now().Process() == 2
    {
      BootChains();
      BootOne(regs);
      BootOne(regs);
      BootOne(regs);
      BootLast(regs);
      ThreeShells(Now().table);
    }

    /** A booting tick puts the next root shell on its terminal. */
    method BootOne(regs: Regs)
      requires Valid() && count < TERMINALS
      modifies occupants, previous, processNum, pcb, saved, this`page, this`esp0, this`active, this`masked, this`count, this`next,
               this`chains, this`owner, this`depth, this`history
      ensures Valid() && |old(chains)| == TERMINALS && 0 <= old(count) < TERMINALS
      ensures count == old(count) + 1 && chains == Pushed(old(chains), old(count), old(count))
    {
      var _ := Tick(regs);
    }

    method BootLast(regs: Regs)
      requires Valid() && count == TERMINALS
      modifies occupants, previous, processNum, pcb, saved, this`page, this`esp0, this`active, this`masked, this`count, this`next,
               this`chains, this`owner, this`depth, this`history
      ensures Valid() && count == 4 && next == 2 && active == 0 && chains == old(chains)
    {
      var _ := Tick(regs);
    }

    /** A tick in round robin: the next terminal runs, with the registers of its latest tick, and the keyboard is on
        exactly when it is the visible one. */
    method RoundOne(regs: Regs) returns (loaded: Regs)
      requires Valid() && count == 4
      modifies saved, this`page, this`esp0, this`masked, this`next, this`history
      ensures Valid() && Ticked(old(Now()), regs, Now())
      ensures next == Turn(old(next), 1) && (masked <==> next != active)
      ensures Ran(history, next) && loaded == Latest(history, next) && loaded == saved[next]
      ensures saved.Length == 3 && saved[old(next)] == regs
      ensures forall t :: 0 <= t < 3 && t != old(next) ==> saved[t] == old(saved[t])
    {
      RoundTickOk(Now(), regs);
      loaded := RoundStep(regs);
    }

    /** A tick while a root shell is still to be started. */
    method BootStep(regs: Regs)
      requires Sized() && Now().Scheduled() && count < TERMINALS && FirstFree(occupants[..]) == count
      modifies occupants, previous, processNum, pcb, saved, this`page, this`esp0, this`active, this`masked, this`count,
               this`chains, this`owner, this`depth, this`history
      ensures Now() == old(Now()).BootTick(regs)
    {
      ghost var s := Now();
      masked := true;
      if count != 0 {
        SaveRegs(active, regs);
      }
      active := count;
      count := count + 1;
      assert Now() == (if s.count == 0 then s else s.Interrupted(regs)).(masked := true, active := s.count, count := s.count + 1);
      var pid := FindSlot();
      Install(pid, regs.esp, regs.ebp);
    }

    /** The tick after the last root shell has started: terminal 0 becomes visible. */
    method LastBootStep(regs: Regs)
      requires Sized() && Now().Scheduled() && count == TERMINALS
      modifies saved, this`active, this`masked, this`count, this`history
      ensures Now() == old(Now()).LastBootTick(regs)
    {
      masked := true;
      SaveRegs(2, regs);
      count := count + 1;
      active := 0;
    }

    /** A tick in round robin. */
    method RoundStep(regs: Regs) returns (loaded: Regs)
      requires Sized() && Now().Scheduled() && count == 4 && 0 <= processNum[(next + 1) % 3] < SLOTS
      modifies saved, this`page, this`esp0, this`masked, this`next, this`history
      ensures Now() == old(Now()).RoundTick(regs) && loaded == saved[next]
    {
      ghost var s := Now();
      masked := true;
      SaveRegs(next, regs);
      Rotate();
      assert Now() == s.Interrupted(regs).(next := next, masked := next != active);
      Map(processNum[next]);
      loaded := saved[next];
    }

    /** The next terminal's turn; the keyboard is on only while the visible terminal runs. */
    method Rotate()
      requires 0 <= next < TERMINALS
      modifies this`next, this`masked
      ensures next == (old(next) + 1) % 3 && Now() == old(Now()).(next := next, masked := next != active)
    {
      next := next + 1;
      next := next % 3;
      if next != active {
        masked := true;
      } else {
        masked := false;
      }
    }

    /** The page and the kernel stack of process `pid`. */
    method Map(pid: int)
      requires 0 <= pid < SLOTS
      modifies this`page, this`esp0
      ensures Now() == old(Now()).(page := PageEntry(pid), esp0 := StackTop(pid))
    {
      page := PageEntry(pid);
      esp0 := StackTop(pid);
    }

    /** Walking down process_previous from a terminal's process ends at its root shell. */
    method RootOf(t: int) returns (p: int)
      requires Valid() && count >= TERMINALS && 0 <= t < TERMINALS
      ensures p == t
    {
      ghost var s := Now().table;
      p := processNum[t];
      ghost var i := |s.chains[t]| - 1;
      RootIff(s, t, i);
      while p >= 3
        invariant 0 <= i < |s.chains[t]| && p == s.chains[t][i] && 0 <= p < SLOTS && (p < 3 <==> i == 0)
        decreases i
      {
        assert s.LinkOk(t, i);
        RootIff(s, t, i - 1);
        p := previous[p];
        i := i - 1;
      }
    }

    /** One call of execute by the running process; -1 also when the registers are not on its kernel stack. */
    method ExecuteAt(call: Regs) returns (r: int)
      requires Valid() && count >= TERMINALS && active == Now().Running()
      modifies occupants, previous, processNum, pcb, this`page, this`esp0, this`chains, this`owner, this`depth
      ensures Valid() && |chains| == |old(chains)| == TERMINALS && 0 <= active < TERMINALS
      ensures r != -1 ==> 3 <= r < SLOTS && processNum[active] == r && chains == Pushed(old(chains), active, r)
      ensures r != -1 ==> Entered(r, call.esp, call.ebp)
    {
      TopIsHere(Now().table, active, active);
      if !InStack(processNum[active], call.esp) {
        return -1;
      }
      r := Execute(true, call.esp, call.ebp);
    }

    /** One call of halt by the running process, which is not a root shell. */
    method HaltAt(exit: Regs) returns (ok: bool, loaded: Regs)
      requires Valid() && count >= TERMINALS && active == Now().Running() && 3 <= processNum[active] < SLOTS
      modifies occupants, previous, processNum, pcb, this`page, this`esp0, this`chains, this`owner, this`depth
      ensures Valid() && |old(chains)| == TERMINALS && 0 <= active < TERMINALS && old(chains)[active] != []
      ensures ok ==> chains == Popped(old(chains), active) && pcb[..] == old(pcb[..])
      ensures ok ==> var c := old(pcb[..])[old(processNum[active])]; loaded == Regs(c.esp, c.ebp)
    {
      TopIsHere(Now().table, active, active);
      if !InStack(processNum[active], exit.esp) {
        return false, exit;
      }
      loaded := Halt(exit.esp, exit.ebp);
      ok := true;
    }

    /** Any properly nested run of successful executes and halts above the current process restores the occupancy
        table, every terminal's process, the page mapping and the PCBs of the processes that were there, and every halt
        loads exactly the registers of the execute that it matches. */
    method RunNested(n: Nest) returns (ok: bool, loads: seq<Regs>)
      requires Valid() && count >= TERMINALS && active == Now().Running()
      modifies occupants, previous, processNum, pcb, this`page, this`esp0, this`chains, this`owner, this`depth
      ensures Valid()
      ensures ok ==> chains == old(chains) && PcbsKept()
      ensures ok ==> occupants[..] == old(occupants[..]) && processNum[..] == old(processNum[..]) && page == old(page)
      ensures ok ==> loads == Resumed(n)
      decreases n, 0
    {
      match n
      case Done =>
        return true, [];
      case Session(call, inner, exit, rest) =>
        ok, loads := RunSession(call, inner, exit);
        if ok {
          var more;
          ok, more := RunNested(rest);
          loads := loads + more;
        }
    }

    /** One execute, what runs inside it, and its halt. */
    method RunSession(call: Regs, inner: Nest, exit: Regs) returns (ok: bool, loads: seq<Regs>)
      requires Valid() && count >= TERMINALS && active == Now().Running()
      modifies occupants, previous, processNum, pcb, this`page, this`esp0, this`chains, this`owner, this`depth
      ensures Valid()
      ensures ok ==> chains == old(chains) && PcbsKept()
      ensures ok ==> occupants[..] == old(occupants[..]) && processNum[..] == old(processNum[..]) && page == old(page)
      ensures ok ==> loads == Resumed(inner) + [call]
      decreases inner, 2
    {
      ghost var s := Now();
      var r := ExecuteAt(call);
      if r == -1 {
        return false, [];
      }
      PoppedPushed(s.table.chains, active, r);
      ok, loads := RunInside(r, inner, exit);
      if ok {
        ChainsRestoreAll(s, Now());
      }
    }

    /** What runs above process `r`, and then its halt. */
    method RunInside(r: int, inner: Nest, exit: Regs) returns (ok: bool, loads: seq<Regs>)
      requires Valid() && count >= TERMINALS && active == Now().Running() && 3 <= r < SLOTS && processNum[active] == r
      modifies occupants, previous, processNum, pcb, this`page, this`esp0, this`chains, this`owner, this`depth
      ensures Valid() && |old(chains)| == TERMINALS && 0 <= active < TERMINALS && old(chains)[active] != []
      ensures ok ==> chains == Popped(old(chains), active) && PcbsKept()
      ensures ok ==> loads == Resumed(inner) + [Regs(old(pcb[r]).esp, old(pcb[r]).ebp)]
      decreases inner, 1
    {
      TopIsHere(Now().table, active, active);
      ok, loads := RunNested(inner);
      if !ok {
        return;
      }
      var loaded;
      ok, loaded := HaltAt(exit);
      loads := loads + [loaded];
    }

    /** The machine takes exactly the steps of the state machine, and keeps its invariant exactly when processes are
        started from the visible terminal. */
    method Handle(e: Event)
      requires Valid() && Enabled(Now(), e)
      modifies occupants, previous, processNum, pcb, saved, this`page, this`esp0, this`active, this`masked, this`count, this`next,
               this`chains, this`owner, this`depth, this`history
      ensures Step(old(Now()), e, Now())
      ensures (Valid() <==> old(Orderly(Now(), e))) && (Explained(Now()) <==> old(Orderly(Now(), e)))
    {
      ghost var s := Now();
      match e
      case TickEvent(regs) => var _ := Tick(regs);
      case ShowEvent(u) => Show(u);
      case ExecuteEvent(valid, regs) => var _ := Execute(valid, regs.esp, regs.ebp);
      case HaltEvent(regs) => var _ := Halt(regs.esp, regs.ebp);
      StepKeepsOk(s, e, Now());
    }

    /** Round-robin ticks run the terminals in turn, and after each of them the keyboard is on exactly when the
        running terminal is the visible one. From the third tick on, each one loads exactly the registers that the tick
        two before it found, which interrupted the same terminal. */
    method RoundRobin(regs: seq<Regs>) returns (ran: seq<int>, loads: seq<Regs>)
      requires Valid() && count == 4
      modifies saved, this`page, this`esp0, this`masked, this`next, this`history
      ensures Valid() && ran == Turns(old(next), |regs|)
      ensures regs != [] ==> ran[|ran| - 1] == next && (masked <==> next != active)
      ensures |loads| == |regs| && Lagged(regs, loads)
    {
      ran, loads := [], [];
      ghost var start := next;
      for i := 0 to |regs|
        invariant Valid() && ran == Turns(start, i) && next == Turn(start, i)
        invariant i > 0 ==> (masked <==> next != active)
        invariant |loads| == i && Lagged(regs, loads)
        invariant Recent(regs, i)
      {
        TurnStep(start, i);
        var loaded := RoundAt(regs, i, loads);
        ran, loads := ran + [next], loads + [loaded];
      }
    }

    /** The registers found by the last two ticks are those saved for the two terminals before the one running. */
    ghost predicate Recent(regs: seq<Regs>, i: int)
      requires 0 <= i <= |regs|
      reads this, saved
    {
      && saved.Length == 3 && 0 <= next < 3
      && (i >= 1 ==> saved[Before(next)] == regs[i - 1])
      && (i >= 2 ==> saved[Before(Before(next))] == regs[i - 2])
    }

    /** Tick `i` of a run of round-robin ticks. */
    method RoundAt(regs: seq<Regs>, i: nat, ghost loads: seq<Regs>) returns (loaded: Regs)
      requires Valid() && count == 4 && i < |regs| && Recent(regs, i) && |loads| == i && Lagged(regs, loads)
      modifies saved, this`page, this`esp0, this`masked, this`next, this`history
      ensures Valid() && next == Turn(old(next), 1) && (masked <==> next != active)
      ensures Recent(regs, i + 1) && Lagged(regs, loads + [loaded])
    {
      TurnBefore(next);
      loaded := RoundOne(regs[i]);
      LaggedStep(regs, loads, loaded);
    }
  }

  /** Right after the boot ticks terminal 0 is visible and terminal 2 still runs. Its shell calls execute, and nothing
      explains the kernel any more. */
  method HiddenExecuteFails(regs: Regs) returns (m: Machine, r: int)
    ensures r == 3 && !Explained(m.Now())
  {
    m := new Machine();
    m.Boot(regs);
    OffsetInStack(2, 0);
    r := m.Execute(true, PcbOf(2), 0);
  }

  /** The terminal whose turn it is `n` round-robin ticks after terminal `start`. */
  function Turn(start: int, n: int): int {
    (start + n) % 3
  }

  /** The terminals run by `n` round-robin ticks. */
  function Turns(start: int, n: nat): (r: seq<int>)
    ensures |r| == n && (n > 0 ==> r[n - 1] == Turn(start, n))
  {
    seq(n, j => Turn(start, j + 1))
  }

  lemma TurnStep(start: int, n: nat)
    ensures Turn(Turn(start, n), 1) == Turn(start, n + 1) && Turns(start, n + 1) == Turns(start, n) + [Turn(start, n + 1)]
  {
  }

  /** What a tick loads is what the tick two before it found. */
  ghost predicate Lagged(found: seq<Regs>, loads: seq<Regs>) {
    |loads| <= |found| && forall j :: 2 <= j < |loads| ==> loads[j] == found[j - 2]
  }

  lemma LaggedStep(found: seq<Regs>, loads: seq<Regs>, r: Regs)
    requires Lagged(found, loads) && |loads| < |found| && (|loads| >= 2 ==> r == found[|loads| - 2])
    ensures Lagged(found, loads + [r])
  {
  }

  /** The terminal whose turn was before. */
  function Before(t: int): (r: int)
    requires 0 <= t < 3
    ensures 0 <= r < 3 && r != t
  {
    if t == 0 then 2 else t - 1
  }

  lemma TurnBefore(t: int)
    requires 0 <= t < 3
    ensures 0 <= Turn(t, 1) < 3 && Before(Turn(t, 1)) == t && Before(Before(t)) == Turn(t, 1)
  {
  }

  /** Any three consecutive round-robin ticks run each terminal once. */
  lemma EachTurnOnce(start: int, n: nat, i: nat)
    requires i + 2 < n
    ensures var r := Turns(start, n); {r[i], r[i + 1], r[i + 2]} == {0, 1, 2}
  {
    var k := Turn(start, i + 1);
    assert Turn(start, i + 2) == (k + 1) % 3 && Turn(start, i + 3) == (k + 2) % 3;
  }

  /** A slot freed among taken lower ones is the first free slot. */
  lemma FreedIsFirst(before: seq<bool>, after: seq<bool>, p: int)
    requires |before| == |after| && 0 <= p < |after| && after == before[p := false]
    requires forall i :: 0 <= i < p ==> before[i]
    ensures FirstFree(after) == p
  {
    assert !after[p] && forall i :: 0 <= i < p ==> after[i] == before[i];
  }
}
