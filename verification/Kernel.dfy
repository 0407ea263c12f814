/**
 The kernel's globals and the routines that update them in place. Each routine is proved to have
 the effect that ProcessTable.dfy gives it; Refinement.dfy and KernelRuns.dfy say what follows.
 */
module Kernel {
  import opened Common
  import opened KernelStack
  import opened CallStacks
  import opened ProcessTable
  import Paging

  class Globals {
    const pcbStatusArray: array<bool>
    const pcbs: array<Pcb>
    const terminal: array<Task>
    const shellEspArray: array<int>
    const tables: Paging.Tables
    ghost var videoPage: seq<int>
    var currPid: nat
    var currTerm: nat
    var termOnScreen: nat
    var head: nat
    var tail: nat
    var activeProcNum: int
    var activeRootShell: int
    var esp0: int
    var cr3: nat
    var irq0: bool
    var mem: Memory
    var calls: nat

    ghost predicate Valid()
      reads this, pcbStatusArray, pcbs, terminal, shellEspArray, tables.dir, tables.table, tables.videoTable
    {
      && pcbStatusArray.Length == pcbs.Length == shellEspArray.Length == NUM_TOTAL_PROC && terminal.Length == 3
      && InRange(Snapshot()) && tables.Holds(videoPage)
    }

    ghost function Snapshot(): State
      reads this, pcbStatusArray, pcbs, terminal, shellEspArray
    {
      State(pcbStatusArray[..], pcbs[..], terminal[..], shellEspArray[..], videoPage,
            currPid, currTerm, termOnScreen, head, tail, activeProcNum, activeRootShell,
            esp0, cr3, irq0, mem, calls)
    }

    /** The statically initialised tables, and the page tables as `init_paging` leaves them. */
    constructor (mem: Memory, tables: Paging.Tables)
      requires tables.Holds([0xB8, 0xBA, 0xBC, 0xB8, 0xB8, 0xB8])
      ensures Valid() && Snapshot() == PowerOn(mem) && this.tables == tables
      ensures fresh(pcbStatusArray) && fresh(pcbs) && fresh(terminal) && fresh(shellEspArray)
    {
      pcbStatusArray := new bool[] [true, false, false, false, false, false];
      pcbs := new Pcb[] [ZeroPcb, ZeroPcb, ZeroPcb, ZeroPcb, ZeroPcb, ZeroPcb];
      terminal := new Task[] [Task(0, 0, 0, false), Task(0, 0, 0, false), Task(0, 0, 0, false)];
      shellEspArray := new int[] [0, 0, 0, 0, 0, 0];
      this.tables, videoPage := tables, [0xB8, 0xBA, 0xBC, 0xB8, 0xB8, 0xB8];
      currPid, currTerm, termOnScreen, head, tail := 0, 0, 0, 0, 0;
      activeProcNum, activeRootShell, esp0, cr3, irq0 := 0, 0, 0x800000, 0, true;
      this.mem, calls := mem, 1;
      new;
      hide Paging.Tables.Holds, InRange;
      assert pcbStatusArray[..] == PowerOn(mem).status && pcbs[..] == PowerOn(mem).pcb;
      assert terminal[..] == PowerOn(mem).terminal && shellEspArray[..] == PowerOn(mem).shellEsp;
    }

    /** The search of `execute` for a free PID, stopped at the end of the table. */
    method FindFree() returns (i: nat)
      requires Valid()
      ensures i == LowestFree(Snapshot().status, 0)
    {
      hide Paging.Tables.Holds;
      i := 0;
      while i < NUM_TOTAL_PROC && pcbStatusArray[i]
        invariant i <= NUM_TOTAL_PROC
        invariant LowestFree(Snapshot().status, 0) == LowestFree(Snapshot().status, i)
      {
        i := i + 1;
      }
    }

    method Execute(req: Request, fr: Frame) returns (out: Output)
      requires Valid()
      modifies this, pcbStatusArray, pcbs, terminal, shellEspArray, tables.table
      ensures Valid()
      ensures (Snapshot(), out) == old(ProcessTable.Execute(Snapshot(), req, fr))
    {
      hide Paging.Tables.Holds, ProcessTable.Start;
      irq0 := false;
      match req
      case BadLength | NoSuchFile | ReadFailed | NotElf => return Refused(-1);
      case Clear =>
        irq0 := true;
        return Refused(0);
      case Program(eip, loaded) =>
        out := Load(eip, loaded, fr);
    }

    /** Lines 120-142 of syscall.c: a free PID, and the image. */
    method Load(eip: int, loaded: int, fr: Frame) returns (out: Output)
      requires Valid()
      modifies this, pcbStatusArray, pcbs, terminal, shellEspArray, tables.table
      ensures Valid()
      ensures (Snapshot(), out) == old(ProcessTable.Execute(Snapshot().(irq0 := false), Program(eip, loaded), fr))
    {
      hide Paging.Tables.Holds, ProcessTable.Start, ProcessTable.Take;
      irq0 := false;
      var i := FindFree();
      if i == NUM_TOTAL_PROC {
        irq0 := true;
        return Refused(0);
      }
      if loaded == -1 || loaded == 0 {
        Abandon(i);
        return Refused(-1);
      }
      out := Start(i, eip, fr);
    }

    /** Lines 129-142 when nothing could be loaded: the PID that was taken stays busy. */
    method Abandon(i: nat)
      requires Valid() && i < NUM_TOTAL_PROC
      modifies this`cr3, this`activeRootShell, this`irq0, pcbStatusArray
      ensures Valid()
      ensures Snapshot() == old(ProcessTable.Take(Snapshot(), i).(cr3 := currPid, irq0 := true))
    {
      hide Paging.Tables.Holds, ProcessTable.Take;
      Take(i);
      cr3 := currPid;
      irq0 := true;
    }

    method Take(i: nat)
      requires Valid() && i < NUM_TOTAL_PROC
      modifies this`cr3, this`activeRootShell, pcbStatusArray
      ensures Valid() && Snapshot() == old(ProcessTable.Take(Snapshot(), i))
    {
      hide Paging.Tables.Holds;
      cr3 := i;
      pcbStatusArray[i] := true;
      if i < 3 { activeRootShell := activeRootShell + 1; }
    }

    method Claim(i: nat)
      requires Valid() && i < NUM_TOTAL_PROC
      modifies this, pcbStatusArray, pcbs
      ensures Valid() && Snapshot() == old(ProcessTable.Claim(Snapshot(), i))
    {
      hide Paging.Tables.Holds, ProcessTable.Take;
      Take(i);
      activeProcNum := activeProcNum + 1;
      if activeProcNum > 3 {
        pcbs[i] := pcbs[i].(thePid := i, parent := Some(currPid));
      } else {
        pcbs[i] := pcbs[i].(thePid := i, parent := None);
      }
      currPid := i;
    }

    method Prepare(i: nat)
      requires Valid() && i < NUM_TOTAL_PROC
      modifies this, tables.table
      ensures Valid() && Snapshot() == old(ProcessTable.Prepare(Snapshot(), i))
    {
      hide Paging.Tables.Holds;
      esp0 := StackTop(i);
      tables.ShowOn(i, currTerm, videoPage);
      videoPage := videoPage[i := VIDEO_MEMORY_IN_PTE + 2 * currTerm];
      irq0 := true;
    }

    method LeaveFrame(i: nat, p: nat, esp: int, fr: Frame)
      requires Valid() && i < NUM_TOTAL_PROC && p < NUM_TOTAL_PROC
      modifies this, pcbs, terminal, shellEspArray
      ensures Valid() && Snapshot() == old(ProcessTable.LeaveFrame(Snapshot(), i, p, esp, fr))
    {
      hide Paging.Tables.Holds;
      var a := esp - fr.toFrame;
      pcbs[p] := pcbs[p].(theEsp := esp);
      terminal[currTerm] := terminal[currTerm].(pid := i);
      shellEspArray[pcbs[p].thePid] := a;
      mem := mem[a := Data(fr.ebp)][a + 4 := ReturnInto(calls)];
      calls := calls + 1;
    }

    method Start(i: nat, eip: int, fr: Frame) returns (out: Output)
      requires Valid() && i < NUM_TOTAL_PROC
      modifies this, pcbStatusArray, pcbs, terminal, shellEspArray, tables.table
      ensures Valid()
      ensures (Snapshot(), out) == old(ProcessTable.Start(Snapshot(), i, eip, fr))
    {
      hide Paging.Tables.Holds;
      var esp := esp0 - fr.toEsp;
      Claim(i);
      if activeRootShell < 3 {
        pcbs[i] := pcbs[i].(shellFlag := true, cmdEip := eip);
        return Deferred(i);
      }
      Prepare(i);
      if i < 3 {
        return Restarted(currTerm, eip);
      }
      if pcbs[i].parent == None {
        return Silent;
      }
      out := Launched(currTerm, i, eip, Caller(calls, fr.ebp, esp));
      LeaveFrame(i, pcbs[i].parent.value, esp, fr);
    }

    method Resume(p: nat, status: nat) returns (out: Output)
      requires Valid() && p < NUM_TOTAL_PROC
      modifies this, pcbStatusArray, terminal
      ensures Valid()
      ensures (Snapshot(), out) == old(ProcessTable.Resume(Snapshot(), p, status))
    {
      hide Paging.Tables.Holds;
      pcbStatusArray[currPid] := false;
      esp0 := pcbs[p].theEsp;
      currPid := pcbs[p].thePid;
      terminal[currTerm] := terminal[currTerm].(pid := currPid);
      cr3 := currPid;
      irq0 := true;
      var a := shellEspArray[currPid];
      out := Returned(currTerm, ReturnTarget(mem, a + 4), Peek(mem, a), esp0, status);
    }

    method Halt(status: nat, eip: int, size: nat) returns (out: Output)
      requires Valid()
      modifies this, pcbStatusArray, pcbs, terminal, shellEspArray, tables.table
      ensures Valid()
      ensures (Snapshot(), out) == old(Halted(Snapshot(), status, eip, size))
    {
      hide Paging.Tables.Holds, ProcessTable.Execute, ProcessTable.Resume;
      activeProcNum := activeProcNum - 1;
      if currPid < 3 {
        pcbStatusArray[currPid] := false;
        activeRootShell := activeRootShell - 1;
        out := Execute(Program(eip, size), NoFrame);
        return;
      }
      if pcbs[currPid].parent == None {
        return Silent;
      }
      out := Resume(pcbs[currPid].parent.value, status);
    }

    method SaveFrame(cpu: Cpu, kernelEsp: int)
      requires Valid()
      modifies this, pcbs
      ensures Valid() && Snapshot() == old(Saving(Snapshot(), cpu, kernelEsp))
    {
      hide Paging.Tables.Holds;
      var entry := if cpu.user.Some? then esp0 else kernelEsp;
      mem := PushAll(mem, entry, PushOrder(cpu));
      pcbs[currPid] := pcbs[currPid].(greatEsp := entry - FrameBytes(cpu));
    }

    method Enter(future: Task)
      requires Valid() && future.pid < NUM_TOTAL_PROC && future.term < 3
      modifies this`esp0, this`currTerm, this`currPid, this`cr3
      ensures Valid() && Snapshot() == old(ProcessTable.Enter(Snapshot(), future))
    {
      hide Paging.Tables.Holds;
      esp0 := StackTop(future.pid);
      currTerm := future.term;
      currPid := future.pid;
      cr3 := future.pid;
    }

    method SwitchTo(future: Task, cpu: Cpu, kernelEsp: int) returns (out: Output)
      requires Valid() && future.pid < NUM_TOTAL_PROC && future.term < 3
      modifies this, pcbs
      ensures Valid()
      ensures (Snapshot(), out) == old(ProcessTable.SwitchTo(Snapshot(), future, cpu, kernelEsp))
    {
      hide Paging.Tables.Holds, ProcessTable.Enter;
      var from := currTerm;
      Enter(future);
      var pcb := pcbs[future.pid];
      var at := if cpu.user.Some? then None else Some(kernelEsp);
      if pcb.shellFlag {
        pcbs[future.pid] := pcb.(shellFlag := false);
        out := Switched(from, cpu, at, future.term, Fresh(pcb.cmdEip));
      } else {
        var popped := PopFrame(mem, pcb.greatEsp);
        out := Switched(from, cpu, at, future.term,
                        Resumed(popped, if popped.user.Some? then None else Some(pcb.greatEsp + FrameBytes(popped))));
      }
    }

    method TimerTick(cpu: Cpu, kernelEsp: int) returns (out: Output)
      requires Valid()
      modifies this, pcbs
      ensures Valid()
      ensures (Snapshot(), out) == old(ContextSwitch(Snapshot(), cpu, kernelEsp))
    {
      hide Paging.Tables.Holds;
      SaveFrame(cpu, kernelEsp);
      var future := terminal[head];
      head := terminal[head].next;
      tail := terminal[tail].next;
      if future.pid == currPid || !future.active {
        return Kept;
      }
      out := SwitchTo(future, cpu, kernelEsp);
    }

    method SwitchTerm(to: nat)
      requires Valid() && to < 3
      modifies this`termOnScreen, terminal
      ensures Valid()
      ensures Snapshot() == old(ProcessTable.SwitchTerm(Snapshot(), to))
    {
      hide Paging.Tables.Holds;
      if termOnScreen == to {
        return;
      }
      termOnScreen := to;
      if !terminal[to].active {
        terminal[to] := terminal[to].(active := true);
      }
    }

    /** The loop of `init_schedule`: three inactive tasks in a ring. */
    method LinkTerminals()
      requires terminal.Length == 3
      modifies this`currTerm, terminal
      ensures terminal[..] == [Task(0, 0, 1, false), Task(1, 1, 2, false), Task(2, 2, 0, false)]
    {
      currTerm := 0;
      while currTerm < 3
        modifies this`currTerm, terminal
        invariant currTerm <= 3
        invariant forall t :: 0 <= t < currTerm ==> terminal[t] == Task(t, t, (t + 1) % 3, false)
      {
        terminal[currTerm] := Task(currTerm, currTerm, (currTerm + 1) % 3, false);
        currTerm := currTerm + 1;
      }
    }

    method InitSchedule()
      requires Valid()
      modifies this`currTerm, this`termOnScreen, this`head, this`tail, terminal
      ensures Valid()
      ensures Snapshot() == old(ProcessTable.InitSchedule(Snapshot()))
    {
      hide Paging.Tables.Holds;
      LinkTerminals();
      terminal[0] := terminal[0].(active := true);
      currTerm := 0;
      termOnScreen := 0;
      head := 0;
      tail := 2;
    }

    /** Lines 297-359 of kernel.c, before the first shell. */
    method SetUp()
      requires Valid()
      modifies this`currTerm, this`termOnScreen, this`head, this`tail, this`activeRootShell, terminal
      ensures Valid() && Snapshot() == old(ProcessTable.InitSchedule(Snapshot()).(activeRootShell := 0))
    {
      hide Paging.Tables.Holds;
      InitSchedule();
      currTerm := 0;
      activeRootShell := 0;
    }

    /** Lines 368-370: PID 0 is released, so that the third shell gets it. */
    method ReleaseFirst()
      requires Valid()
      modifies this`cr3, pcbStatusArray
      ensures Valid() && Snapshot() == old(Snapshot().(status := Snapshot().status[0 := false], cr3 := 0))
    {
      hide Paging.Tables.Holds;
      pcbStatusArray[0] := false;
      cr3 := 0;
    }

    /** The end of `entry`: the scheduler is set up and three shells are executed. */
    method Boot(eip: int, size: nat)
      requires Valid() && Snapshot() == PowerOn(mem) && size > 0
      modifies this, pcbStatusArray, pcbs, terminal, shellEspArray, tables.table
      ensures Valid() && Snapshot() == BootState(old(mem), eip, size)
    {
      hide Paging.Tables.Holds, ProcessTable.Execute, ProcessTable.InitSchedule, PowerOn, InRange;
      SetUp();
      var out := Execute(Program(eip, size), NoFrame);
      out := Execute(Program(eip, size), NoFrame);
      ReleaseFirst();
      out := Execute(Program(eip, size), NoFrame);
    }
  }
}
