/**
 The process tables, the scheduler's list, the saved stack pointers and the words on the kernel
 stacks represent the machine of three call stacks, and every step of the kernel is a step of
 that machine with the same output.
 */
module Refinement {
  import opened Common
  import opened KernelStack
  import opened CallStacks
  import opened ProcessTable

  /** The frame in which process At(t, i - 1) waits for At(t, i): the slot of shell_esp_array
      points at the saved ebp and return address of the activation that launched the child. */
  ghost predicate LinkOk(s: State, m: Machine, t: nat, i: nat)
    requires InRange(s) && At(m, t, i) && i > 0
    requires PidAt(m, t, i) < NUM_TOTAL_PROC && PidAt(m, t, i - 1) < NUM_TOTAL_PROC
  {
    var child := m.stacks[t][i];
    var q := PidAt(m, t, i - 1);
    var a := s.shellEsp[q];
    && s.pcb[child.pid].parent == Some(q)
    && Floor(q) <= a && a + 8 <= s.pcb[q].theEsp == child.caller.esp <= StackTop(q)
    && HasWord(s.mem, a, child.caller.ebp)
    && ReturnTarget(s.mem, a + 4) == Some(child.caller.call)
  }

  ghost predicate ProcOk(s: State, m: Machine, t: nat, i: nat)
    requires InRange(s) && At(m, t, i) && PidAt(m, t, i) < NUM_TOTAL_PROC
  {
    && s.pcb[PidAt(m, t, i)].thePid == PidAt(m, t, i)
    && s.videoPage[PidAt(m, t, i)] == VIDEO_MEMORY_IN_PTE + 2 * t
  }

  ghost function TopPid(m: Machine, t: nat): nat
    requires Sized(m) && t < 3
  {
    PidAt(m, t, |m.stacks[t]| - 1)
  }

  /** The frame of `cpu` lies in the stack of `pid` with its last word at `greatEsp`. */
  ghost predicate SavedOk(mem: Memory, pid: nat, greatEsp: int, cpu: Cpu, at: Option<int>) {
    var entry := greatEsp + FrameBytes(cpu);
    && Floor(pid) <= greatEsp && entry <= StackTop(pid)
    && Holds(mem, entry, cpu)
    && at == if cpu.user.Some? then None else Some(entry)
  }

  /** The top of a terminal that is not running has a way back to the CPU. */
  ghost predicate ContextOk(s: State, m: Machine, t: nat)
    requires InRange(s) && Sized(m) && t < 3 && TopPid(m, t) < NUM_TOTAL_PROC
  {
    var pcb := s.pcb[TopPid(m, t)];
    match m.ctx[t]
    case Running => true
    case NotStarted(eip) => pcb.shellFlag && pcb.cmdEip == eip
    case Saved(cpu, at) => SavedOk(s.mem, TopPid(m, t), pcb.greatEsp, cpu, at)
  }

  ghost function Total(m: Machine): nat
    requires Sized(m)
  {
    |m.stacks[0]| + |m.stacks[1]| + |m.stacks[2]|
  }

  ghost predicate StatusOk(s: State, m: Machine)
    requires InRange(s)
  {
    forall p :: 0 <= p < NUM_TOTAL_PROC ==> (s.status[p] <==> Busy(m, p))
  }

  /** The scheduler's list is a three-cycle over the terminals, each with the PID on top of its
      stack, and the current process is the top of the current terminal. */
  ghost predicate TablesOk(s: State, m: Machine)
    requires InRange(s) && Sized(m)
  {
    && (forall t :: 0 <= t < 3 ==> s.terminal[t] == Task(TopPid(m, t), t, (t + 1) % 3, m.active[t]))
    && s.termOnScreen < 3 && m.active[s.termOnScreen]
    && s.head == m.turn && s.tail == (m.turn + 2) % 3
    && s.currTerm == m.running && s.currPid == TopPid(m, m.running) && s.cr3 == s.currPid
    && s.activeProcNum == Total(m) && s.activeRootShell == 3
    && s.irq0 == m.timerOn && s.calls == m.calls
    && s.esp0 == m.esp0 && Floor(s.currPid) <= s.esp0 <= StackTop(s.currPid)
  }

  ghost predicate FramesOk(s: State, m: Machine)
    requires InRange(s) && WellFormed(m)
  {
    && (forall t, i {:trigger ProcOk(s, m, t, i)} :: At(m, t, i) ==> ProcOk(s, m, t, i))
    && (forall t, i {:trigger LinkOk(s, m, t, i)} :: At(m, t, i) && i > 0 ==> LinkOk(s, m, t, i))
    && (forall t :: 0 <= t < 3 ==> ContextOk(s, m, t))
    && (forall p :: 0 <= p < NUM_TOTAL_PROC && s.pcb[p].shellFlag ==> p < 3 && m.ctx[p].NotStarted?)
  }

  /** The kernel state `s` stores the stacks of `m`. */
  ghost predicate Represents(s: State, m: Machine) {
    InRange(s) && WellFormed(m) && StatusOk(s, m) && TablesOk(s, m) && FramesOk(s, m)
  }

  /** What the hardware and the size of the kernel stack ask of an event: ticks arrive only while
      IRQ0 is unmasked, and the frames of the running process fit above its PCB. */
  ghost predicate Enabled(s: State, e: Event)
    requires InRange(s)
  {
    && Legal(e)
    && match e
       case Exec(_, fr) => fr.Proper() && Floor(s.currPid) <= s.esp0 - fr.depth
       case Halt(_) => true
       case Tick(cpu, kernelEsp) =>
         s.irq0 && (cpu.user.None? ==> kernelEsp <= StackTop(s.currPid)) && Floor(s.currPid) <= EntryEsp(s, cpu, kernelEsp) - FrameBytes(cpu)
       case Show(_) => true
       case Work(writes) => forall a :: a in writes ==> Floor(s.currPid) <= a < PcbBase(s.currPid) + 0x2000
  }

  ghost predicate SameOutside(mem: Memory, mem': Memory, pid: nat) {
    forall a :: a in mem && !InStack(pid, a) ==> a in mem' && mem'[a] == mem[a]
  }

  lemma OtherStack(p: nat, q: nat, a: int)
    requires p != q && InStack(p, a)
    ensures !InStack(q, a)
  {
  }

  lemma RootsBusy(s: State, m: Machine)
    requires Represents(s, m)
    ensures s.status[0] && s.status[1] && s.status[2]
    ensures LowestFree(s.status, 0) == FreePid(m)
  {
    assert At(m, 0, 0) && PidAt(m, 0, 0) == 0 && At(m, 1, 0) && PidAt(m, 1, 0) == 1 && At(m, 2, 0) && PidAt(m, 2, 0) == 2;
    assert Busy(m, 0) && Busy(m, 1) && Busy(m, 2);
    var free := LowestFree(s.status, 0);
    assert forall p :: 0 <= p < free ==> Busy(m, p);
  }

  lemma LinkFrame(s: State, m: Machine, s': State, m': Machine, t: nat, i: nat)
    requires InRange(s) && InRange(s') && At(m, t, i) && At(m', t, i) && i > 0
    requires m.stacks[t][i] == m'.stacks[t][i] && m.stacks[t][i - 1] == m'.stacks[t][i - 1]
    requires PidAt(m, t, i) < NUM_TOTAL_PROC && PidAt(m, t, i - 1) < NUM_TOTAL_PROC
    requires LinkOk(s, m, t, i)
    requires s'.pcb[PidAt(m, t, i)].parent == s.pcb[PidAt(m, t, i)].parent
    requires s'.pcb[PidAt(m, t, i - 1)].theEsp == s.pcb[PidAt(m, t, i - 1)].theEsp
    requires s'.shellEsp[PidAt(m, t, i - 1)] == s.shellEsp[PidAt(m, t, i - 1)]
    requires exists p :: p != PidAt(m, t, i - 1) && SameOutside(s.mem, s'.mem, p)
    ensures LinkOk(s', m', t, i)
  {
    var p :| p != PidAt(m, t, i - 1) && SameOutside(s.mem, s'.mem, p);
    var q := PidAt(m, t, i - 1);
    var a := s.shellEsp[q];
    OtherStack(q, p, a);
    OtherStack(q, p, a + 4);
  }

  lemma ContextFrame(s: State, m: Machine, s': State, m': Machine, t: nat, p: nat)
    requires InRange(s) && InRange(s') && Sized(m) && Sized(m') && t < 3
    requires TopPid(m, t) == TopPid(m', t) < NUM_TOTAL_PROC && m.ctx[t] == m'.ctx[t]
    requires ContextOk(s, m, t) && p != TopPid(m, t) && SameOutside(s.mem, s'.mem, p)
    requires s'.pcb[TopPid(m, t)].greatEsp == s.pcb[TopPid(m, t)].greatEsp
    requires s'.pcb[TopPid(m, t)].shellFlag == s.pcb[TopPid(m, t)].shellFlag
    requires s'.pcb[TopPid(m, t)].cmdEip == s.pcb[TopPid(m, t)].cmdEip
    ensures ContextOk(s', m', t)
  {
    if m.ctx[t].Saved? {
      var q := TopPid(m, t);
      var cpu := m.ctx[t].cpu;
      var entry := s.pcb[q].greatEsp + FrameBytes(cpu);
      var words := PushOrder(cpu);
      FrameBytesIsLength(cpu);
      forall j {:trigger words[j]} | 0 <= j < |words| ensures HasWord(s'.mem, entry - 4 * (j + 1), words[j]) {
        assert HasWord(s.mem, entry - 4 * (j + 1), words[j]);
        OtherStack(q, p, entry - 4 * (j + 1));
      }
    }
  }

  /** Everything but the running terminal's own top is where it was. */
  lemma SimulateWork(s: State, m: Machine, writes: Memory)
    requires Represents(s, m) && Enabled(s, Work(writes))
    ensures Represents(s.(mem := s.mem + writes), m)
  {
    var s' := s.(mem := s.mem + writes);
    var p := s.currPid;
    assert SameOutside(s.mem, s'.mem, p);
    forall t: nat, i: nat {:trigger ProcOk(s', m, t, i)} | At(m, t, i) ensures ProcOk(s', m, t, i) {
      assert ProcOk(s, m, t, i);
    }
    forall t: nat, i: nat {:trigger LinkOk(s', m, t, i)} | At(m, t, i) && i > 0 ensures LinkOk(s', m, t, i) {
      assert LinkOk(s, m, t, i) && PidAt(m, t, i - 1) != p;
      LinkFrame(s, m, s', m, t, i);
    }
    forall t: nat | t < 3 ensures ContextOk(s', m, t) {
      if t != m.running { ContextFrame(s, m, s', m, t, p); }
    }
  }

  lemma SimulateShow(s: State, m: Machine, t: nat)
    requires Represents(s, m) && t < 3
    ensures Represents(SwitchTerm(s, t), MachineStep(m, Show(t)).0)
  {
    var s' := SwitchTerm(s, t);
    var m' := MachineStep(m, Show(t)).0;
    StepKeepsWellFormed(m, Show(t));
    ShowTables(s, m, t);
    SameStatus(s, m, s', m');
    SameFrames(s, m, s', m');
  }

  lemma ShowTables(s: State, m: Machine, t: nat)
    requires InRange(s) && Sized(m) && TablesOk(s, m) && t < 3
    ensures InRange(SwitchTerm(s, t))
    ensures TablesOk(SwitchTerm(s, t), MachineStep(m, Show(t)).0)
  {
  }

  lemma SameStatus(s: State, m: Machine, s': State, m': Machine)
    requires InRange(s) && InRange(s') && StatusOk(s, m)
    requires m'.stacks == m.stacks && m'.leaked == m.leaked && s'.status == s.status
    ensures StatusOk(s', m')
  {
    SameStacks(m, m');
  }

  /** A step that leaves the stacks, the contexts, the PCBs and the memory alone. */
  lemma SameFrames(s: State, m: Machine, s': State, m': Machine)
    requires InRange(s) && InRange(s') && WellFormed(m) && WellFormed(m') && FramesOk(s, m)
    requires m'.stacks == m.stacks && m'.ctx == m.ctx
    requires s'.pcb == s.pcb && s'.mem == s.mem && s'.shellEsp == s.shellEsp && s'.videoPage == s.videoPage
    ensures FramesOk(s', m')
  {
    forall t: nat, i: nat {:trigger ProcOk(s', m', t, i)} | At(m', t, i) ensures ProcOk(s', m', t, i) {
      assert ProcOk(s, m, t, i);
    }
    forall t: nat, i: nat {:trigger LinkOk(s', m', t, i)} | At(m', t, i) && i > 0 ensures LinkOk(s', m', t, i) {
      assert LinkOk(s, m, t, i);
    }
    forall t: nat | t < 3 ensures ContextOk(s', m', t) {
      assert ContextOk(s, m, t);
    }
  }

  // ---- execute ----

  predicate EarlyError(req: Request) { req.BadLength? || req.NoSuchFile? || req.ReadFailed? || req.NotElf? }

  predicate LoadFails(req: Request, free: nat) {
    req.Program? && free < NUM_TOTAL_PROC && (req.loaded == 0 || req.loaded == -1)
  }

  /** The two states after a refusal. */
  function RefusedState(s: State, free: nat, req: Request): State
    requires |s.status| == NUM_TOTAL_PROC
  {
    if LoadFails(req, free) then s.(status := s.status[free := true], cr3 := s.currPid, irq0 := true)
    else s.(irq0 := !EarlyError(req))
  }

  ghost function RefusedMachine(m: Machine, free: nat, req: Request): Machine {
    if LoadFails(req, free) then m.(timerOn := true, leaked := m.leaked + {free}) else m.(timerOn := !EarlyError(req))
  }

  /** What a refusal does to the kernel's state and to the machine. */
  lemma RefusedEffect(s: State, m: Machine, req: Request, fr: Frame)
    requires InRange(s) && Sized(m) && Execute(s, req, fr).1.Refused?
    requires LowestFree(s.status, 0) == FreePid(m) >= 3
    ensures Execute(s, req, fr).1 == Launch(m, req, fr).1
    ensures Execute(s, req, fr).0 == RefusedState(s, FreePid(m), req)
    ensures Launch(m, req, fr).0 == RefusedMachine(m, FreePid(m), req)
  {
    hide FreePid, LowestFree;
    if req.Program? && FreePid(m) < NUM_TOTAL_PROC && !LoadFails(req, FreePid(m)) {
      StartIsNoRefusal(s.(irq0 := false), FreePid(m), req.eip, fr);
    }
  }

  lemma StartIsNoRefusal(s: State, pid: nat, eip: int, fr: Frame)
    requires InRange(s) && pid < NUM_TOTAL_PROC
    ensures !Start(s, pid, eip, fr).1.Refused?
  {
  }

  /** A refused command changes no stack, except that a failed load loses the PID it had taken. */
  lemma SimulateRefused(s: State, m: Machine, req: Request, fr: Frame)
    requires Represents(s, m) && Execute(s, req, fr).1.Refused?
    ensures Launch(m, req, fr).1 == Execute(s, req, fr).1
    ensures Represents(Execute(s, req, fr).0, Launch(m, req, fr).0)
  {
    var s' := Execute(s, req, fr).0;
    var m' := Launch(m, req, fr).0;
    RootsBusy(s, m);
    assert FreePid(m) >= 3;
    LaunchKeepsWellFormed(m, req, fr);
    RefusedEffect(s, m, req, fr);
    hide Execute, Launch, FreePid, LowestFree;
    RefusedTables(s, m, req);
    RefusedStatus(s, m, req);
    hide StatusOk, TablesOk;
    SameFrames(s, m, s', m');
  }

  lemma RefusedStatus(s: State, m: Machine, req: Request)
    requires InRange(s) && Sized(m) && StatusOk(s, m)
    ensures StatusOk(RefusedState(s, FreePid(m), req), RefusedMachine(m, FreePid(m), req))
  {
    hide FreePid;
    SameStacks(m, RefusedMachine(m, FreePid(m), req));
  }

  lemma RefusedTables(s: State, m: Machine, req: Request)
    requires InRange(s) && Sized(m) && TablesOk(s, m)
    ensures InRange(RefusedState(s, FreePid(m), req))
    ensures TablesOk(RefusedState(s, FreePid(m), req), RefusedMachine(m, FreePid(m), req))
  {
    hide FreePid;
  }

  /** `Execute` refuses, or finds a free PID above the roots and starts the program there. */
  lemma ExecuteCases(s: State, m: Machine, req: Request, fr: Frame)
    requires Represents(s, m)
    ensures LowestFree(s.status, 0) == FreePid(m) >= 3
    ensures Execute(s, req, fr).1.Refused? ||
            (Execute(s, req, fr).1.Launched? && req.Program? && FreePid(m) < NUM_TOTAL_PROC
             && req.loaded != 0 && req.loaded != -1
             && Execute(s, req, fr) == Start(s.(irq0 := false), FreePid(m), req.eip, fr))
  {
    RootsBusy(s, m);
    ShellsCounted(s, m);
    hide Represents, Start, LowestFree, FreePid, Take;
    if req.Program? && FreePid(m) < NUM_TOTAL_PROC {
      StartIsLaunch(s.(irq0 := false), FreePid(m), req.eip, fr);
    }
  }

  lemma ShellsCounted(s: State, m: Machine)
    requires Represents(s, m)
    ensures InRange(s) && s.activeProcNum >= 3 && s.activeRootShell == 3
  {
    hide StatusOk, FramesOk, InRange;
  }

  lemma StartIsLaunch(s: State, pid: nat, eip: int, fr: Frame)
    requires InRange(s) && 3 <= pid < NUM_TOTAL_PROC && s.activeRootShell == 3 && s.activeProcNum >= 3
    ensures Start(s, pid, eip, fr).1 == Launched(s.currTerm, pid, eip, Caller(s.calls, fr.ebp, s.esp0 - fr.toEsp))
  {
  }

  lemma LaunchTables(s: State, m: Machine, req: Request, fr: Frame)
    requires InRange(s) && Sized(m) && TablesOk(s, m)
    requires req.Program? && 3 <= FreePid(m) < NUM_TOTAL_PROC && req.loaded != 0 && req.loaded != -1
    requires s.pcb[s.currPid].thePid == s.currPid
    ensures var (s', out) := Start(s.(irq0 := false), FreePid(m), req.eip, fr);
            var (m', out') := Launch(m, req, fr);
            out == out' && InRange(s') && TablesOk(s', m')
  {
    var (s', _) := Start(s.(irq0 := false), FreePid(m), req.eip, fr);
    var (m', _) := Launch(m, req, fr);
    assert TopPid(m', m.running) == FreePid(m);
    assert forall t :: 0 <= t < 3 && t != m.running ==> TopPid(m', t) == TopPid(m, t);
  }

  lemma LaunchStatus(s: State, m: Machine, req: Request, fr: Frame, s': State)
    requires InRange(s) && InRange(s') && Sized(m) && StatusOk(s, m)
    requires req.Program? && 3 <= FreePid(m) < NUM_TOTAL_PROC && req.loaded != 0 && req.loaded != -1
    requires s'.status == s.status[FreePid(m) := true]
    ensures StatusOk(s', Launch(m, req, fr).0)
  {
    var free := FreePid(m);
    var m' := Launch(m, req, fr).0;
    var n := |m.stacks[m.running]|;
    assert At(m', m.running, n) && PidAt(m', m.running, n) == free;
    forall p: nat | p < NUM_TOTAL_PROC ensures s'.status[p] <==> Busy(m', p) {
      if OnStack(m, p) {
        var t, i :| At(m, t, i) && PidAt(m, t, i) == p;
        assert At(m', t, i) && PidAt(m', t, i) == p;
      }
      if OnStack(m', p) && p != free {
        var t, i :| At(m', t, i) && PidAt(m', t, i) == p;
        assert At(m, t, i) && PidAt(m, t, i) == p;
      }
    }
  }

  /** What `Start` does to the PCBs, the slots and the stack memory when `free` is launched. */
  ghost predicate LaunchEffect(s: State, m: Machine, s': State, m': Machine, free: nat, fr: Frame)
    requires InRange(s) && Sized(m) && free < NUM_TOTAL_PROC
  {
    && m'.stacks == m.stacks[m.running := m.stacks[m.running] + [Proc(free, Caller(m.calls, fr.ebp, m.esp0 - fr.toEsp))]] && m'.ctx == m.ctx
    && var esp := s.esp0 - fr.toEsp;
       var a := esp - fr.toFrame;
       && s'.pcb == s.pcb[free := s.pcb[free].(thePid := free, parent := Some(s.currPid))]
                         [s.currPid := s.pcb[s.currPid].(theEsp := esp)]
       && s'.shellEsp == s.shellEsp[s.currPid := a]
       && s'.mem == s.mem[a := Data(fr.ebp)][a + 4 := ReturnInto(s.calls)]
  }

  /** `s'` is `s` after the current process has launched `free` and become `m'`. */
  ghost predicate Launching(s: State, m: Machine, s': State, m': Machine, free: nat, fr: Frame) {
    && InRange(s) && InRange(s') && WellFormed(m) && WellFormed(m') && TablesOk(s, m) && FramesOk(s, m)
    && 3 <= free < NUM_TOTAL_PROC && !Busy(m, free)
    && fr.Proper() && Floor(s.currPid) <= s.esp0 - fr.depth
    && LaunchEffect(s, m, s', m', free, fr)
  }

  lemma StartLaunches(s: State, m: Machine, req: Request, fr: Frame)
    requires InRange(s) && Sized(m) && s.activeProcNum >= 3 && s.activeRootShell >= 3
    requires req.Program? && 3 <= FreePid(m) < NUM_TOTAL_PROC && req.loaded != 0 && req.loaded != -1
    requires s.pcb[s.currPid].thePid == s.currPid && s.currPid != FreePid(m)
    ensures var s' := Start(s.(irq0 := false), FreePid(m), req.eip, fr).0;
            && LaunchEffect(s, m, s', Launch(m, req, fr).0, FreePid(m), fr)
            && s'.status == s.status[FreePid(m) := true]
            && s'.videoPage == s.videoPage[FreePid(m) := VIDEO_MEMORY_IN_PTE + 2 * s.currTerm]
  {
  }

  lemma LaunchLink(s: State, m: Machine, s': State, m': Machine, free: nat, fr: Frame, t: nat, i: nat)
    requires Launching(s, m, s', m', free, fr) && At(m', t, i) && i > 0
    ensures LinkOk(s', m', t, i)
  {
    if !(t == m.running && i == |m.stacks[t]|) {
      KeptLink(s, m, s', m', free, fr, t, i);
    } else {
      hide WellFormed, FramesOk, Busy;
      assert PidAt(m', t, i - 1) == s.currPid && PidAt(m', t, i) == free;
    }
  }

  lemma KeptLink(s: State, m: Machine, s': State, m': Machine, free: nat, fr: Frame, t: nat, i: nat)
    requires Launching(s, m, s', m', free, fr) && At(m', t, i) && i > 0
    requires !(t == m.running && i == |m.stacks[t]|)
    ensures PidAt(m', t, i) < NUM_TOTAL_PROC && PidAt(m', t, i - 1) < NUM_TOTAL_PROC && LinkOk(s', m', t, i)
  {
    assert At(m, t, i) && PidAt(m, t, i) != free && PidAt(m, t, i - 1) != free && LinkOk(s, m, t, i);
    assert PidAt(m, t, i - 1) != s.currPid;
    assert SameOutside(s.mem, s'.mem, s.currPid);
    LinkFrame(s, m, s', m', t, i);
  }

  lemma LaunchContext(s: State, m: Machine, s': State, m': Machine, free: nat, fr: Frame, t: nat)
    requires Launching(s, m, s', m', free, fr) && t < 3
    ensures ContextOk(s', m', t)
  {
    if t != m.running {
      assert TopPid(m, t) != free && TopPid(m, t) != s.currPid;
      assert SameOutside(s.mem, s'.mem, s.currPid);
      ContextFrame(s, m, s', m', t, s.currPid);
    }
  }

  /** The launcher's frame goes onto the launcher's own stack, so every other frame stays. */
  lemma LaunchFrames(s: State, m: Machine, s': State, m': Machine, free: nat, fr: Frame)
    requires Launching(s, m, s', m', free, fr)
    requires s'.videoPage == s.videoPage[free := VIDEO_MEMORY_IN_PTE + 2 * m.running]
    ensures FramesOk(s', m')
  {
    forall t: nat, i: nat {:trigger ProcOk(s', m', t, i)} | At(m', t, i) ensures ProcOk(s', m', t, i) {
      if !(t == m.running && i == |m.stacks[t]|) {
        assert At(m, t, i) && PidAt(m, t, i) != free && ProcOk(s, m, t, i);
      }
    }
    forall t: nat, i: nat {:trigger LinkOk(s', m', t, i)} | At(m', t, i) && i > 0 ensures LinkOk(s', m', t, i) {
      LaunchLink(s, m, s', m', free, fr, t, i);
    }
    forall t: nat | t < 3 ensures ContextOk(s', m', t) {
      LaunchContext(s, m, s', m', free, fr, t);
    }
  }

  lemma SimulateExec(s: State, m: Machine, req: Request, fr: Frame)
    requires Represents(s, m) && Enabled(s, Exec(req, fr))
    ensures Launch(m, req, fr).1 == Execute(s, req, fr).1
    ensures Represents(Execute(s, req, fr).0, Launch(m, req, fr).0)
  {
    ExecuteCases(s, m, req, fr);
    if Execute(s, req, fr).1.Refused? {
      SimulateRefused(s, m, req, fr);
    } else {
      SimulateLaunch(s, m, req, fr);
    }
  }

  lemma SimulateLaunch(s: State, m: Machine, req: Request, fr: Frame)
    requires Represents(s, m) && Enabled(s, Exec(req, fr))
    requires req.Program? && 3 <= FreePid(m) < NUM_TOTAL_PROC && req.loaded != 0 && req.loaded != -1
    ensures Launch(m, req, fr).1 == Start(s.(irq0 := false), FreePid(m), req.eip, fr).1
    ensures Represents(Start(s.(irq0 := false), FreePid(m), req.eip, fr).0, Launch(m, req, fr).0)
  {
    var s', m' := Start(s.(irq0 := false), FreePid(m), req.eip, fr).0, Launch(m, req, fr).0;
    assert ProcOk(s, m, m.running, |m.stacks[m.running]| - 1);
    assert OnStack(m, s.currPid) && !Busy(m, FreePid(m));
    assert s.activeProcNum >= 3;
    hide Start, Launch, FreePid, Busy, OnStack, ProcOk, StatusOk;
    LaunchKeepsWellFormed(m, req, fr);
    LaunchTables(s, m, req, fr);
    StartLaunches(s, m, req, fr);
    LaunchStatus(s, m, req, fr, s');
    LaunchFrames(s, m, s', m', FreePid(m), fr);
  }

  // ---- halt ----

  /** A root shell that halts is started again under its own PID. Its PCB's parent field becomes
      its own PCB if other programs are alive, and NULL otherwise; nothing ever reads it. */
  lemma RestartIsStart(s: State, m: Machine, status: nat, eip: int, size: nat)
    requires Represents(s, m) && s.currPid < 3 && size > 0
    ensures var s0 := s.(activeProcNum := s.activeProcNum - 1, status := s.status[s.currPid := false],
                         activeRootShell := s.activeRootShell - 1, irq0 := false);
            InRange(s0) && Halted(s, status, eip, size) == Start(s0, s.currPid, eip, NoFrame)
  {
    RootsBusy(s, m);
    FreedIsLowest(s.status, s.currPid);
    hide Represents, Start, LowestFree;
  }

  lemma FreedIsLowest(status: seq<bool>, p: nat)
    requires |status| == NUM_TOTAL_PROC && status[0] && status[1] && status[2] && p < 3
    ensures LowestFree(status[p := false], 0) == p
  {
  }

  lemma SimulateRestart(s: State, m: Machine, status: nat, eip: int, size: nat)
    requires Represents(s, m) && s.currPid < 3 && size > 0 && m.shell == eip
    ensures Exit(m, status).1 == Halted(s, status, eip, size).1
    ensures Represents(Halted(s, status, eip, size).0, Exit(m, status).0)
    ensures Halted(s, status, eip, size).0.currPid == s.currPid
    ensures Halted(s, status, eip, size).0.pcb[s.currPid].parent ==
            if exists p :: 3 <= p < NUM_TOTAL_PROC && OnStack(m, p) then Some(s.currPid) else None
  {
    var s' := Halted(s, status, eip, size).0;
    var m' := Exit(m, status).0;
    var r := m.running;
    assert |m.stacks[r]| == 1 by { assert PidAt(m, r, |m.stacks[r]| - 1) < 3; }
    assert ProcOk(s, m, r, 0);
    RestartIsStart(s, m, status, eip, size);
    ExitKeepsWellFormed(m, status);
    RestartTables(s, m, status, eip, size);
    SameStatus(s, m, s', m');
    RestartFrames(s, m, s', m');
    OthersAlive(m);
  }

  lemma OthersAlive(m: Machine)
    requires WellFormed(m)
    ensures Total(m) > 3 <==> exists p :: 3 <= p < NUM_TOTAL_PROC && OnStack(m, p)
  {
    if Total(m) > 3 {
      var t :| 0 <= t < 3 && |m.stacks[t]| > 1;
      assert At(m, t, 1) && PidAt(m, t, 1) >= 3;
      assert OnStack(m, PidAt(m, t, 1));
    }
    if p :| 3 <= p < NUM_TOTAL_PROC && OnStack(m, p) {
      var t, i :| At(m, t, i) && PidAt(m, t, i) == p;
      assert i > 0;
    }
  }

  lemma RestartTables(s: State, m: Machine, status: nat, eip: int, size: nat)
    requires InRange(s) && Sized(m) && TablesOk(s, m) && s.currPid < 3 && |m.stacks[m.running]| == 1 && m.shell == eip
    requires s.pcb[s.currPid].thePid == s.currPid && s.status[s.currPid]
    requires s.videoPage[s.currPid] == VIDEO_MEMORY_IN_PTE + 2 * s.currTerm
    requires var s0 := s.(activeProcNum := s.activeProcNum - 1, status := s.status[s.currPid := false],
                          activeRootShell := s.activeRootShell - 1, irq0 := false);
             InRange(s0) && Halted(s, status, eip, size) == Start(s0, s.currPid, eip, NoFrame)
    ensures var (s', out) := Halted(s, status, eip, size);
            var (m', out') := Exit(m, status);
            && out == out' && InRange(s') && TablesOk(s', m') && s'.currPid == s.currPid
            && s'.status == s.status && s'.shellEsp == s.shellEsp && s'.mem == s.mem && s'.videoPage == s.videoPage
            && s'.pcb == s.pcb[s.currPid := s.pcb[s.currPid].(parent := if Total(m) > 3 then Some(s.currPid) else None)]
  {
  }

  lemma RestartFrames(s: State, m: Machine, s': State, m': Machine)
    requires InRange(s) && InRange(s') && WellFormed(m) && WellFormed(m') && FramesOk(s, m)
    requires m'.stacks == m.stacks && m'.ctx == m.ctx && s.currPid < 3
    requires s'.pcb == s.pcb[s.currPid := s.pcb[s.currPid].(parent := s'.pcb[s.currPid].parent)]
    requires s'.mem == s.mem && s'.shellEsp == s.shellEsp && s'.videoPage == s.videoPage
    ensures FramesOk(s', m')
  {
    forall t: nat, i: nat {:trigger ProcOk(s', m', t, i)} | At(m', t, i) ensures ProcOk(s', m', t, i) {
      assert ProcOk(s, m, t, i);
    }
    forall t: nat, i: nat {:trigger LinkOk(s', m', t, i)} | At(m', t, i) && i > 0 ensures LinkOk(s', m', t, i) {
      assert LinkOk(s, m, t, i) && PidAt(m, t, i) >= 3;
    }
    forall t: nat | t < 3 ensures ContextOk(s', m', t) {
      assert ContextOk(s, m, t);
    }
  }

  lemma ReturnTables(s: State, m: Machine, status: nat, eip: int, size: nat)
    requires InRange(s) && Sized(m) && TablesOk(s, m) && s.currPid >= 3 && |m.stacks[m.running]| > 1
    requires var n := |m.stacks[m.running]|;
             && PidAt(m, m.running, n - 1) < NUM_TOTAL_PROC && PidAt(m, m.running, n - 2) < NUM_TOTAL_PROC
             && LinkOk(s, m, m.running, n - 1)
             && s.pcb[PidAt(m, m.running, n - 2)].thePid == PidAt(m, m.running, n - 2)
    ensures var (s', out) := Halted(s, status, eip, size);
            var (m', out') := Exit(m, status);
            && out == out' && InRange(s') && TablesOk(s', m')
            && s'.pcb == s.pcb && s'.shellEsp == s.shellEsp && s'.mem == s.mem && s'.videoPage == s.videoPage
            && s'.status == s.status[s.currPid := false]
  {
    var n := |m.stacks[m.running]|;
    assert TopPid(Exit(m, status).0, m.running) == PidAt(m, m.running, n - 2);
  }

  lemma ReturnStatus(s: State, m: Machine, status: nat, s': State)
    requires InRange(s) && InRange(s') && WellFormed(m) && StatusOk(s, m)
    requires |m.stacks[m.running]| > 1 && s.currPid == TopPid(m, m.running)
    requires s'.status == s.status[s.currPid := false]
    ensures StatusOk(s', Exit(m, status).0)
  {
    var m' := Exit(m, status).0;
    var n := |m.stacks[m.running]|;
    forall p: nat | p < NUM_TOTAL_PROC ensures s'.status[p] <==> Busy(m', p) {
      if OnStack(m', p) {
        var t, i :| At(m', t, i) && PidAt(m', t, i) == p;
        assert At(m, t, i) && PidAt(m, t, i) == p && !(t == m.running && i == n - 1);
        assert p != s.currPid;
      }
      if OnStack(m, p) && p != s.currPid {
        var t, i :| At(m, t, i) && PidAt(m, t, i) == p;
        assert At(m', t, i) && PidAt(m', t, i) == p;
      }
    }
  }

  lemma ReturnFrames(s: State, m: Machine, status: nat, s': State)
    requires InRange(s) && InRange(s') && WellFormed(m) && FramesOk(s, m) && |m.stacks[m.running]| > 1
    requires WellFormed(Exit(m, status).0)
    requires s'.pcb == s.pcb && s'.shellEsp == s.shellEsp && s'.mem == s.mem && s'.videoPage == s.videoPage
    ensures FramesOk(s', Exit(m, status).0)
  {
    var m' := Exit(m, status).0;
    forall t: nat, i: nat {:trigger ProcOk(s', m', t, i)} | At(m', t, i) ensures ProcOk(s', m', t, i) {
      assert ProcOk(s, m, t, i);
    }
    forall t: nat, i: nat {:trigger LinkOk(s', m', t, i)} | At(m', t, i) && i > 0 ensures LinkOk(s', m', t, i) {
      assert LinkOk(s, m, t, i);
    }
    forall t: nat | t < 3 ensures ContextOk(s', m', t) {
      assert ContextOk(s, m, t);
    }
  }

  lemma ReturnFacts(s: State, m: Machine)
    requires Represents(s, m) && s.currPid >= 3
    ensures var n := |m.stacks[m.running]|;
            && n > 1 && PidAt(m, m.running, n - 1) == s.currPid && PidAt(m, m.running, n - 2) < NUM_TOTAL_PROC
            && LinkOk(s, m, m.running, n - 1)
            && s.pcb[PidAt(m, m.running, n - 2)].thePid == PidAt(m, m.running, n - 2)
  {
    var n := |m.stacks[m.running]|;
    assert PidAt(m, m.running, n - 1) == s.currPid;
    assert LinkOk(s, m, m.running, n - 1) && ProcOk(s, m, m.running, n - 2);
  }

  /** `halt` gives the CPU back to the parent, inside the activation of `execute` that launched the
      halting process, with that activation's frame pointer and the status as its result. */
  lemma SimulateReturn(s: State, m: Machine, status: nat, eip: int, size: nat)
    requires Represents(s, m) && s.currPid >= 3
    ensures Exit(m, status).1 == Halted(s, status, eip, size).1
    ensures Represents(Halted(s, status, eip, size).0, Exit(m, status).0)
  {
    ReturnFacts(s, m);
    ExitKeepsWellFormed(m, status);
    ReturnTables(s, m, status, eip, size);
    hide Halted, Exit, TablesOk, WellFormed, LinkOk;
    var s' := Halted(s, status, eip, size).0;
    ReturnStatus(s, m, status, s');
    ReturnFrames(s, m, status, s');
    hide StatusOk, FramesOk;
  }

  // ---- the timer ----

  /** Pushing a frame of the running process changes no other stack and stores the frame. */
  lemma PushOwnStack(s: State, cpu: Cpu, kernelEsp: int)
    requires InRange(s) && Floor(s.currPid) <= s.esp0 <= StackTop(s.currPid)
    requires Enabled(s, Tick(cpu, kernelEsp))
    ensures var entry := EntryEsp(s, cpu, kernelEsp);
            var mem' := PushAll(s.mem, entry, PushOrder(cpu));
            && SameOutside(s.mem, mem', s.currPid)
            && SavedOk(mem', s.currPid, entry - FrameBytes(cpu), cpu, if cpu.user.Some? then None else Some(kernelEsp))
  {
    var entry := EntryEsp(s, cpu, kernelEsp);
    FrameBytesIsLength(cpu);
    PushAllAt(s.mem, entry, PushOrder(cpu));
  }

  lemma SavingKeepsFrames(s: State, m: Machine, cpu: Cpu, kernelEsp: int)
    requires InRange(s) && WellFormed(m) && TablesOk(s, m) && FramesOk(s, m)
    requires Enabled(s, Tick(cpu, kernelEsp))
    ensures InRange(Saving(s, cpu, kernelEsp)) && FramesOk(Saving(s, cpu, kernelEsp), m)
  {
    var s1 := Saving(s, cpu, kernelEsp);
    PushOwnStack(s, cpu, kernelEsp);
    forall t: nat, i: nat {:trigger ProcOk(s1, m, t, i)} | At(m, t, i) ensures ProcOk(s1, m, t, i) {
      assert ProcOk(s, m, t, i);
    }
    forall t: nat, i: nat {:trigger LinkOk(s1, m, t, i)} | At(m, t, i) && i > 0 ensures LinkOk(s1, m, t, i) {
      assert LinkOk(s, m, t, i) && PidAt(m, t, i - 1) != s.currPid;
      LinkFrame(s, m, s1, m, t, i);
    }
    forall t: nat | t < 3 ensures ContextOk(s1, m, t) {
      if t != m.running { ContextFrame(s, m, s1, m, t, s.currPid); }
    }
  }

  /** Equal PIDs at a tick mean that the scheduler looks at the running terminal itself, because no
      PID is on two stacks; that is why the early return loses no turn. */
  lemma EqualPidsSameTerminal(s: State, m: Machine)
    requires InRange(s) && WellFormed(m) && TablesOk(s, m)
    ensures s.terminal[s.head].pid == s.currPid <==> m.turn == m.running
  {
    assert At(m, m.turn, |m.stacks[m.turn]| - 1) && At(m, m.running, |m.stacks[m.running]| - 1);
  }

  /** A tick that keeps the running terminal only moves the list on and saves the frame. */
  lemma KeptTables(s: State, m: Machine, cpu: Cpu, kernelEsp: int)
    requires InRange(s) && Sized(m) && TablesOk(s, m)
    requires s.terminal[s.head].pid == s.currPid <==> m.turn == m.running
    requires m.turn == m.running || !m.active[m.turn]
    ensures var (s', out) := ContextSwitch(s, cpu, kernelEsp);
            && out == Rotate(m, cpu, kernelEsp).1 == Kept
            && s' == Saving(s, cpu, kernelEsp).(head := s'.head, tail := s'.tail)
            && InRange(s') && TablesOk(s', Rotate(m, cpu, kernelEsp).0)
  {
  }

  lemma SwitchedTables(s: State, m: Machine, cpu: Cpu, kernelEsp: int)
    requires InRange(s) && Sized(m) && TablesOk(s, m) && InRange(ContextSwitch(s, cpu, kernelEsp).0)
    requires m.turn != m.running && m.active[m.turn] && s.terminal[s.head].pid != s.currPid
    ensures TablesOk(ContextSwitch(s, cpu, kernelEsp).0, Rotate(m, cpu, kernelEsp).0)
    ensures ContextSwitch(s, cpu, kernelEsp).0.status == s.status
  {
    var s' := ContextSwitch(s, cpu, kernelEsp).0;
    var m' := Rotate(m, cpu, kernelEsp).0;
    assert m'.stacks == m.stacks && s'.terminal == s.terminal;
    assert TopPid(m', m.turn) == TopPid(m, m.turn) == s'.currPid;
  }

  /** The terminal whose turn it is gets back the registers its frame holds, or its entry point. */
  lemma SwitchOutput(s: State, m: Machine, cpu: Cpu, kernelEsp: int)
    requires InRange(s) && Sized(m) && TablesOk(s, m) && InRange(Saving(s, cpu, kernelEsp))
    requires TopPid(m, m.turn) < NUM_TOTAL_PROC && ContextOk(Saving(s, cpu, kernelEsp), m, m.turn)
    requires Saving(s, cpu, kernelEsp).pcb[TopPid(m, m.turn)].shellFlag <==> m.ctx[m.turn].NotStarted?
    requires m.ctx[m.turn].Saved? ==> m.ctx[m.turn].cpu.WellFormed()
    requires m.turn != m.running && m.active[m.turn] && s.terminal[s.head].pid != s.currPid
    requires !m.ctx[m.turn].Running?
    ensures ContextSwitch(s, cpu, kernelEsp).1 == Rotate(m, cpu, kernelEsp).1
  {
    var s1 := Saving(s, cpu, kernelEsp);
    var t := m.turn;
    if m.ctx[t].Saved? {
      var saved := m.ctx[t].cpu;
      PopFrameInverse(s1.mem, s1.pcb[TopPid(m, t)].greatEsp + FrameBytes(saved), saved);
    }
  }

  ghost predicate SwitchEffect(s1: State, m: Machine, s': State, m': Machine, cpu: Cpu, at: Option<int>)
    requires InRange(s1) && Sized(m) && TopPid(m, m.turn) < NUM_TOTAL_PROC
  {
    && m'.stacks == m.stacks && m'.ctx == m.ctx[m.running := Saved(cpu, at)][m.turn := Running]
    && s'.mem == s1.mem && s'.shellEsp == s1.shellEsp && s'.videoPage == s1.videoPage
    && var f := TopPid(m, m.turn);
       s'.pcb == s1.pcb[f := s1.pcb[f].(shellFlag := false)]
  }

  /** `s'` is `s1`, in which the frame of the interrupted process is saved, with the flag of the
      next one cleared, and `m'` is `m` after the switch. */
  ghost predicate Switching(s1: State, m: Machine, s': State, m': Machine, cpu: Cpu, at: Option<int>) {
    && InRange(s1) && InRange(s') && WellFormed(m) && WellFormed(m') && FramesOk(s1, m)
    && m.turn != m.running && SwitchEffect(s1, m, s', m', cpu, at)
  }

  lemma SwitchContext(s1: State, m: Machine, s': State, m': Machine, cpu: Cpu, at: Option<int>, t: nat)
    requires Switching(s1, m, s', m', cpu, at) && t < 3
    requires SavedOk(s1.mem, TopPid(m, m.running), s1.pcb[TopPid(m, m.running)].greatEsp, cpu, at)
    ensures ContextOk(s', m', t)
  {
    assert t != m.turn ==> TopPid(m, t) != TopPid(m, m.turn);
    assert ContextOk(s1, m, t);
  }

  lemma SwitchFrames(s1: State, m: Machine, s': State, m': Machine, cpu: Cpu, at: Option<int>)
    requires Switching(s1, m, s', m', cpu, at)
    requires SavedOk(s1.mem, TopPid(m, m.running), s1.pcb[TopPid(m, m.running)].greatEsp, cpu, at)
    ensures FramesOk(s', m')
  {
    forall t: nat, i: nat {:trigger ProcOk(s', m', t, i)} | At(m', t, i) ensures ProcOk(s', m', t, i) {
      assert ProcOk(s1, m, t, i);
    }
    forall t: nat, i: nat {:trigger LinkOk(s', m', t, i)} | At(m', t, i) && i > 0 ensures LinkOk(s', m', t, i) {
      assert LinkOk(s1, m, t, i);
    }
    forall t: nat | t < 3 ensures ContextOk(s', m', t) {
      SwitchContext(s1, m, s', m', cpu, at, t);
    }
    assert TopPid(m, m.turn) < 3 && m.ctx[m.turn].NotStarted? ==> TopPid(m, m.turn) == m.turn;
  }

  lemma SwitchHasEffect(s: State, m: Machine, cpu: Cpu, kernelEsp: int)
    requires InRange(s) && Sized(m) && TablesOk(s, m) && InRange(Saving(s, cpu, kernelEsp))
    requires m.turn != m.running && m.active[m.turn] && s.terminal[s.head].pid != s.currPid
    ensures TopPid(m, m.turn) < NUM_TOTAL_PROC
    ensures SwitchEffect(Saving(s, cpu, kernelEsp), m, ContextSwitch(s, cpu, kernelEsp).0, Rotate(m, cpu, kernelEsp).0,
                         cpu, if cpu.user.Some? then None else Some(kernelEsp))
  {
    assert s.terminal[s.head].pid == TopPid(m, m.turn);
  }

  lemma SimulateKept(s: State, m: Machine, cpu: Cpu, kernelEsp: int)
    requires Represents(s, m) && Enabled(s, Tick(cpu, kernelEsp))
    requires m.turn == m.running || !m.active[m.turn]
    ensures Rotate(m, cpu, kernelEsp).1 == ContextSwitch(s, cpu, kernelEsp).1
    ensures Represents(ContextSwitch(s, cpu, kernelEsp).0, Rotate(m, cpu, kernelEsp).0)
  {
    var s' := ContextSwitch(s, cpu, kernelEsp).0;
    var m' := Rotate(m, cpu, kernelEsp).0;
    StepKeepsWellFormed(m, Tick(cpu, kernelEsp));
    EqualPidsSameTerminal(s, m);
    KeptTables(s, m, cpu, kernelEsp);
    SameStatus(s, m, s', m');
    SavingKeepsFrames(s, m, cpu, kernelEsp);
    SameFrames(Saving(s, cpu, kernelEsp), m, s', m');
  }

  lemma SimulateSwitchOutput(s: State, m: Machine, cpu: Cpu, kernelEsp: int)
    requires InRange(s) && WellFormed(m) && TablesOk(s, m) && FramesOk(s, m) && Enabled(s, Tick(cpu, kernelEsp))
    requires m.turn != m.running && m.active[m.turn] && s.terminal[s.head].pid != s.currPid
    ensures Rotate(m, cpu, kernelEsp).1 == ContextSwitch(s, cpu, kernelEsp).1
  {
    SavingKeepsFrames(s, m, cpu, kernelEsp);
    assert ContextOk(Saving(s, cpu, kernelEsp), m, m.turn);
    SwitchOutput(s, m, cpu, kernelEsp);
  }

  lemma SavingIsSaved(s: State, cpu: Cpu, kernelEsp: int, s1: State, pid: nat)
    requires InRange(s) && Floor(s.currPid) <= s.esp0 <= StackTop(s.currPid)
    requires Enabled(s, Tick(cpu, kernelEsp)) && s1 == Saving(s, cpu, kernelEsp) && InRange(s1) && pid == s.currPid
    ensures SavedOk(s1.mem, pid, s1.pcb[pid].greatEsp, cpu, if cpu.user.Some? then None else Some(kernelEsp))
  {
    PushOwnStack(s, cpu, kernelEsp);
  }

  lemma SimulateSwitchFrames(s: State, m: Machine, cpu: Cpu, kernelEsp: int, s': State, m': Machine)
    requires InRange(s) && WellFormed(m) && TablesOk(s, m) && FramesOk(s, m) && Enabled(s, Tick(cpu, kernelEsp))
    requires m.turn != m.running && m.active[m.turn] && s.terminal[s.head].pid != s.currPid
    requires s' == ContextSwitch(s, cpu, kernelEsp).0 && m' == Rotate(m, cpu, kernelEsp).0
    requires InRange(s') && WellFormed(m')
    ensures FramesOk(s', m')
  {
    var s1 := Saving(s, cpu, kernelEsp);
    SavingKeepsFrames(s, m, cpu, kernelEsp);
    SwitchHasEffect(s, m, cpu, kernelEsp);
    SavingIsSaved(s, cpu, kernelEsp, s1, TopPid(m, m.running));
    SwitchFrames(s1, m, s', m', cpu, if cpu.user.Some? then None else Some(kernelEsp));
  }

  lemma SimulateSwitch(s: State, m: Machine, cpu: Cpu, kernelEsp: int)
    requires Represents(s, m) && Enabled(s, Tick(cpu, kernelEsp))
    requires m.turn != m.running && m.active[m.turn]
    ensures Rotate(m, cpu, kernelEsp).1 == ContextSwitch(s, cpu, kernelEsp).1
    ensures Represents(ContextSwitch(s, cpu, kernelEsp).0, Rotate(m, cpu, kernelEsp).0)
  {
    StepKeepsWellFormed(m, Tick(cpu, kernelEsp));
    EqualPidsSameTerminal(s, m);
    SwitchedTables(s, m, cpu, kernelEsp);
    SameStatus(s, m, ContextSwitch(s, cpu, kernelEsp).0, Rotate(m, cpu, kernelEsp).0);
    SimulateSwitchOutput(s, m, cpu, kernelEsp);
    SimulateSwitchFrames(s, m, cpu, kernelEsp, ContextSwitch(s, cpu, kernelEsp).0, Rotate(m, cpu, kernelEsp).0);
  }

  lemma SimulateTick(s: State, m: Machine, cpu: Cpu, kernelEsp: int)
    requires Represents(s, m) && Enabled(s, Tick(cpu, kernelEsp))
    ensures Rotate(m, cpu, kernelEsp).1 == ContextSwitch(s, cpu, kernelEsp).1
    ensures Represents(ContextSwitch(s, cpu, kernelEsp).0, Rotate(m, cpu, kernelEsp).0)
  {
    if m.turn == m.running || !m.active[m.turn] {
      SimulateKept(s, m, cpu, kernelEsp);
    } else {
      SimulateSwitch(s, m, cpu, kernelEsp);
    }
  }

  // ---- every step, every run ----

  /** Each step of the kernel is the same step of the stack machine, with the same output. */
  lemma Simulates(s: State, m: Machine, e: Event, eip: int, size: nat)
    requires Represents(s, m) && Enabled(s, e) && size > 0 && m.shell == eip
    ensures Next(s, e, eip, size).1 == MachineStep(m, e).1
    ensures Represents(Next(s, e, eip, size).0, MachineStep(m, e).0) && MachineStep(m, e).0.shell == eip
  {
    assert InRange(s) && Sized(m);
    ShellStays(m, e);
    match e
    case Exec(req, fr) => SimulateExec(s, m, req, fr);
    case Halt(status) => SimulateHalt(s, m, status, eip, size);
    case Tick(cpu, kernelEsp) => SimulateTick(s, m, cpu, kernelEsp);
    case Show(t) =>
      assert t < 3;
      SimulateShow(s, m, t);
    case Work(writes) => SimulateWork(s, m, writes);
    hide *;
  }

  lemma SimulateHalt(s: State, m: Machine, status: nat, eip: int, size: nat)
    requires Represents(s, m) && size > 0 && m.shell == eip
    ensures Exit(m, status).1 == Halted(s, status, eip, size).1
    ensures Represents(Halted(s, status, eip, size).0, Exit(m, status).0)
  {
    assert InRange(s) && Sized(m);
    hide *;
    if s.currPid < 3 { SimulateRestart(s, m, status, eip, size); } else { SimulateReturn(s, m, status, eip, size); }
  }

  lemma ShellStays(m: Machine, e: Event)
    requires Sized(m)
    ensures MachineStep(m, e).0.shell == m.shell
  {
  }
}
