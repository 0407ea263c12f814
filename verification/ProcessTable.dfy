/**
 The kernel's process state and the effect of each entry point on it, as the code computes it:
 `execute` and `halt` (student-distrib/syscall.c), `context_switch` (schedule.c),
 `jump_to_program` and `exit_to_shell` (sys_call.S), `timer_hand` (handlers.S), `switch_term`
 (terminal.c) and the end of `entry` (kernel.c). Kernel.dfy holds the methods that compute these
 functions in place.
 */
module ProcessTable {
  import opened Common
  import opened KernelStack
  import opened CallStacks

  const VIDEO_MEMORY_IN_PTE := 0xB8

  datatype Pcb = Pcb(parent: Option<nat>, thePid: nat, theEsp: int, shellFlag: bool, greatEsp: int, cmdEip: int)

  const ZeroPcb := Pcb(None, 0, 0, false, 0, 0)

  /** An element of the circular task list; `next` is an index into the same array. */
  datatype Task = Task(pid: nat, term: nat, next: nat, active: bool)

  datatype State = State(
    status: seq<bool>,        // pcb_status_array
    pcb: seq<Pcb>,            // the PCBs at pcb_ptr_array
    terminal: seq<Task>,
    shellEsp: seq<int>,       // shell_esp_array
    videoPage: seq<int>,      // page_table[pid][0xB8].phys_page_addr
    currPid: nat, currTerm: nat, termOnScreen: nat,
    head: nat, tail: nat,     // task_list
    activeProcNum: int, activeRootShell: int,
    esp0: int,                // tss.esp0
    cr3: nat,                 // the process whose page directory is loaded
    irq0: bool,               // IRQ0 unmasked
    mem: Memory,
    calls: nat)               // activations of execute that have entered a child, plus one

  predicate InRange(s: State) {
    && |s.status| == |s.pcb| == |s.shellEsp| == |s.videoPage| == NUM_TOTAL_PROC
    && |s.terminal| == 3
    && s.currPid < NUM_TOTAL_PROC && s.currTerm < 3 && s.head < 3 && s.tail < 3
    && (forall t :: 0 <= t < 3 ==>
          s.terminal[t].pid < NUM_TOTAL_PROC && s.terminal[t].next < 3 && s.terminal[t].term < 3)
    && (forall p :: 0 <= p < NUM_TOTAL_PROC ==>
          s.pcb[p].thePid < NUM_TOTAL_PROC && (s.pcb[p].parent.Some? ==> s.pcb[p].parent.value < NUM_TOTAL_PROC))
  }

  /** The first free PID from `i` on, 6 if there is none. */
  function LowestFree(status: seq<bool>, i: nat): (free: nat)
    requires i <= |status| == NUM_TOTAL_PROC
    ensures i <= free <= NUM_TOTAL_PROC
    ensures free < NUM_TOTAL_PROC ==> !status[free]
    ensures forall p :: i <= p < free ==> status[p]
    decreases NUM_TOTAL_PROC - i
  {
    if i == NUM_TOTAL_PROC || !status[i] then i else LowestFree(status, i + 1)
  }

  /** Lines 129-136 of syscall.c: the directory of `pid` is loaded, and `pid` is busy. */
  function Take(s: State, pid: nat): (s': State)
    requires InRange(s) && pid < NUM_TOTAL_PROC
    ensures InRange(s')
  {
    s.(cr3 := pid, status := s.status[pid := true],
       activeRootShell := s.activeRootShell + if pid < 3 then 1 else 0)
  }

  /** And lines 143-155: it is counted, given its parent and made current. */
  function Claim(s: State, pid: nat): (s': State)
    requires InRange(s) && pid < NUM_TOTAL_PROC
    ensures InRange(s')
  {
    var s1 := Take(s, pid);
    var n := s.activeProcNum + 1;
    s1.(activeProcNum := n,
        pcb := s.pcb[pid := s.pcb[pid].(thePid := pid, parent := if n > 3 then Some(s.currPid) else None)],
        currPid := pid)
  }

  /** Lines 185-187 and 197-203: the kernel stack, the video page and IRQ0 for entering `pid`. */
  function Prepare(s: State, pid: nat): (s': State)
    requires InRange(s) && pid < NUM_TOTAL_PROC
    ensures InRange(s')
  {
    s.(esp0 := StackTop(pid), videoPage := s.videoPage[pid := VIDEO_MEMORY_IN_PTE + 2 * s.currTerm], irq0 := true)
  }

  /** Lines 189-194 and 206-209, and `jump_to_program`: the child is on top of the terminal; the
      parent's esp, its slot of shell_esp_array and the words of the call are written. What deeper calls
      leave below those words, like the frame for `iret`, is never read again; `Work` covers it. */
  function LeaveFrame(s: State, pid: nat, p: nat, esp: int, fr: Frame): (s': State)
    requires InRange(s) && pid < NUM_TOTAL_PROC && p < NUM_TOTAL_PROC
    ensures InRange(s')
  {
    var a := esp - fr.toFrame;
    s.(pcb := s.pcb[p := s.pcb[p].(theEsp := esp)],
       terminal := s.terminal[s.currTerm := s.terminal[s.currTerm].(pid := pid)],
       shellEsp := s.shellEsp[s.pcb[p].thePid := a],
       mem := s.mem[a := Data(fr.ebp)][a + 4 := ReturnInto(s.calls)],
       calls := s.calls + 1)
  }

  /** `execute`, lines 129-213, for a free `pid` and an image that was copied. */
  function Start(s: State, pid: nat, eip: int, fr: Frame): (r: (State, Output))
    requires InRange(s) && pid < NUM_TOTAL_PROC
    ensures InRange(r.0)
  {
    var s1 := Claim(s, pid);
    if s1.activeRootShell < 3 then
      (s1.(pcb := s1.pcb[pid := s1.pcb[pid].(shellFlag := true, cmdEip := eip)]), Deferred(pid))
    else
      var s2 := Prepare(s1, pid);
      if pid < 3 then (s2, Restarted(s.currTerm, eip))
      else if s2.pcb[pid].parent == None then (s2, Silent)
      else
        var esp := s.esp0 - fr.toEsp;
        (LeaveFrame(s2, pid, s2.pcb[pid].parent.value, esp, fr),
         Launched(s.currTerm, pid, eip, Caller(s.calls, fr.ebp, esp)))
  }

  /** `execute`, with the command parsed and the file looked up. */
  function Execute(s: State, req: Request, fr: Frame): (r: (State, Output))
    requires InRange(s)
    ensures InRange(r.0)
  {
    match req
    case BadLength | NoSuchFile | ReadFailed | NotElf => (s.(irq0 := false), Refused(-1))
    case Clear => (s.(irq0 := true), Refused(0))
    case Program(eip, loaded) =>
      var pid := LowestFree(s.status, 0);
      if pid == NUM_TOTAL_PROC then (s.(irq0 := true), Refused(0))
      else if loaded == -1 || loaded == 0 then
        (Take(s, pid).(cr3 := s.currPid, irq0 := true), Refused(-1))
      else Start(s.(irq0 := false), pid, eip, fr)
  }

  /** The word `exit_to_shell` returns through. */
  function ReturnTarget(mem: Memory, a: int): Option<nat> {
    if a in mem && mem[a].ReturnInto? then Some(mem[a].call) else None
  }

  /** Lines 32-48 of syscall.c and `exit_to_shell`: the parent `p` is current again, and control is
      where its slot of shell_esp_array points. */
  function Resume(s: State, p: nat, status: nat): (r: (State, Output))
    requires InRange(s) && p < NUM_TOTAL_PROC
    ensures InRange(r.0)
  {
    var q := s.pcb[p].thePid;
    var a := s.shellEsp[q];
    (s.(status := s.status[s.currPid := false],
        esp0 := s.pcb[p].theEsp,
        currPid := q, cr3 := q,
        terminal := s.terminal[s.currTerm := s.terminal[s.currTerm].(pid := q)],
        irq0 := true),
     Returned(s.currTerm, ReturnTarget(s.mem, a + 4), Peek(s.mem, a), s.pcb[p].theEsp, status))
  }

  /** `halt`. The file "shell" is a program of `size` bytes with entry point `eip`. */
  function Halted(s: State, status: nat, eip: int, size: nat): (r: (State, Output))
    requires InRange(s)
    ensures InRange(r.0)
  {
    var s1 := s.(activeProcNum := s.activeProcNum - 1);
    if s.currPid < 3 then
      Execute(s1.(status := s.status[s.currPid := false], activeRootShell := s.activeRootShell - 1),
              Program(eip, size), NoFrame)
    else if s.pcb[s.currPid].parent == None then (s1, Silent)
    else Resume(s1, s.pcb[s.currPid].parent.value, status)
  }

  /** Where an interrupt starts pushing: at tss.esp0 from user mode, at the interrupted code's own
      esp from kernel mode. */
  function EntryEsp(s: State, cpu: Cpu, kernelEsp: int): int { if cpu.user.Some? then s.esp0 else kernelEsp }

  /** `timer_hand`, and the first lines of `context_switch`: the frame is on the stack and its
      address in the PCB. */
  function Saving(s: State, cpu: Cpu, kernelEsp: int): (s': State)
    requires InRange(s)
    ensures InRange(s')
  {
    var entry := EntryEsp(s, cpu, kernelEsp);
    s.(mem := PushAll(s.mem, entry, PushOrder(cpu)),
       pcb := s.pcb[s.currPid := s.pcb[s.currPid].(greatEsp := entry - FrameBytes(cpu))])
  }

  /** Lines 102-109 of schedule.c: the process of `future` is current, on its own stack and directory. */
  function Enter(s: State, future: Task): (s': State)
    requires InRange(s) && future.pid < NUM_TOTAL_PROC && future.term < 3
    ensures InRange(s')
  {
    s.(esp0 := StackTop(future.pid), currTerm := future.term, currPid := future.pid, cr3 := future.pid)
  }

  /** Lines 99-118 of schedule.c: the terminal of `future` becomes current; its process is started
      if it never ran, and otherwise popped from the stack it was saved on. */
  function SwitchTo(s: State, future: Task, cpu: Cpu, kernelEsp: int): (r: (State, Output))
    requires InRange(s) && future.pid < NUM_TOTAL_PROC && future.term < 3
    ensures InRange(r.0)
  {
    var pcb := s.pcb[future.pid];
    var at := if cpu.user.Some? then None else Some(kernelEsp);
    var popped := PopFrame(s.mem, pcb.greatEsp);
    (Enter(s, future).(pcb := if pcb.shellFlag then s.pcb[future.pid := pcb.(shellFlag := false)] else s.pcb),
     Switched(s.currTerm, cpu, at, future.term,
              if pcb.shellFlag then Fresh(pcb.cmdEip)
              else Resumed(popped, if popped.user.Some? then None else Some(pcb.greatEsp + FrameBytes(popped)))))
  }

  /** `timer_hand` and `context_switch`. */
  function ContextSwitch(s: State, cpu: Cpu, kernelEsp: int): (r: (State, Output))
    requires InRange(s)
    ensures InRange(r.0)
  {
    var s1 := Saving(s, cpu, kernelEsp).(head := s.terminal[s.head].next, tail := s.terminal[s.tail].next);
    var future := s.terminal[s.head];
    if future.pid == s.currPid || !future.active then (s1, Kept) else SwitchTo(s1, future, cpu, kernelEsp)
  }

  /** `switch_term`. */
  function SwitchTerm(s: State, to: nat): (s': State)
    requires InRange(s) && to < 3
    ensures InRange(s')
  {
    if s.termOnScreen == to then s
    else s.(termOnScreen := to, terminal := s.terminal[to := s.terminal[to].(active := true)])
  }

  function Next(s: State, e: Event, eip: int, size: nat): (r: (State, Output))
    requires InRange(s)
    ensures InRange(r.0)
  {
    match e
    case Exec(req, fr) => Execute(s, req, fr)
    case Halt(status) => Halted(s, status, eip, size)
    case Tick(cpu, kernelEsp) => ContextSwitch(s, cpu, kernelEsp)
    case Show(t) => (if t < 3 then SwitchTerm(s, t) else s, Silent)
    case Work(writes) => (s.(mem := s.mem + writes), Silent)
  }

  /** The state in which `entry` reaches its last part: tables cleared, PID 0 marked busy by its
      initialiser, paging set up. What the kernel stacks contain is unknown. */
  function PowerOn(mem: Memory): (s: State)
    ensures InRange(s)
  {
    State([true, false, false, false, false, false],
          [ZeroPcb, ZeroPcb, ZeroPcb, ZeroPcb, ZeroPcb, ZeroPcb],
          [Task(0, 0, 0, false), Task(0, 0, 0, false), Task(0, 0, 0, false)],
          [0, 0, 0, 0, 0, 0],
          [0xB8, 0xBA, 0xBC, 0xB8, 0xB8, 0xB8],
          0, 0, 0, 0, 0, 0, 0, 0x800000, 0, true, mem, 1)
  }

  /** `init_schedule`. */
  function InitSchedule(s: State): (s': State)
    requires InRange(s)
    ensures InRange(s')
  {
    s.(terminal := [Task(0, 0, 1, true), Task(1, 1, 2, false), Task(2, 2, 0, false)],
       currTerm := 0, termOnScreen := 0, head := 0, tail := 2)
  }

  /** kernel.c, lines 297-376: three shells are executed, the third one after PID 0 is released. */
  function BootState(mem: Memory, eip: int, size: nat): (s: State)
    requires size > 0
    ensures InRange(s)
  {
    var shell := Program(eip, size);
    var s0 := InitSchedule(PowerOn(mem)).(activeRootShell := 0);
    var s1 := Execute(s0, shell, NoFrame).0;
    var s2 := Execute(s1, shell, NoFrame).0;
    Execute(s2.(status := s2.status[0 := false], cr3 := 0), shell, NoFrame).0
  }
}
