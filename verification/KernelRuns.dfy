/**
 What the simulation says about whole runs of the kernel, from boot on, under any interleaving of
 launches, halts, timer ticks, terminal switches and kernel-mode work.
 */
module KernelRuns {
  import opened Common
  import opened KernelStack
  import opened CallStacks
  import opened ProcessTable
  import opened Refinement

  ghost function KernelRun(s: State, events: seq<Event>, eip: int, size: nat): (State, seq<Output>)
    requires InRange(s)
    ensures InRange(KernelRun(s, events, eip, size).0) && |KernelRun(s, events, eip, size).1| == |events|
    decreases |events|
  {
    if events == [] then (s, [])
    else
      var (s1, trace) := KernelRun(s, events[..|events| - 1], eip, size);
      var (s2, out) := Next(s1, events[|events| - 1], eip, size);
      (s2, trace + [out])
  }

  /** Every event could happen when it did. */
  ghost predicate EnabledRun(s: State, events: seq<Event>, eip: int, size: nat)
    requires InRange(s)
    decreases |events|
  {
    events != [] ==>
      && EnabledRun(s, events[..|events| - 1], eip, size)
      && Enabled(KernelRun(s, events[..|events| - 1], eip, size).0, events[|events| - 1])
  }

  /** After boot three root shells exist, the first one runs, and the other two wait. */
  lemma BootRepresents(mem: Memory, eip: int, size: nat)
    requires size > 0
    ensures Represents(BootState(mem, eip, size), Booted(eip))
  {
    var m := Booted(eip);
    BootedIsWellFormed(eip);
    BootComputes(mem, eip, size);
    BootTables(mem, eip);
    BootFrames(mem, eip);
    var s := BootImage(mem, eip);
    forall p: nat | p < NUM_TOTAL_PROC ensures s.status[p] <==> Busy(m, p) {
      if p < 3 { assert At(m, p, 0) && PidAt(m, p, 0) == p; }
    }
  }

  /** The state boot leaves, written out. */
  ghost function BootImage(mem: Memory, eip: int): State {
    State([true, true, true, false, false, false],
          [Pcb(None, 0, 0, false, 0, 0), Pcb(None, 1, 0, true, 0, eip), Pcb(None, 2, 0, true, 0, eip), ZeroPcb, ZeroPcb, ZeroPcb],
          [Task(0, 0, 1, true), Task(1, 1, 2, false), Task(2, 2, 0, false)],
          [0, 0, 0, 0, 0, 0],
          [0xB8, 0xBA, 0xBC, 0xB8, 0xB8, 0xB8],
          0, 0, 0, 0, 2, 3, 3, StackTop(0), 0, true, mem, 1)
  }

  lemma BootComputes(mem: Memory, eip: int, size: nat)
    requires size > 0
    ensures BootState(mem, eip, size) == BootImage(mem, eip)
  {
    var shell := Program(eip, size);
    var fr := NoFrame;
    var s0 := InitSchedule(PowerOn(mem)).(activeRootShell := 0);
    assert LowestFree(s0.status, 0) == 1;
    var s1 := Execute(s0, shell, fr).0;
    assert s1.pcb == [ZeroPcb, Pcb(None, 1, 0, true, 0, eip), ZeroPcb, ZeroPcb, ZeroPcb, ZeroPcb];
    assert s1 == s0.(status := [true, true, false, false, false, false], pcb := s1.pcb, activeRootShell := 1,
                     activeProcNum := 1, currPid := 1, cr3 := 1, irq0 := false);
    assert LowestFree(s1.status, 0) == 2;
    BootSecond(mem, eip, size, s1);
  }

  lemma BootSecond(mem: Memory, eip: int, size: nat, s1: State)
    requires size > 0
    requires s1 == InitSchedule(PowerOn(mem)).(
      status := [true, true, false, false, false, false],
      pcb := [ZeroPcb, Pcb(None, 1, 0, true, 0, eip), ZeroPcb, ZeroPcb, ZeroPcb, ZeroPcb], activeRootShell := 1,
      activeProcNum := 1, currPid := 1, cr3 := 1, irq0 := false)
    ensures InRange(s1)
    ensures var s2 := Execute(s1, Program(eip, size), NoFrame).0;
            && InRange(s2) && |s2.status| > 0 && InRange(s2.(status := s2.status[0 := false], cr3 := 0))
            && Execute(s2.(status := s2.status[0 := false], cr3 := 0), Program(eip, size), NoFrame).0 == BootImage(mem, eip)
  {
    assert LowestFree(s1.status, 0) == 2;
    var s2 := Execute(s1, Program(eip, size), NoFrame).0;
    assert s2.pcb == [ZeroPcb, Pcb(None, 1, 0, true, 0, eip), Pcb(None, 2, 0, true, 0, eip), ZeroPcb, ZeroPcb, ZeroPcb];
    var s3 := s2.(status := s2.status[0 := false], cr3 := 0);
    assert s3.status == [false, true, true, false, false, false] && LowestFree(s3.status, 0) == 0;
    var s4 := Execute(s3, Program(eip, size), NoFrame).0;
    assert s4.pcb == BootImage(mem, eip).pcb && s4.status == BootImage(mem, eip).status;
    assert s4.videoPage == BootImage(mem, eip).videoPage;
  }

  lemma BootTops(eip: int)
    ensures Sized(Booted(eip)) && forall t :: 0 <= t < 3 ==> TopPid(Booted(eip), t) == t
  {
    var m := Booted(eip);
    assert m.stacks[0] == [Proc(0, NoCaller)] && m.stacks[1] == [Proc(1, NoCaller)] && m.stacks[2] == [Proc(2, NoCaller)];
  }

  lemma BootTables(mem: Memory, eip: int)
    ensures InRange(BootImage(mem, eip)) && Sized(Booted(eip)) && TablesOk(BootImage(mem, eip), Booted(eip))
  {
    BootTops(eip);
  }

  lemma BootFrames(mem: Memory, eip: int)
    requires InRange(BootImage(mem, eip)) && WellFormed(Booted(eip))
    ensures FramesOk(BootImage(mem, eip), Booted(eip))
  {
    var m := Booted(eip);
    var s := BootImage(mem, eip);
    BootTops(eip);
    forall t: nat, i: nat {:trigger ProcOk(s, m, t, i)} | At(m, t, i) ensures i == 0 && ProcOk(s, m, t, i) {
      assert t == 0 || t == 1 || t == 2;
    }
    forall t: nat | t < 3 ensures ContextOk(s, m, t) {
      assert t == 0 || t == 1 || t == 2;
    }
  }

  lemma EnabledLast(s: State, events: seq<Event>, eip: int, size: nat)
    requires InRange(s) && EnabledRun(s, events, eip, size) && events != []
    ensures EnabledRun(s, events[..|events| - 1], eip, size)
    ensures Enabled(KernelRun(s, events[..|events| - 1], eip, size).0, events[|events| - 1])
    ensures var (s1, trace) := KernelRun(s, events[..|events| - 1], eip, size);
            var (s2, out) := Next(s1, events[|events| - 1], eip, size);
            KernelRun(s, events, eip, size) == (s2, trace + [out])
  {
  }

  /** The kernel's state stores the stacks of the machine, and the outputs so far are the same. */
  ghost predicate Agrees(k: (State, seq<Output>), r: (Machine, seq<Output>)) {
    Represents(k.0, r.0) && k.1 == r.1
  }

  lemma StepAgrees(k: (State, seq<Output>), r: (Machine, seq<Output>), e: Event, eip: int, size: nat)
    requires Agrees(k, r) && Enabled(k.0, e) && size > 0 && r.0.shell == eip
    ensures var (s, out) := Next(k.0, e, eip, size);
            var (m, out') := MachineStep(r.0, e);
            m.shell == eip && Agrees((s, k.1 + [out]), (m, r.1 + [out']))
  {
    Simulates(k.0, r.0, e, eip, size);
  }

  /** Every run of the kernel is a run of the stack machine, output for output. */
  lemma {:induction false} RunsRefine(s: State, m: Machine, events: seq<Event>, eip: int, size: nat)
    requires Represents(s, m) && size > 0 && EnabledRun(s, events, eip, size) && m.shell == eip
    ensures AllLegal(events) && Agrees(KernelRun(s, events, eip, size), Run(m, events)) && Run(m, events).0.shell == eip
    decreases |events|
  {
    if events != [] {
      var shorter := events[..|events| - 1];
      var e := events[|events| - 1];
      EnabledLast(s, events, eip, size);
      RunsRefine(s, m, shorter, eip, size);
      OneMore(events);
      StepAgrees(KernelRun(s, shorter, eip, size), Run(m, shorter), e, eip, size);
      RunLast(m, events);
    }
  }

  lemma OneMore(events: seq<Event>)
    requires events != [] && AllLegal(events[..|events| - 1]) && Legal(events[|events| - 1])
    ensures AllLegal(events)
  {
    forall j | 0 <= j < |events| ensures Legal(events[j]) {
      if j < |events| - 1 { assert events[j] == events[..|events| - 1][j]; }
    }
  }

  // ---- counting processes ----

  ghost function PidSet(stack: seq<Proc>): (pids: set<nat>)
    ensures forall p :: p in pids <==> exists i :: 0 <= i < |stack| && stack[i].pid == p
  {
    set i | 0 <= i < |stack| :: stack[i].pid
  }

  lemma {:induction false} PidSetCount(stack: seq<Proc>)
    requires forall i, j :: 0 <= i < j < |stack| ==> stack[i].pid != stack[j].pid
    ensures |PidSet(stack)| == |stack|
    decreases |stack|
  {
    if stack != [] {
      var n := |stack| - 1;
      PidSetCount(stack[..n]);
      assert PidSet(stack) == PidSet(stack[..n]) + {stack[n].pid};
    }
  }

  lemma StacksApart(m: Machine, t: nat, u: nat)
    requires WellFormed(m) && t < 3 && u < 3
    ensures forall i, j :: 0 <= i < |m.stacks[t]| && 0 <= j < |m.stacks[u]| && (t != u || i < j) ==>
              m.stacks[t][i].pid != m.stacks[u][j].pid
    ensures PidSet(m.stacks[t]) !! m.leaked
    ensures forall p :: p in PidSet(m.stacks[t]) ==> p < NUM_TOTAL_PROC
  {
    forall i: nat, j: nat | i < |m.stacks[t]| && j < |m.stacks[u]| && (t != u || i < j)
      ensures m.stacks[t][i].pid != m.stacks[u][j].pid
    {
      assert At(m, t, i) && At(m, u, j) && PidAt(m, t, i) == m.stacks[t][i].pid && PidAt(m, u, j) == m.stacks[u][j].pid;
    }
    forall i: nat | i < |m.stacks[t]| ensures m.stacks[t][i].pid < NUM_TOTAL_PROC && m.stacks[t][i].pid !in m.leaked {
      assert At(m, t, i) && PidAt(m, t, i) == m.stacks[t][i].pid;
    }
  }

  /** The three stacks together hold 3 to 6 processes: every PID is on one stack, lost or free. */
  lemma TotalBounds(m: Machine)
    requires WellFormed(m)
    ensures 3 <= Total(m) && Total(m) + |m.leaked| <= NUM_TOTAL_PROC
  {
    assert forall p :: p in m.leaked ==> p < NUM_TOTAL_PROC;
    var a, b, c := PidSet(m.stacks[0]), PidSet(m.stacks[1]), PidSet(m.stacks[2]);
    assert a !! b by { StacksApart(m, 0, 1); }
    assert a !! c by { StacksApart(m, 0, 2); }
    assert b !! c by { StacksApart(m, 1, 2); }
    assert a !! m.leaked && forall p :: p in a ==> p < NUM_TOTAL_PROC by { StacksApart(m, 0, 0); }
    assert b !! m.leaked && forall p :: p in b ==> p < NUM_TOTAL_PROC by { StacksApart(m, 1, 1); }
    assert c !! m.leaked && forall p :: p in c ==> p < NUM_TOTAL_PROC by { StacksApart(m, 2, 2); }
    assert |a| == |m.stacks[0]| by { StacksApart(m, 0, 0); PidSetCount(m.stacks[0]); }
    assert |b| == |m.stacks[1]| by { StacksApart(m, 1, 1); PidSetCount(m.stacks[1]); }
    assert |c| == |m.stacks[2]| by { StacksApart(m, 2, 2); PidSetCount(m.stacks[2]); }
    hide WellFormed, PidSet;
    DisjointCount(a, b, c, m.leaked);
  }

  lemma DisjointCount(a: set<nat>, b: set<nat>, c: set<nat>, d: set<nat>)
    requires a !! b && a !! c && b !! c && a !! d && b !! d && c !! d
    requires forall p :: p in a || p in b || p in c || p in d ==> p < NUM_TOTAL_PROC
    ensures |a| + |b| + |c| + |d| <= NUM_TOTAL_PROC
  {
    UnionCount(a, b, c, d);
    SmallSet(a + b + c + d, NUM_TOTAL_PROC);
  }

  lemma {:induction false} SmallSet(s: set<nat>, n: nat)
    requires forall p :: p in s ==> p < n
    ensures |s| <= n
    decreases n
  {
    if n > 0 {
      SmallSet(s - {n - 1}, n - 1);
      assert s <= (s - {n - 1}) + {n - 1};
      assert |s| <= |s - {n - 1}| + 1;
    }
  }

  /** The j-th event loads an image that `read_data` cannot deliver, when a PID is free for it. */
  ghost predicate LosesPid(m: Machine, events: seq<Event>, j: nat)
    requires WellFormed(m) && AllLegal(events) && j < |events|
  {
    LegalPrefix(events, j);
    events[j].Exec? && events[j].req.Program? && events[j].req.loaded in {0, -1}
    && FreePid(Run(m, events[..j]).0) < NUM_TOTAL_PROC
  }

  /** The busy PIDs are exactly those on the three stacks, unless some load loses one. */
  lemma {:induction false} PidLostExactly(m: Machine, events: seq<Event>)
    requires WellFormed(m) && AllLegal(events) && m.leaked == {}
    ensures Run(m, events).0.leaked == {} <==> forall j :: 0 <= j < |events| ==> !LosesPid(m, events, j)
    decreases |events|
  {
    if events != [] {
      hide *;
      var last := |events| - 1;
      LosesLast(m, events);
      PidLostExactly(m, events[..last]);
      forall j: nat | j < last ensures LosesPid(m, events[..last], j) <==> LosesPid(m, events, j) {
        LosesEarlier(m, events, j);
      }
    }
  }

  lemma LosesEarlier(m: Machine, events: seq<Event>, j: nat)
    requires WellFormed(m) && AllLegal(events) && j < |events| - 1
    ensures AllLegal(events[..|events| - 1]) && (LosesPid(m, events[..|events| - 1], j) <==> LosesPid(m, events, j))
  {
    LegalPrefix(events, |events| - 1);
    assert events[..|events| - 1][..j] == events[..j];
  }

  lemma LosesLast(m: Machine, events: seq<Event>)
    requires WellFormed(m) && AllLegal(events) && events != []
    ensures AllLegal(events[..|events| - 1])
    ensures Run(m, events).0.leaked == {} <==>
            Run(m, events[..|events| - 1]).0.leaked == {} && !LosesPid(m, events, |events| - 1)
  {
    RunLast(m, events);
    LeakStep(Run(m, events[..|events| - 1]).0, events[|events| - 1]);
  }

  lemma LeakStep(m: Machine, e: Event)
    requires Sized(m)
    ensures MachineStep(m, e).0.leaked ==
            if e.Exec? && e.req.Program? && e.req.loaded in {0, -1} && FreePid(m) < NUM_TOTAL_PROC
            then m.leaked + {FreePid(m)} else m.leaked
  {
  }

  // ---- what holds in every reachable state ----

  /** The facts a reader of the C code would want of every moment after boot. */
  ghost predicate Sound(s: State, m: Machine) {
    && Represents(s, m)
    && 3 <= s.activeProcNum <= NUM_TOTAL_PROC
    && s.cr3 == s.currPid == s.terminal[s.currTerm].pid
    && s.esp0 - s.esp0 % 0x2000 == PcbBase(s.currPid)
    && s.terminal[s.tail].next == s.head
  }

  lemma RepresentsSound(s: State, m: Machine)
    requires Represents(s, m)
    ensures Sound(s, m)
  {
    TotalBounds(m);
    assert s.terminal[m.running].pid == TopPid(m, m.running);
    assert ProcOk(s, m, m.running, |m.stacks[m.running]| - 1);
    FetchPcbExact(s.currPid, s.esp0);
  }

  lemma AlwaysSound(mem: Memory, eip: int, size: nat, events: seq<Event>)
    requires size > 0 && EnabledRun(BootState(mem, eip, size), events, eip, size)
    ensures AllLegal(events) && WellFormed(Booted(eip))
    ensures Sound(KernelRun(BootState(mem, eip, size), events, eip, size).0, Run(Booted(eip), events).0)
  {
    var s := BootState(mem, eip, size);
    BootRepresents(mem, eip, size);
    RunsRefine(s, Booted(eip), events, eip, size);
    RepresentsSound(KernelRun(s, events, eip, size).0, Run(Booted(eip), events).0);
  }

  /** Read off the kernel's own outputs: every return gives the status of the `halt` at that moment to
      the innermost unfinished `execute` of its terminal, and every context switch resumes the registers
      saved by the tick that last switched that terminal out, or starts a shell that never ran. */
  lemma KernelTrace(mem: Memory, eip: int, size: nat, events: seq<Event>)
    requires size > 0 && EnabledRun(BootState(mem, eip, size), events, eip, size)
    ensures var trace := KernelRun(BootState(mem, eip, size), events, eip, size).1;
            forall j :: 0 <= j < |events| ==>
              ReturnsToCaller(trace, j) && AnswersHalt(events, trace, j) && ResumesLastSaved(eip, trace, j)
  {
    BootRepresents(mem, eip, size);
    RunsRefine(BootState(mem, eip, size), Booted(eip), events, eip, size);
    hide KernelRun, Run, EnabledRun, ReturnsToCaller, AnswersHalt, ResumesLastSaved, Represents, BootState, Booted;
    CallsMatchReturns(eip, events);
    ReturnsStatus(Booted(eip), events);
    SwitchesResume(eip, events);
  }

  // ---- lost PIDs ----

  ghost function BusySet(status: seq<bool>): (pids: set<nat>) {
    set p: nat | p < |status| && status[p]
  }

  /** The busy PIDs are those on the three stacks and the lost ones. */
  lemma BusyCount(s: State, m: Machine)
    requires Represents(s, m)
    ensures |BusySet(s.status)| == s.activeProcNum + |m.leaked|
  {
    var a, b, c := PidSet(m.stacks[0]), PidSet(m.stacks[1]), PidSet(m.stacks[2]);
    BusyIsUnion(s, m);
    assert a !! b by { StacksApart(m, 0, 1); }
    assert a !! c by { StacksApart(m, 0, 2); }
    assert b !! c by { StacksApart(m, 1, 2); }
    assert a !! m.leaked && |a| == |m.stacks[0]| by { StacksApart(m, 0, 0); PidSetCount(m.stacks[0]); }
    assert b !! m.leaked && |b| == |m.stacks[1]| by { StacksApart(m, 1, 1); PidSetCount(m.stacks[1]); }
    assert c !! m.leaked && |c| == |m.stacks[2]| by { StacksApart(m, 2, 2); PidSetCount(m.stacks[2]); }
    assert s.activeProcNum == |m.stacks[0]| + |m.stacks[1]| + |m.stacks[2]|;
    hide *;
    UnionCount(a, b, c, m.leaked);
  }

  lemma UnionCount(a: set<nat>, b: set<nat>, c: set<nat>, d: set<nat>)
    requires a !! b && a !! c && b !! c && a !! d && b !! d && c !! d
    ensures |a + b + c + d| == |a| + |b| + |c| + |d|
  {
    assert |a + b| == |a| + |b|;
    assert |a + b + c| == |a + b| + |c|;
    assert |a + b + c + d| == |a + b + c| + |d|;
  }

  lemma BusyIsUnion(s: State, m: Machine)
    requires Represents(s, m)
    ensures BusySet(s.status) == PidSet(m.stacks[0]) + PidSet(m.stacks[1]) + PidSet(m.stacks[2]) + m.leaked
  {
    var union := PidSet(m.stacks[0]) + PidSet(m.stacks[1]) + PidSet(m.stacks[2]) + m.leaked;
    forall p: nat ensures p in BusySet(s.status) <==> p in union {
      BusyIsIn(s, m, p);
    }
  }

  lemma BusyIsIn(s: State, m: Machine, p: nat)
    requires Represents(s, m)
    ensures p in BusySet(s.status) <==>
            p in PidSet(m.stacks[0]) || p in PidSet(m.stacks[1]) || p in PidSet(m.stacks[2]) || p in m.leaked
  {
    if p < NUM_TOTAL_PROC { assert s.status[p] <==> Busy(m, p); }
    if OnStack(m, p) {
      var t: nat, i: nat :| At(m, t, i) && PidAt(m, t, i) == p;
      assert t < 3 && m.stacks[t][i].pid == p;
      assert p in PidSet(m.stacks[t]);
    }
    forall t: nat | t < 3 && p in PidSet(m.stacks[t]) ensures p < NUM_TOTAL_PROC && OnStack(m, p) {
      var i :| 0 <= i < |m.stacks[t]| && m.stacks[t][i].pid == p;
      assert At(m, t, i) && PidAt(m, t, i) == p;
    }
  }

  /** The j-th event of a run of the kernel loads nothing, although a PID is free for it. */
  ghost predicate LoadsNothing(s: State, events: seq<Event>, eip: int, size: nat, j: nat)
    requires InRange(s) && j < |events|
  {
    events[j].Exec? && events[j].req.Program? && events[j].req.loaded in {0, -1}
    && LowestFree(KernelRun(s, events[..j], eip, size).0.status, 0) < NUM_TOTAL_PROC
  }

  /** After boot and any run the number of busy PIDs is `active_proc_num` exactly if no event of the run
      loaded nothing while a PID was free. */
  lemma BusyExactly(mem: Memory, eip: int, size: nat, events: seq<Event>)
    requires size > 0 && EnabledRun(BootState(mem, eip, size), events, eip, size)
    ensures var s := BootState(mem, eip, size);
            var s' := KernelRun(s, events, eip, size).0;
            |BusySet(s'.status)| == s'.activeProcNum <==>
            forall j :: 0 <= j < |events| ==> !LoadsNothing(s, events, eip, size, j)
  {
    var s, m := BootState(mem, eip, size), Booted(eip);
    BootRepresents(mem, eip, size);
    RunsRefine(s, m, events, eip, size);
    BusyCount(KernelRun(s, events, eip, size).0, Run(m, events).0);
    PidLostExactly(m, events);
    forall j: nat | j < |events| ensures LoadsNothing(s, events, eip, size, j) <==> LosesPid(m, events, j) {
      LosesAlike(s, m, events, eip, size, j);
    }
    hide *;
  }

  lemma LosesAlike(s: State, m: Machine, events: seq<Event>, eip: int, size: nat, j: nat)
    requires Represents(s, m) && size > 0 && EnabledRun(s, events, eip, size) && m.shell == eip && AllLegal(events) && j < |events|
    ensures LoadsNothing(s, events, eip, size, j) <==> LosesPid(m, events, j)
  {
    EnabledPrefix(s, events, eip, size, j);
    RunsRefine(s, m, events[..j], eip, size);
    RootsBusy(KernelRun(s, events[..j], eip, size).0, Run(m, events[..j]).0);
  }

  lemma {:induction false} EnabledPrefix(s: State, events: seq<Event>, eip: int, size: nat, k: nat)
    requires InRange(s) && EnabledRun(s, events, eip, size) && k <= |events|
    ensures EnabledRun(s, events[..k], eip, size)
    decreases |events|
  {
    if k < |events| {
      var shorter := events[..|events| - 1];
      EnabledPrefix(s, shorter, eip, size, k);
      assert shorter[..k] == events[..k];
    } else {
      assert events[..k] == events;
    }
  }

  /** From every reachable state: whatever happens between them, one of any three ticks comes when the
      scheduler's list points at the given active terminal, and makes it the current one. */
  lemma KernelTurns(s: State, m: Machine, events: seq<Event>, eip: int, size: nat, t: nat) returns (k: nat)
    requires Represents(s, m) && size > 0 && EnabledRun(s, events, eip, size) && m.shell == eip
    requires Ticks(events) >= 3 && t < 3 && s.terminal[t].active
    ensures 0 < k <= |events| && events[k - 1].Tick? && Ticks(events[..k]) <= 3
    ensures KernelRun(s, events[..k - 1], eip, size).0.head == t
    ensures KernelRun(s, events[..k], eip, size).0.currTerm == t
  {
    RunsRefine(s, m, events, eip, size);
    k := EveryActiveTerminalRuns(m, events, t);
    EnabledPrefix(s, events, eip, size, k);
    EnabledPrefix(s, events, eip, size, k - 1);
    RunsRefine(s, m, events[..k], eip, size);
    RunsRefine(s, m, events[..k - 1], eip, size);
  }

  // ---- two ways in which the code falls short, with their exact conditions ----

  /** `execute` leaves IRQ0 masked exactly when it refuses a command before looking for a PID. */
  lemma MaskedAfterExecute(s: State, m: Machine, req: Request, fr: Frame)
    requires Represents(s, m)
    ensures !Execute(s, req, fr).0.irq0 <==> req.BadLength? || req.NoSuchFile? || req.ReadFailed? || req.NotElf?
  {
    hide Execute;
    ExecuteCases(s, m, req, fr);
    MaskOfExecute(s, req, fr);
  }

  lemma MaskOfExecute(s: State, req: Request, fr: Frame)
    requires InRange(s) && LowestFree(s.status, 0) >= 3
    requires Execute(s, req, fr).1.Refused? || Execute(s, req, fr).1.Launched?
    ensures !Execute(s, req, fr).0.irq0 <==> req.BadLength? || req.NoSuchFile? || req.ReadFailed? || req.NotElf?
  {
    if req.Program? {
      var pid := LowestFree(s.status, 0);
      if pid < NUM_TOTAL_PROC && req.loaded != 0 && req.loaded != -1 {
        StartUnmasks(s.(irq0 := false), pid, req.eip, fr);
      }
    }
  }

  lemma StartUnmasks(s: State, pid: nat, eip: int, fr: Frame)
    requires InRange(s) && 3 <= pid < NUM_TOTAL_PROC
    ensures Start(s, pid, eip, fr).1.Launched? ==> Start(s, pid, eip, fr).0.irq0
  {
  }

  /** From then on no tick arrives, so no other process runs, until the same process executes or
      halts again. */
  lemma {:induction false} MaskedMeansNoSwitch(s: State, events: seq<Event>, eip: int, size: nat)
    requires InRange(s) && !s.irq0 && EnabledRun(s, events, eip, size)
    requires forall j :: 0 <= j < |events| ==> !events[j].Exec? && !events[j].Halt?
    ensures forall j :: 0 <= j < |events| ==> !events[j].Tick?
    ensures var s' := KernelRun(s, events, eip, size).0; !s'.irq0 && s'.currPid == s.currPid
    decreases |events|
  {
    if events != [] {
      hide *;
      var shorter, last := events[..|events| - 1], events[|events| - 1];
      EnabledLast(s, events, eip, size);
      assert forall j :: 0 <= j < |shorter| ==> shorter[j] == events[j];
      MaskedMeansNoSwitch(s, shorter, eip, size);
      MaskedStep(KernelRun(s, shorter, eip, size).0, last, eip, size);
    }
  }

  lemma MaskedStep(s: State, e: Event, eip: int, size: nat)
    requires InRange(s) && !s.irq0 && Enabled(s, e) && !e.Exec? && !e.Halt?
    ensures !e.Tick? && !Next(s, e, eip, size).0.irq0 && Next(s, e, eip, size).0.currPid == s.currPid
  {
  }

  /** A launch and the halt of the launched program, with nothing in between. */
  ghost function Round(s: State, eip: int, fr: Frame): State
    requires InRange(s)
    ensures InRange(Round(s, eip, fr))
  {
    var s1 := Execute(s, Program(eip, 1), fr).0;
    Halted(s1, 0, eip, 1).0
  }

  ghost function Rounds(s: State, eip: int, fr: Frame, n: nat): (s': State)
    requires InRange(s)
    ensures InRange(s')
    decreases n
  {
    if n == 0 then s else Round(Rounds(s, eip, fr, n - 1), eip, fr)
  }

  /** The room left for the frames of one more launch. */
  ghost predicate Fits(s: State, fr: Frame) {
    Floor(s.currPid) <= s.esp0 - fr.depth
  }

  /** `m` after `n` launches in a row, each undone by the launched program's halt: the same stacks, and
      the kernel entered lower by `n` times what `execute` had on the stack. */
  ghost function AfterRounds(m: Machine, fr: Frame, n: nat): (m': Machine)
    ensures m'.stacks == m.stacks && m'.leaked == m.leaked && m'.running == m.running && m'.ctx == m.ctx
    ensures m'.esp0 == m.esp0 - n * fr.toEsp
  {
    m.(timerOn := m.timerOn || n > 0, calls := m.calls + n, esp0 := m.esp0 - n * fr.toEsp)
  }

  lemma OneMoreRound(m: Machine, fr: Frame, n: nat)
    ensures AfterRounds(AfterRounds(m, fr, n), fr, 1) == AfterRounds(m, fr, n + 1)
  {
    assert (n + 1) * fr.toEsp == n * fr.toEsp + fr.toEsp;
  }

  lemma ExitUndoesLaunch(m: Machine, req: Request, fr: Frame)
    requires Sized(m) && Launch(m, req, fr).1.Launched?
    ensures Exit(Launch(m, req, fr).0, 0).0 == AfterRounds(m, fr, 1)
  {
    var m1 := Launch(m, req, fr).0;
    assert m1.stacks[m.running][..|m1.stacks[m.running]| - 1] == m.stacks[m.running];
    assert Exit(m1, 0).0.stacks == m.stacks;
  }

  lemma LaunchedReturns(s: State, m: Machine, eip: int, m': Machine)
    requires Represents(s, m) && |m.stacks[m.running]| > 1 && m' == Exit(m, 0).0
    ensures Represents(Halted(s, 0, eip, 1).0, m')
  {
    assert PidAt(m, m.running, |m.stacks[m.running]| - 1) >= 3;
    SimulateReturn(s, m, 0, eip, 1);
  }

  lemma RoundRepresents(s: State, m: Machine, eip: int, fr: Frame)
    requires Represents(s, m) && FreePid(m) < NUM_TOTAL_PROC && fr.Proper() && Fits(s, fr)
    ensures Represents(Round(s, eip, fr), AfterRounds(m, fr, 1))
  {
    var req := Program(eip, 1);
    SimulateExec(s, m, req, fr);
    ExitUndoesLaunch(m, req, fr);
    LaunchedReturns(Execute(s, req, fr).0, Launch(m, req, fr).0, eip, AfterRounds(m, fr, 1));
  }

  lemma LaunchExits(m: Machine, eip: int, fr: Frame, status: nat)
    requires Sized(m) && FreePid(m) < NUM_TOTAL_PROC
    ensures var (m1, launched) := Launch(m, Program(eip, 1), fr);
            && launched == Launched(m.running, FreePid(m), eip, Caller(m.calls, fr.ebp, m.esp0 - fr.toEsp))
            && Sized(m1) && |m1.stacks[m1.running]| > 1
            && Exit(m1, status).1 == Returned(m.running, Some(m.calls), fr.ebp, m.esp0 - fr.toEsp, status)
  {
  }

  /** Whenever a PID is free and the frames fit, a program can be run: it is launched, and its halt
      hands the status to the call that launched it, with the stack as that call had left it. */
  lemma LaunchThenHalt(s: State, m: Machine, eip: int, fr: Frame, status: nat, size: nat)
    requires Represents(s, m) && FreePid(m) < NUM_TOTAL_PROC && fr.Proper() && Fits(s, fr) && status < 256
    ensures var (s1, launched) := Execute(s, Program(eip, 1), fr);
            && launched == Launched(m.running, FreePid(m), eip, Caller(m.calls, fr.ebp, s.esp0 - fr.toEsp))
            && InRange(s1)
            && Halted(s1, status, eip, size).1 == Returned(m.running, Some(m.calls), fr.ebp, s.esp0 - fr.toEsp, status)
  {
    var req := Program(eip, 1);
    SimulateExec(s, m, req, fr);
    LaunchExits(m, eip, fr, status);
    var s1, m1 := Execute(s, req, fr).0, Launch(m, req, fr).0;
    assert InRange(s1) && s.esp0 == m.esp0;
    assert s1.currPid >= 3 by { assert PidAt(m1, m1.running, |m1.stacks[m1.running]| - 1) >= 3; }
    hide Execute, Launch, Exit, Represents, FreePid;
    SimulateReturn(s1, m1, status, eip, size);
  }

  lemma SameFree(m: Machine, m': Machine)
    requires m'.stacks == m.stacks && m'.leaked == m.leaked
    ensures FreePid(m') == FreePid(m)
  {
    SameStacks(m, m');
  }

  /** tss.esp0 is restored to the esp inside `execute`, not to the top of the stack, so while no
      switch resets it each program run lowers it by the same amount: by NextLaunchFits, the
      (n+1)-th launch in a row fits above the PCB exactly while n * toEsp + depth is within
      the room there was at the start. */
  lemma {:induction false} LaunchesInARow(s: State, m: Machine, eip: int, fr: Frame, n: nat)
    requires InRange(s) && Sized(m)
    requires Represents(s, m) && FreePid(m) < NUM_TOTAL_PROC && fr.Proper()
    requires n == 0 || (n - 1) * fr.toEsp + fr.depth <= s.esp0 - Floor(s.currPid)
    ensures Represents(Rounds(s, eip, fr, n), AfterRounds(m, fr, n))
    decreases n
  {
    hide Round, Represents, FreePid, Fits;
    if n == 0 {
      assert AfterRounds(m, fr, 0) == m;
    } else {
      var before, m1 := Rounds(s, eip, fr, n - 1), AfterRounds(m, fr, n - 1);
      LaunchesInARow(s, m, eip, fr, n - 1);
      NextLaunchFits(s, before, m, fr, n - 1);
      SameFree(m, m1);
      RoundRepresents(before, m1, eip, fr);
      OneMoreRound(m, fr, n - 1);
    }
  }

  lemma NextLaunchFits(s: State, s': State, m: Machine, fr: Frame, n: nat)
    requires Represents(s, m) && Represents(s', AfterRounds(m, fr, n))
    ensures Fits(s', fr) <==> n * fr.toEsp + fr.depth <= s.esp0 - Floor(s.currPid)
  {
    SameTop(m, AfterRounds(m, fr, n));
  }

  lemma SameTop(m: Machine, m': Machine)
    requires Sized(m) && m'.stacks == m.stacks && m'.running == m.running
    ensures Top(m'.stacks[m'.running]) == Top(m.stacks[m.running])
  {
  }

  lemma SwitchResetsEsp0(s: State, m: Machine, cpu: Cpu, kernelEsp: int)
    requires Represents(s, m) && ContextSwitch(s, cpu, kernelEsp).1.Switched?
    ensures var s' := ContextSwitch(s, cpu, kernelEsp).0; s'.esp0 == StackTop(s'.currPid)
  {
  }

  /** A context switch undoes the drift: however low tss.esp0 had sunk before, as many launches in a
      row fit after it as fit into a whole stack. */
  lemma SwitchMakesRoom(s: State, m: Machine, cpu: Cpu, kernelEsp: int, eip: int, fr: Frame, n: nat)
    requires Represents(s, m) && Enabled(s, Tick(cpu, kernelEsp)) && ContextSwitch(s, cpu, kernelEsp).1.Switched?
    requires FreePid(m) < NUM_TOTAL_PROC && fr.Proper()
    requires n == 0 || (n - 1) * fr.toEsp + fr.depth <= 0x2000 - 4 - PCB_SIZE
    ensures InRange(ContextSwitch(s, cpu, kernelEsp).0)
    ensures var s' := Rounds(ContextSwitch(s, cpu, kernelEsp).0, eip, fr, n);
            Fits(s', fr) <==> n * fr.toEsp + fr.depth <= 0x2000 - 4 - PCB_SIZE
  {
    SimulateTick(s, m, cpu, kernelEsp);
    SwitchResetsEsp0(s, m, cpu, kernelEsp);
    var s1, m1 := ContextSwitch(s, cpu, kernelEsp).0, Rotate(m, cpu, kernelEsp).0;
    assert m1.stacks == m.stacks && m1.leaked == m.leaked && InRange(s1);
    SameFree(m, m1);
    hide *;
    assert StackTop(s1.currPid) - Floor(s1.currPid) == 0x2000 - 4 - PCB_SIZE by { WholeStack(s1.currPid); }
    RoomInARow(s1, m1, eip, fr, n);
  }

  lemma WholeStack(pid: nat)
    ensures StackTop(pid) - Floor(pid) == 0x2000 - 4 - PCB_SIZE
  {
  }

  lemma RoomInARow(s: State, m: Machine, eip: int, fr: Frame, n: nat)
    requires Represents(s, m) && FreePid(m) < NUM_TOTAL_PROC && fr.Proper()
    requires n == 0 || (n - 1) * fr.toEsp + fr.depth <= s.esp0 - Floor(s.currPid)
    ensures Fits(Rounds(s, eip, fr, n), fr) <==> n * fr.toEsp + fr.depth <= s.esp0 - Floor(s.currPid)
  {
    assert InRange(s) && Sized(m);
    hide Round, Rounds, Represents, FreePid, Fits;
    LaunchesInARow(s, m, eip, fr, n);
    NextLaunchFits(s, Rounds(s, eip, fr, n), m, fr, n);
  }
}
