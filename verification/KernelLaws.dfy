/**
 What each request and each run does to the fields of the kernel's state, told from the events and
 outputs alone: the terminal shown, the terminals scheduled, the interrupt mask, the number of
 processes, the answers of `execute` and `halt`, and where the kernel is entered next.
 */
module KernelLaws {
  import opened Common
  import opened KernelStack
  import opened CallStacks
  import opened ProcessTable
  import opened Refinement
  import opened KernelRuns

  // ---- the terminal shown ----

  /** The terminal of the last switch among `events`, or `first`. */
  ghost function LastShown(events: seq<Event>, first: nat): nat
    decreases |events|
  {
    if events == [] then first
    else if events[|events| - 1].Show? then events[|events| - 1].term
    else LastShown(events[..|events| - 1], first)
  }

  lemma {:induction false} ShownIsLast(s: State, events: seq<Event>, eip: int, size: nat)
    requires InRange(s) && EnabledRun(s, events, eip, size)
    ensures KernelRun(s, events, eip, size).0.termOnScreen == LastShown(events, s.termOnScreen)
    decreases |events|
  {
    if events != [] {
      hide Enabled, Next, EnabledRun, KernelRun, InRange;
      EnabledLast(s, events, eip, size);
      ShownIsLast(s, events[..|events| - 1], eip, size);
      ShowStep(KernelRun(s, events[..|events| - 1], eip, size).0, events[|events| - 1], eip, size);
    }
  }

  lemma ShowStep(s: State, e: Event, eip: int, size: nat)
    requires InRange(s) && Legal(e)
    ensures Next(s, e, eip, size).0.termOnScreen == if e.Show? then e.term else s.termOnScreen
  {
    hide InRange;
    match e
    case Exec(req, fr) => ExecuteShows(s, req, fr);
    case Halt(status) => HaltShows(s, status, eip, size);
    case _ =>
  }

  lemma ExecuteShows(s: State, req: Request, fr: Frame)
    requires InRange(s)
    ensures Execute(s, req, fr).0.termOnScreen == s.termOnScreen
  {
    hide InRange, LowestFree;
  }

  lemma HaltShows(s: State, status: nat, eip: int, size: nat)
    requires InRange(s)
    ensures Halted(s, status, eip, size).0.termOnScreen == s.termOnScreen
  {
    hide Execute;
    if s.currPid < 3 {
      ExecuteShows(s.(activeProcNum := s.activeProcNum - 1, status := s.status[s.currPid := false],
                      activeRootShell := s.activeRootShell - 1), Program(eip, size), NoFrame);
    }
  }

  // ---- the terminals scheduled ----

  /** A terminal takes part in the rotation exactly if it did at the start or has been shown. */
  lemma {:induction false} ActiveIfShown(m: Machine, events: seq<Event>, t: nat)
    requires WellFormed(m) && AllLegal(events) && t < 3
    ensures Run(m, events).0.active[t] <==> m.active[t] || Show(t) in events
    decreases |events|
  {
    if events != [] {
      var shorter, e := events[..|events| - 1], events[|events| - 1];
      RunLast(m, events);
      ActiveIfShown(m, shorter, t);
      IsSized(Run(m, shorter).0);
      IsSized(Run(m, events).0);
      hide *;
      ActiveStep(Run(m, shorter).0, e, t);
      OneMoreEvent(events, Show(t));
    }
  }

  lemma OneMoreEvent(events: seq<Event>, e: Event)
    requires events != []
    ensures e in events <==> events[|events| - 1] == e || e in events[..|events| - 1]
  {
    assert events == events[..|events| - 1] + [events[|events| - 1]];
  }

  lemma ActiveStep(m: Machine, e: Event, t: nat)
    requires Sized(m) && Legal(e) && t < 3
    ensures Sized(MachineStep(m, e).0) ==> (MachineStep(m, e).0.active[t] <==> m.active[t] || e == Show(t))
  {
  }

  lemma KernelActive(s: State, m: Machine, events: seq<Event>, eip: int, size: nat, t: nat)
    requires Represents(s, m) && size > 0 && EnabledRun(s, events, eip, size) && m.shell == eip && t < 3
    ensures var s' := KernelRun(s, events, eip, size).0;
            s'.terminal[t].active <==> s.terminal[t].active || Show(t) in events
  {
    RunsRefine(s, m, events, eip, size);
    ActiveIfShown(m, events, t);
    ActiveFlag(s, m, t);
    ActiveFlag(KernelRun(s, events, eip, size).0, Run(m, events).0, t);
    hide *;
  }

  lemma ActiveFlag(s: State, m: Machine, t: nat)
    requires Represents(s, m) && t < 3
    ensures |s.terminal| == |m.active| == 3 && (s.terminal[t].active <==> m.active[t])
  {
  }

  // ---- the interrupt mask ----

  /** The last call of `execute` or `halt` among `events` was one of the four refusals that come before
      the search for a PID; without any such call, `before`. */
  ghost function LastCallMasks(events: seq<Event>, before: bool): bool
    decreases |events|
  {
    if events == [] then before
    else
      match events[|events| - 1]
      case Exec(req, _) => req == BadLength || req == NoSuchFile || req == ReadFailed || req == NotElf
      case Halt(_) => false
      case _ => LastCallMasks(events[..|events| - 1], before)
  }

  lemma {:induction false} MaskedByLastCall(m: Machine, events: seq<Event>)
    requires WellFormed(m) && AllLegal(events)
    ensures Run(m, events).0.timerOn <==> !LastCallMasks(events, !m.timerOn)
    decreases |events|
  {
    if events != [] {
      RunLast(m, events);
      MaskedByLastCall(m, events[..|events| - 1]);
      IsSized(Run(m, events[..|events| - 1]).0);
      MaskStep(Run(m, events[..|events| - 1]).0, events, m);
    }
  }

  lemma MaskStep(m1: Machine, events: seq<Event>, m: Machine)
    requires Sized(m1) && events != [] && (m1.timerOn <==> !LastCallMasks(events[..|events| - 1], !m.timerOn))
    ensures MachineStep(m1, events[|events| - 1]).0.timerOn <==> !LastCallMasks(events, !m.timerOn)
  {
    hide FreePid;
  }

  /** In every reachable state IRQ0 is masked exactly if the last `execute` or `halt` was such a refusal. */
  lemma KernelMasked(mem: Memory, eip: int, size: nat, events: seq<Event>)
    requires size > 0 && EnabledRun(BootState(mem, eip, size), events, eip, size)
    ensures !KernelRun(BootState(mem, eip, size), events, eip, size).0.irq0 <==> LastCallMasks(events, false)
  {
    BootRepresents(mem, eip, size);
    RunsRefine(BootState(mem, eip, size), Booted(eip), events, eip, size);
    MaskedByLastCall(Booted(eip), events);
  }

  // ---- how many processes ----

  ghost function Launches(trace: seq<Output>): nat
    decreases |trace|
  {
    if trace == [] then 0 else Launches(trace[..|trace| - 1]) + if trace[|trace| - 1].Launched? then 1 else 0
  }

  ghost function Returns(trace: seq<Output>): nat
    decreases |trace|
  {
    if trace == [] then 0 else Returns(trace[..|trace| - 1]) + if trace[|trace| - 1].Returned? then 1 else 0
  }

  lemma {:induction false} TotalCounts(m: Machine, events: seq<Event>)
    requires WellFormed(m) && AllLegal(events)
    ensures Total(Run(m, events).0) == Total(m) + Launches(Run(m, events).1) - Returns(Run(m, events).1)
    decreases |events|
  {
    if events != [] {
      var shorter := events[..|events| - 1];
      RunLast(m, events);
      TotalCounts(m, shorter);
      var trace := Run(m, events).1;
      assert trace[..|trace| - 1] == Run(m, shorter).1;
      TotalStep(Run(m, shorter).0, events[|events| - 1]);
    }
  }

  lemma TotalStep(m: Machine, e: Event)
    requires WellFormed(m) && Legal(e)
    ensures var (m', out) := MachineStep(m, e);
            Sized(m') ==> Total(m') == Total(m) + (if out.Launched? then 1 else 0) - if out.Returned? then 1 else 0
  {
  }

  /** `active_proc_num` counts: three shells, and the launches that have not returned. */
  lemma ProcessesCounted(mem: Memory, eip: int, size: nat, events: seq<Event>)
    requires size > 0 && EnabledRun(BootState(mem, eip, size), events, eip, size)
    ensures var (s', trace) := KernelRun(BootState(mem, eip, size), events, eip, size);
            s'.activeProcNum == 3 + Launches(trace) - Returns(trace)
  {
    BootRepresents(mem, eip, size);
    RunsRefine(BootState(mem, eip, size), Booted(eip), events, eip, size);
    TotalCounts(Booted(eip), events);
  }

  // ---- what execute and halt answer ----

  predicate Full(status: seq<bool>) { forall p :: 0 <= p < |status| ==> status[p] }

  /** `execute` answers -1 to the four early errors and to an image that cannot be loaded, and 0 to
      "clear" and when no PID is free. Everything else is a launch. */
  lemma ExecuteRefuses(s: State, m: Machine, req: Request, fr: Frame)
    requires Represents(s, m)
    ensures var out := Execute(s, req, fr).1;
            && (out == Refused(-1) <==> req == BadLength || req == NoSuchFile || req == ReadFailed || req == NotElf
                                        || (req.Program? && !Full(s.status) && (req.loaded == 0 || req.loaded == -1)))
            && (out == Refused(0) <==> req == Clear || (req.Program? && Full(s.status)))
            && (out.Refused? ==> out.value == 0 || out.value == -1)
            && (!out.Refused? ==> out.Launched?)
  {
    ExecuteCases(s, m, req, fr);
    assert InRange(s);
    FullMeansNone(s.status);
    hide Represents, FreePid, LowestFree, Start, Take, Full;
  }

  lemma FullMeansNone(status: seq<bool>)
    requires |status| == NUM_TOTAL_PROC
    ensures LowestFree(status, 0) == NUM_TOTAL_PROC <==> Full(status)
  {
  }

  /** A launch is of the program's own entry point under the lowest free PID, on the running terminal,
      with the running process as its parent. */
  lemma ExecuteLaunches(s: State, m: Machine, req: Request, fr: Frame)
    requires Represents(s, m) && Execute(s, req, fr).1.Launched?
    ensures var (s', out) := Execute(s, req, fr);
            && req.Program? && out.eip == req.eip && out.term == s.currTerm
            && out.pid < |s.status| && !s.status[out.pid] && (forall p :: 0 <= p < out.pid ==> s.status[p])
            && s'.status == s.status[out.pid := true] && s'.currPid == out.pid && s'.pcb[out.pid].parent == Some(s.currPid)
  {
    ExecuteCases(s, m, req, fr);
    ShellsCounted(s, m);
    var free := LowestFree(s.status, 0);
    assert s.currPid != free && InRange(s) by {
      assert OnStack(m, s.currPid) by { assert At(m, m.running, |m.stacks[m.running]| - 1); }
    }
    hide *;
    StartAnswers(s.(irq0 := false), free, req.eip, fr);
  }

  lemma StartAnswers(s: State, pid: nat, eip: int, fr: Frame)
    requires InRange(s) && 3 <= pid < NUM_TOTAL_PROC && s.activeRootShell == 3 && s.activeProcNum >= 3 && pid != s.currPid
    ensures var (s', out) := Start(s, pid, eip, fr);
            && out.Launched? && out.pid == pid && out.eip == eip && out.term == s.currTerm
            && s'.status == s.status[pid := true] && s'.currPid == pid && s'.pcb[pid].parent == Some(s.currPid)
  {
  }

  // ---- where the kernel is entered next ----

  /** A launched program, a shell that starts again and a terminal that is switched to have their whole
      kernel stack; a process that gets its child's status goes on at the esp it launched the child with;
      nothing else moves tss.esp0. */
  lemma Esp0Step(s: State, m: Machine, e: Event, eip: int, size: nat)
    requires Represents(s, m) && Enabled(s, e) && size > 0 && m.shell == eip
    ensures var (s', out) := Next(s, e, eip, size);
            match out
            case Launched(_, pid, _, caller) => e.Exec? && s'.currPid == pid && s'.esp0 == 0x7FFFFC - 0x2000 * pid
                                                && caller.esp == s.esp0 - e.fr.toEsp
            case Restarted(t, start) => s'.currPid == t == s.currPid && start == eip && s'.esp0 == 0x7FFFFC - 0x2000 * t
            case Switched(_, _, _, t, _) => s'.currTerm == t && s'.esp0 == 0x7FFFFC - 0x2000 * s'.currPid
            case Returned(_, _, _, esp, _) => s'.esp0 == esp
            case _ => s'.esp0 == s.esp0 && s'.currPid == s.currPid
  {
    Simulates(s, m, e, eip, size);
    var m' := MachineStep(m, e).0;
    assert s.esp0 == m.esp0 && s.currPid == TopPid(m, m.running);
    assert InRange(Next(s, e, eip, size).0) && Next(s, e, eip, size).0.esp0 == m'.esp0
           && Next(s, e, eip, size).0.currPid == TopPid(m', m'.running) && Next(s, e, eip, size).0.currTerm == m'.running;
    assert forall t :: 0 <= t < 3 ==> PidAt(m, t, 0) == t;
    hide Represents, Enabled, Next, FreePid;
    MachineEsp0(m, e, m');
  }

  lemma MachineEsp0(m: Machine, e: Event, m': Machine)
    requires Sized(m) && Sized(m') && m' == MachineStep(m, e).0 && forall t :: 0 <= t < 3 ==> PidAt(m, t, 0) == t
    ensures match MachineStep(m, e).1
            case Launched(_, pid, _, caller) => e.Exec? && TopPid(m', m'.running) == pid && m'.esp0 == 0x7FFFFC - 0x2000 * pid
                                                && caller.esp == m.esp0 - e.fr.toEsp
            case Restarted(t, start) => TopPid(m', m'.running) == t == TopPid(m, m.running) && start == m.shell
                                        && m'.esp0 == 0x7FFFFC - 0x2000 * t
            case Switched(_, _, _, t, _) => m'.running == t && m'.esp0 == 0x7FFFFC - 0x2000 * TopPid(m', t)
            case Returned(_, _, _, esp, _) => m'.esp0 == esp
            case _ => m'.esp0 == m.esp0 && TopPid(m', m'.running) == TopPid(m, m.running)
  {
    hide FreePid;
    assert PidAt(m, m.running, 0) == m.running && m.stacks[m.running][0].pid == m.running;
  }

  /** After each of the first three exactly the frames that fit into an empty stack fit. */
  lemma FreshStackFits(s: State, m: Machine, e: Event, eip: int, size: nat, fr: Frame)
    requires Represents(s, m) && Enabled(s, e) && size > 0 && m.shell == eip
    requires var out := Next(s, e, eip, size).1; out.Launched? || out.Restarted? || out.Switched?
    ensures Fits(Next(s, e, eip, size).0, fr) <==> fr.depth <= 0x2000 - 4 - PCB_SIZE
  {
    hide Represents, Enabled, Next;
    Esp0Step(s, m, e, eip, size);
  }
}
