/**
 What the process code is for: three terminals, each holding a call stack of processes.
 `execute` pushes, `halt` pops, the timer rotates among the terminals. Nothing in the kernel
 stores these stacks; ProcessTable.dfy models what it does store, and Refinement.dfy proves
 that the kernel behaves as this machine does.
 */
module CallStacks {
  import opened Common
  import opened KernelStack

  /** An activation of `execute` that waits for the program it launched: its number, its frame
      pointer and its stack pointer. */
  datatype Caller = Caller(call: nat, ebp: int, esp: int)

  /** A process and its caller; a root shell has none. */
  datatype Proc = Proc(pid: nat, caller: Caller)

  const NoCaller := Caller(0, 0, 0)

  /** How the process on top of a terminal's stack will next get the CPU. */
  datatype Context = Running | NotStarted(eip: int) | Saved(cpu: Cpu, at: Option<int>)

  datatype Machine = Machine(
    stacks: seq<seq<Proc>>, ctx: seq<Context>, active: seq<bool>,
    running: nat, turn: nat, leaked: set<nat>, calls: nat, timerOn: bool,
    esp0: int,    // where the running process enters the kernel
    shell: int)   // the shell's entry point

  /** A parsed command and what the file system says about it. `loaded` is what the copy of the
      program image returned. */
  datatype Request =
    | BadLength | Clear | NoSuchFile | ReadFailed | NotElf
    | Program(eip: int, loaded: int)

  datatype Event =
    | Exec(req: Request, fr: Frame)
    | Halt(status: nat)
    | Tick(cpu: Cpu, kernelEsp: int)
    | Show(term: nat)
    | Work(writes: Memory)

  datatype Entry = Fresh(eip: int) | Resumed(cpu: Cpu, at: Option<int>)

  datatype Output =
    | Refused(value: int)
    | Deferred(pid: nat)
    | Launched(term: nat, pid: nat, eip: int, caller: Caller)
    | Restarted(term: nat, eip: int)
    | Returned(term: nat, into: Option<nat>, ebp: int, esp: int, value: int)
    | Kept
    | Switched(from: nat, cpu: Cpu, at: Option<int>, to: nat, how: Entry)
    | Silent

  ghost function Top(s: seq<Proc>): Proc requires s != [] { s[|s| - 1] }

  ghost predicate Sized(m: Machine) {
    && |m.stacks| == |m.ctx| == |m.active| == 3
    && m.running < 3 && m.turn < 3
    && forall t :: 0 <= t < 3 ==> m.stacks[t] != []
  }

  ghost predicate At(m: Machine, t: nat, i: nat) { t < |m.stacks| && i < |m.stacks[t]| }

  ghost function PidAt(m: Machine, t: nat, i: nat): nat requires At(m, t, i) { m.stacks[t][i].pid }

  ghost predicate Distinct(m: Machine) {
    forall t, i, u, j {:trigger PidAt(m, t, i), PidAt(m, u, j)} ::
      At(m, t, i) && At(m, u, j) && PidAt(m, t, i) == PidAt(m, u, j) ==> t == u && i == j
  }

  ghost predicate OnStack(m: Machine, pid: nat) { exists t, i :: At(m, t, i) && PidAt(m, t, i) == pid }

  ghost predicate Busy(m: Machine, pid: nat) { pid in m.leaked || OnStack(m, pid) }

  /** The invariant of the stack machine. */
  ghost predicate WellFormed(m: Machine) {
    && Sized(m)
    && Distinct(m)
    && (forall t, i {:trigger PidAt(m, t, i)} :: At(m, t, i) ==>
          PidAt(m, t, i) < NUM_TOTAL_PROC && PidAt(m, t, i) !in m.leaked && (i == 0 <==> PidAt(m, t, i) < 3))
    && (forall t :: 0 <= t < 3 ==> PidAt(m, t, 0) == t)
    && (forall p :: p in m.leaked ==> 3 <= p < NUM_TOTAL_PROC)
    && m.active[m.running]
    && (forall t :: 0 <= t < 3 ==> (m.ctx[t].Running? <==> t == m.running))
    && (forall t :: 0 <= t < 3 ==> m.ctx[t].NotStarted? ==> |m.stacks[t]| == 1)
    && (forall t :: 0 <= t < 3 ==> m.ctx[t].Saved? ==> m.ctx[t].cpu.WellFormed())
  }

  ghost function FreePid(m: Machine): nat {
    if !Busy(m, 3) then 3 else if !Busy(m, 4) then 4 else if !Busy(m, 5) then 5 else NUM_TOTAL_PROC
  }

  ghost function Launch(m: Machine, req: Request, fr: Frame): (Machine, Output)
    requires Sized(m)
  {
    match req
    case BadLength | NoSuchFile | ReadFailed | NotElf => (m.(timerOn := false), Refused(-1))
    case Clear => (m.(timerOn := true), Refused(0))
    case Program(eip, loaded) =>
      var free := FreePid(m);
      var on := m.(timerOn := true);
      if free == NUM_TOTAL_PROC then (on, Refused(0))
      else if loaded == 0 || loaded == -1 then (on.(leaked := m.leaked + {free}), Refused(-1))
      else
        var t := m.running;
        var caller := Caller(m.calls, fr.ebp, m.esp0 - fr.toEsp);
        (on.(stacks := m.stacks[t := m.stacks[t] + [Proc(free, caller)]], calls := m.calls + 1, esp0 := StackTop(free)),
         Launched(t, free, eip, caller))
  }

  ghost function Exit(m: Machine, status: nat): (Machine, Output)
    requires Sized(m)
  {
    var t := m.running;
    var on := m.(timerOn := true);
    if |m.stacks[t]| == 1 then (on.(esp0 := StackTop(m.stacks[t][0].pid)), Restarted(t, m.shell))
    else
      var to := Top(m.stacks[t]).caller;
      (on.(stacks := m.stacks[t := m.stacks[t][..|m.stacks[t]| - 1]], esp0 := to.esp),
       Returned(t, Some(to.call), to.ebp, to.esp, status))
  }

  ghost function EntryOf(c: Context): Entry {
    match c
    case Running => Fresh(0)
    case NotStarted(eip) => Fresh(eip)
    case Saved(cpu, at) => Resumed(cpu, at)
  }

  ghost function Rotate(m: Machine, cpu: Cpu, kernelEsp: int): (Machine, Output)
    requires Sized(m)
  {
    var t := m.turn;
    var next := m.(turn := (m.turn + 1) % 3);
    if t == m.running || !m.active[t] then (next, Kept)
    else
      var at := if cpu.user.Some? then None else Some(kernelEsp);
      (next.(ctx := m.ctx[m.running := Saved(cpu, at)][t := Running], running := t, esp0 := StackTop(Top(m.stacks[t]).pid)),
       Switched(m.running, cpu, at, t, EntryOf(m.ctx[t])))
  }

  ghost function MachineStep(m: Machine, e: Event): (Machine, Output)
    requires Sized(m)
  {
    match e
    case Exec(req, fr) => Launch(m, req, fr)
    case Halt(status) => Exit(m, status)
    case Tick(cpu, kernelEsp) => Rotate(m, cpu, kernelEsp)
    case Show(t) => (if t < 3 then m.(active := m.active[t := true]) else m, Silent)
    case Work(_) => (m, Silent)
  }

  /** Events the machine can be given: a status byte, a terminal that exists, a frame whose code
      segment agrees with its mode. */
  ghost predicate Legal(e: Event) {
    match e
    case Exec(_, _) => true
    case Halt(status) => status < 256
    case Tick(cpu, _) => cpu.WellFormed()
    case Show(t) => t < 3
    case Work(_) => true
  }

  ghost predicate AllLegal(events: seq<Event>) { forall j :: 0 <= j < |events| ==> Legal(events[j]) }

  lemma LaunchKeepsWellFormed(m: Machine, req: Request, fr: Frame)
    requires WellFormed(m)
    ensures WellFormed(Launch(m, req, fr).0)
  {
    var (m', out) := Launch(m, req, fr);
    var free := FreePid(m);
    if out.Launched? {
      assert !Busy(m, free) && 3 <= free < NUM_TOTAL_PROC;
      PushKeepsWellFormed(m, m', free, out.caller);
    } else {
      SameStacks(m, m');
      assert req.Program? && free != NUM_TOTAL_PROC ==> !Busy(m, free);
      hide FreePid;
    }
  }

  lemma PushKeepsWellFormed(m: Machine, m': Machine, free: nat, caller: Caller)
    requires WellFormed(m) && !Busy(m, free) && 3 <= free < NUM_TOTAL_PROC
    requires m' == m.(timerOn := true, calls := m.calls + 1, esp0 := m'.esp0,
                      stacks := m.stacks[m.running := m.stacks[m.running] + [Proc(free, caller)]])
    ensures WellFormed(m')
  {
    var t := m.running;
    forall u, i {:trigger PidAt(m', u, i)} | At(m', u, i)
      ensures if u == t && i == |m.stacks[t]| then PidAt(m', u, i) == free
              else At(m, u, i) && PidAt(m', u, i) == PidAt(m, u, i) && PidAt(m, u, i) != free
    {
      if !(u == t && i == |m.stacks[t]|) {
        assert At(m, u, i) && PidAt(m', u, i) == PidAt(m, u, i);
      }
    }
    assert forall u :: 0 <= u < 3 ==> At(m, u, 0) && At(m', u, 0) && PidAt(m', u, 0) == PidAt(m, u, 0);
  }

  lemma SameStacks(m: Machine, m': Machine)
    requires m.stacks == m'.stacks
    ensures forall t, i {:trigger At(m', t, i)} :: At(m', t, i) <==> At(m, t, i)
    ensures forall t, i {:trigger PidAt(m', t, i)} :: At(m, t, i) ==> PidAt(m', t, i) == PidAt(m, t, i)
    ensures Distinct(m) ==> Distinct(m')
    ensures forall p :: OnStack(m', p) <==> OnStack(m, p)
  {
    forall p ensures OnStack(m', p) <==> OnStack(m, p) {
      if OnStack(m, p) {
        var t, i :| At(m, t, i) && PidAt(m, t, i) == p;
        assert At(m', t, i) && PidAt(m', t, i) == p;
      }
      if OnStack(m', p) {
        var t, i :| At(m', t, i) && PidAt(m', t, i) == p;
        assert At(m, t, i) && PidAt(m, t, i) == p;
      }
    }
  }

  lemma ExitKeepsWellFormed(m: Machine, status: nat)
    requires WellFormed(m)
    ensures WellFormed(Exit(m, status).0)
  {
    var (m', out) := Exit(m, status);
    if out.Restarted? {
      SameStacks(m, m');
    } else {
      forall u: nat, i: nat {:trigger PidAt(m', u, i)} | At(m', u, i)
        ensures At(m, u, i) && PidAt(m', u, i) == PidAt(m, u, i)
      {
        assert |m'.stacks[u]| <= |m.stacks[u]| && m'.stacks[u][i] == m.stacks[u][i];
      }
      assert forall u :: 0 <= u < 3 ==> At(m, u, 0) && At(m', u, 0);
    }
  }

  /** Every event keeps the invariant. */
  lemma StepKeepsWellFormed(m: Machine, e: Event)
    requires WellFormed(m) && Legal(e)
    ensures WellFormed(MachineStep(m, e).0)
  {
    match e
    case Exec(req, fr) => LaunchKeepsWellFormed(m, req, fr);
    case Halt(status) => ExitKeepsWellFormed(m, status);
    case Tick(cpu, k) => SameStacks(m, Rotate(m, cpu, k).0);
    case Show(t) => SameStacks(m, MachineStep(m, e).0);
    case Work(_) =>
  }

  /** A run from `m`: the state reached and what each event put out. */
  ghost function Run(m: Machine, events: seq<Event>): (Machine, seq<Output>)
    requires WellFormed(m) && AllLegal(events)
    ensures WellFormed(Run(m, events).0) && |Run(m, events).1| == |events|
    decreases |events|
  {
    if events == [] then (m, [])
    else
      var (m1, trace) := Run(m, events[..|events| - 1]);
      var e := events[|events| - 1];
      StepKeepsWellFormed(m1, e);
      var (m2, out) := MachineStep(m1, e);
      (m2, trace + [out])
  }

  lemma RunLast(m: Machine, events: seq<Event>)
    requires WellFormed(m) && AllLegal(events) && events != []
    ensures AllLegal(events[..|events| - 1]) && Legal(events[|events| - 1])
    ensures var (m1, trace) := Run(m, events[..|events| - 1]);
            var (m2, out) := MachineStep(m1, events[|events| - 1]);
            Run(m, events) == (m2, trace + [out])
  {
  }

  /** The state after boot: one root shell per terminal, the first of them running. */
  ghost function Booted(eip: int): Machine {
    Machine([[Proc(0, NoCaller)], [Proc(1, NoCaller)], [Proc(2, NoCaller)]],
            [Running, NotStarted(eip), NotStarted(eip)], [true, false, false], 0, 0, {}, 1, true, StackTop(0), eip)
  }

  lemma BootedIsWellFormed(eip: int)
    ensures WellFormed(Booted(eip))
  {
    var m := Booted(eip);
    forall t: nat, i: nat {:trigger PidAt(m, t, i)} | At(m, t, i) ensures i == 0 && PidAt(m, t, i) == t {
      assert t == 0 || t == 1 || t == 2;
    }
  }

  // ---- what the outputs of a run say, read without the machine ----

  /** The calls still waiting on terminal `t` after `trace`, innermost last: a launch adds one, a
      return takes the last one away. */
  ghost function Outstanding(trace: seq<Output>, t: nat): seq<Caller>
    decreases |trace|
  {
    if trace == [] then []
    else
      var before := Outstanding(trace[..|trace| - 1], t);
      match trace[|trace| - 1]
      case Launched(u, _, _, caller) => if u == t then before + [caller] else before
      case Returned(u, _, _, _, _) => if u == t && before != [] then before[..|before| - 1] else before
      case _ => before
  }

  /** The j-th output, if it is a return, goes to the innermost waiting call of its terminal. */
  ghost predicate ReturnsToCaller(trace: seq<Output>, j: nat)
    requires j < |trace|
  {
    trace[j].Returned? ==>
      var waiting := Outstanding(trace[..j], trace[j].term);
      && waiting != [] && trace[j].into == Some(waiting[|waiting| - 1].call) && trace[j].ebp == waiting[|waiting| - 1].ebp
      && trace[j].esp == waiting[|waiting| - 1].esp && 0 <= trace[j].value < 256
  }

  ghost function Calls(s: seq<Proc>): seq<Caller> {
    if |s| <= 1 then [] else Calls(s[..|s| - 1]) + [s[|s| - 1].caller]
  }

  ghost predicate TracksCalls(m: Machine, trace: seq<Output>, t: nat)
    requires t < 3 && t < |m.stacks|
  {
    Outstanding(trace, t) == Calls(m.stacks[t])
  }

  lemma CallStepAt(m: Machine, trace: seq<Output>, e: Event, t: nat)
    requires Sized(m) && Legal(e) && t < 3 && TracksCalls(m, trace, t)
    ensures |MachineStep(m, e).0.stacks| == 3
    ensures TracksCalls(MachineStep(m, e).0, trace + [MachineStep(m, e).1], t)
    ensures t == m.running ==> ReturnsToCaller(trace + [MachineStep(m, e).1], |trace|)
  {
    hide FreePid, Outstanding, Calls;
    var out := MachineStep(m, e).1;
    assert (trace + [out])[..|trace|] == trace;
    OneMoreOutput(trace, out, t);
    CallsOf(m.stacks[t]);
    if out.Launched? && t == m.running {
      CallsOf(m.stacks[t] + [Proc(out.pid, out.caller)]);
      assert (m.stacks[t] + [Proc(out.pid, out.caller)])[..|m.stacks[t]|] == m.stacks[t];
    }
  }

  lemma OneMoreOutput(trace: seq<Output>, out: Output, t: nat)
    ensures var before := Outstanding(trace, t);
            Outstanding(trace + [out], t) ==
              if out.Launched? && out.term == t then before + [out.caller]
              else if out.Returned? && out.term == t && before != [] then before[..|before| - 1]
              else before
  {
    assert (trace + [out])[..|trace|] == trace;
  }

  lemma CallsOf(s: seq<Proc>)
    ensures Calls(s) == if |s| <= 1 then [] else Calls(s[..|s| - 1]) + [s[|s| - 1].caller]
  {
  }

  lemma CallStep(m: Machine, trace: seq<Output>, e: Event)
    requires WellFormed(m) && Legal(e)
    requires forall t :: 0 <= t < 3 ==> TracksCalls(m, trace, t)
    ensures |MachineStep(m, e).0.stacks| == 3
    ensures forall t :: 0 <= t < 3 ==> TracksCalls(MachineStep(m, e).0, trace + [MachineStep(m, e).1], t)
    ensures ReturnsToCaller(trace + [MachineStep(m, e).1], |trace|)
  {
    CallStepAt(m, trace, e, m.running);
    hide MachineStep, TracksCalls, ReturnsToCaller;
    forall t: nat | t < 3 ensures TracksCalls(MachineStep(m, e).0, trace + [MachineStep(m, e).1], t) {
      CallStepAt(m, trace, e, t);
    }
  }

  /** Execute and halt match like call and return on every terminal, whatever happens on the
      others in between: each return goes into the launch it matches, with a status byte. */
  lemma {:induction false} CallsMatchReturns(eip: int, events: seq<Event>)
    requires WellFormed(Booted(eip)) && AllLegal(events)
    ensures forall t :: 0 <= t < 3 ==> TracksCalls(Run(Booted(eip), events).0, Run(Booted(eip), events).1, t)
    ensures forall j :: 0 <= j < |events| ==> ReturnsToCaller(Run(Booted(eip), events).1, j)
    decreases |events|
  {
    if events != [] {
      var shorter := events[..|events| - 1];
      RunLast(Booted(eip), events);
      CallsMatchReturns(eip, shorter);
      var (m1, before) := Run(Booted(eip), shorter);
      var trace := Run(Booted(eip), events).1;
      CallStep(m1, before, events[|events| - 1]);
      forall j | 0 <= j < |events| ensures ReturnsToCaller(trace, j) {
        if j < |before| {
          assert trace[..j] == before[..j];
          assert ReturnsToCaller(before, j);
        }
      }
    }
  }

  /** A return is the output of a halt, and its value is that halt's status. */
  ghost predicate AnswersHalt(events: seq<Event>, trace: seq<Output>, j: nat)
    requires j < |events| == |trace|
  {
    trace[j].Returned? ==> events[j].Halt? && trace[j].value == events[j].status
  }

  lemma {:induction false} ReturnsStatus(m: Machine, events: seq<Event>)
    requires WellFormed(m) && AllLegal(events)
    ensures forall j :: 0 <= j < |events| ==> AnswersHalt(events, Run(m, events).1, j)
    decreases |events|
  {
    if events != [] {
      var shorter := events[..|events| - 1];
      RunLast(m, events);
      ReturnsStatus(m, shorter);
      forall j: nat | j < |events| ensures AnswersHalt(events, Run(m, events).1, j) {
        if j < |shorter| { assert AnswersHalt(shorter, Run(m, shorter).1, j); }
      }
    }
  }

  /** How terminal `t` last left or entered the CPU in `trace`, if it did. */
  ghost function LastSwitch(trace: seq<Output>, t: nat): (last: Option<Context>)
    ensures last.Some? ==> !last.value.NotStarted?
    decreases |trace|
  {
    if trace == [] then None
    else
      var out := trace[|trace| - 1];
      if out.Switched? && out.to == t then Some(Running)
      else if out.Switched? && out.from == t then Some(Saved(out.cpu, out.at))
      else LastSwitch(trace[..|trace| - 1], t)
  }

  /** The j-th output, if it is a switch, resumes exactly what its terminal was doing when it was
      last switched out, or starts a root shell that has never been switched in or out. */
  ghost predicate ResumesLastSaved(eip: int, trace: seq<Output>, j: nat)
    requires j < |trace|
  {
    trace[j].Switched? ==>
      match trace[j].how
      case Fresh(at) => at == eip && 1 <= trace[j].to < 3 && LastSwitch(trace[..j], trace[j].to) == None
      case Resumed(cpu, at) => LastSwitch(trace[..j], trace[j].to) == Some(Saved(cpu, at))
  }

  /** The context of terminal `t` is what its last switch left, or what boot gave it. */
  ghost predicate TracksSwitches(eip: int, m: Machine, trace: seq<Output>, t: nat)
    requires t < 3 && t < |m.ctx|
  {
    var last := LastSwitch(trace, t);
    m.ctx[t] == if last.Some? then last.value else Booted(eip).ctx[t]
  }

  lemma SwitchStep(eip: int, m: Machine, trace: seq<Output>, e: Event)
    requires WellFormed(m) && Legal(e)
    requires forall t :: 0 <= t < 3 ==> TracksSwitches(eip, m, trace, t)
    ensures |MachineStep(m, e).0.ctx| == 3
    ensures forall t :: 0 <= t < 3 ==> TracksSwitches(eip, MachineStep(m, e).0, trace + [MachineStep(m, e).1], t)
    ensures ResumesLastSaved(eip, trace + [MachineStep(m, e).1], |trace|)
  {
    var (m', out) := MachineStep(m, e);
    var longer := trace + [out];
    assert longer[..|trace|] == trace;
    if out.Switched? {
      assert TracksSwitches(eip, m, trace, m.turn);
      forall t | 0 <= t < 3 ensures TracksSwitches(eip, m', longer, t) {
        assert TracksSwitches(eip, m, trace, t);
      }
    } else {
      assert m'.ctx == m.ctx;
      assert forall t :: 0 <= t < 3 ==> TracksSwitches(eip, m, trace, t) && LastSwitch(longer, t) == LastSwitch(trace, t);
    }
  }

  /** Each root shell left waiting at boot starts at most once and before it is ever resumed, and
      every resume gives a terminal back the registers saved when it was last switched out. */
  lemma {:induction false} SwitchesResume(eip: int, events: seq<Event>)
    requires WellFormed(Booted(eip)) && AllLegal(events)
    ensures forall t :: 0 <= t < 3 ==> TracksSwitches(eip, Run(Booted(eip), events).0, Run(Booted(eip), events).1, t)
    ensures forall j :: 0 <= j < |events| ==> ResumesLastSaved(eip, Run(Booted(eip), events).1, j)
    decreases |events|
  {
    if events != [] {
      var shorter := events[..|events| - 1];
      SwitchesResume(eip, shorter);
      var (m1, before) := Run(Booted(eip), shorter);
      var trace := Run(Booted(eip), events).1;
      SwitchStep(eip, m1, before, events[|events| - 1]);
      forall j | 0 <= j < |events| ensures ResumesLastSaved(eip, trace, j) {
        if j < |before| {
          assert trace[..j] == before[..j];
          assert ResumesLastSaved(eip, before, j);
        }
      }
    }
  }

  // ---- fairness ----

  ghost function Ticks(events: seq<Event>): nat
    decreases |events|
  {
    if events == [] then 0
    else Ticks(events[..|events| - 1]) + if events[|events| - 1].Tick? then 1 else 0
  }

  /** The turn `n` ticks after it was `turn`. */
  function TurnAfter(turn: nat, n: nat): (t: nat)
    ensures t < 3
  {
    (turn + n) % 3
  }

  lemma {:induction false} TurnCountsTicks(m: Machine, events: seq<Event>)
    requires WellFormed(m) && AllLegal(events)
    ensures Run(m, events).0.turn == TurnAfter(m.turn, Ticks(events))
    ensures forall t :: 0 <= t < 3 && m.active[t] ==> Run(m, events).0.active[t]
    decreases |events|
  {
    if events != [] {
      hide *;
      var shorter := events[..|events| - 1];
      RunLast(m, events);
      TurnCountsTicks(m, shorter);
      IsSized(Run(m, shorter).0);
      StepTurns(Run(m, shorter).0, events[|events| - 1]);
      TickOnce(m.turn, events);
    }
  }

  lemma TickOnce(turn: nat, events: seq<Event>)
    requires events != []
    ensures var before := TurnAfter(turn, Ticks(events[..|events| - 1]));
            TurnAfter(turn, Ticks(events)) == if events[|events| - 1].Tick? then TurnAfter(before, 1) else before
  {
    hide TurnAfter;
    OneMoreTurn(turn, Ticks(events[..|events| - 1]));
  }

  lemma OneMoreTurn(turn: nat, n: nat)
    ensures TurnAfter(TurnAfter(turn, n), 1) == TurnAfter(turn, n + 1)
  {
    NextMod3(turn + n);
  }

  lemma NextMod3(n: nat)
    ensures (n % 3 + 1) % 3 == (n + 1) % 3
  {
  }

  lemma StepTurns(m: Machine, e: Event)
    requires Sized(m)
    ensures MachineStep(m, e).0.turn == if e.Tick? then TurnAfter(m.turn, 1) else m.turn
    ensures forall t :: 0 <= t < 3 && m.active[t] ==> t < |MachineStep(m, e).0.active| && MachineStep(m, e).0.active[t]
  {
  }

  lemma LegalPrefix(events: seq<Event>, k: nat)
    requires AllLegal(events) && k <= |events|
    ensures AllLegal(events[..k])
  {
  }

  /** The k-th event is a tick at which it is the turn of `t`, and `t` then runs. */
  ghost predicate RunsAt(m: Machine, events: seq<Event>, k: nat, t: nat)
    requires WellFormed(m) && 0 < k <= |events| && AllLegal(events[..k]) && AllLegal(events[..k - 1])
  {
    events[k - 1].Tick? && Run(m, events[..k - 1]).0.turn == t && Run(m, events[..k]).0.running == t
  }

  /** Among any three consecutive ticks one gives the CPU to terminal `t`, at its turn, if `t` was
      active to begin with; launches, halts and terminal switches in between change nothing. */
  lemma {:induction false} EveryActiveTerminalRuns(m: Machine, events: seq<Event>, t: nat) returns (k: nat)
    requires WellFormed(m) && AllLegal(events)
    requires Ticks(events) >= 3 && t < 3 && m.active[t]
    ensures 0 < k <= |events| && AllLegal(events[..k]) && AllLegal(events[..k - 1])
    ensures RunsAt(m, events, k, t) && Ticks(events[..k]) <= 3
  {
    assert Sized(m);
    var wait := Wait(m.turn, t);
    k := NthTick(events, wait + 1);
    LegalPrefix(events, k);
    LegalPrefix(events, k - 1);
    TurnCountsTicks(m, events[..k - 1]);
    hide Run, Ticks, AllLegal, WellFormed;
    TickRuns(m, events, k, t);
  }

  lemma IsSized(m: Machine)
    requires WellFormed(m)
    ensures Sized(m)
  {
  }

  lemma RunsThere(m: Machine, events: seq<Event>, k: nat, t: nat)
    requires WellFormed(m) && 0 < k <= |events| && AllLegal(events[..k]) && AllLegal(events[..k - 1])
    requires events[k - 1].Tick? && Run(m, events[..k - 1]).0.turn == t && Run(m, events[..k]).0.running == t
    ensures RunsAt(m, events, k, t)
  {
  }

  lemma PrefixOfPrefix(events: seq<Event>, k: nat)
    requires 0 < k <= |events|
    ensures var upto := events[..k]; upto[..|upto| - 1] == events[..k - 1] && upto[|upto| - 1] == events[k - 1]
  {
  }

  lemma TickRuns(m: Machine, events: seq<Event>, k: nat, t: nat)
    requires WellFormed(m) && 0 < k <= |events| && AllLegal(events[..k]) && AllLegal(events[..k - 1])
    requires events[k - 1].Tick? && t < 3 && Run(m, events[..k - 1]).0.turn == t && Run(m, events[..k - 1]).0.active[t]
    ensures RunsAt(m, events, k, t)
  {
    hide *;
    PrefixOfPrefix(events, k);
    RunLast(m, events[..k]);
    var m1 := Run(m, events[..k - 1]).0;
    IsSized(m1);
    RotateRuns(m1, events[k - 1], t);
    RunsThere(m, events, k, t);
  }

  /** How many ticks pass before it is the turn of `t`. */
  function Wait(turn: nat, t: nat): (n: nat)
    requires turn < 3 && t < 3
    ensures n < 3 && TurnAfter(turn, n) == t
  {
    if t >= turn then t - turn else t + 3 - turn
  }

  lemma RotateRuns(m: Machine, e: Event, t: nat)
    requires Sized(m) && e.Tick? && m.turn == t && m.active[t]
    ensures MachineStep(m, e).0.running == t
  {
  }

  /** The position just after the n-th tick. */
  lemma {:induction false} NthTick(events: seq<Event>, n: nat) returns (k: nat)
    requires 1 <= n <= Ticks(events)
    ensures 0 < k <= |events| && events[k - 1].Tick? && Ticks(events[..k]) == n && Ticks(events[..k - 1]) == n - 1
    decreases |events|
  {
    var last := |events| - 1;
    if Ticks(events[..last]) >= n {
      k := NthTick(events[..last], n);
      assert events[..last][..k] == events[..k] && events[..last][..k - 1] == events[..k - 1];
    } else {
      k := |events|;
      assert events[..k] == events;
    }
  }
}
