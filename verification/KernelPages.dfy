/**
 The page tables in the reachable states of the kernel: what a process finds at 0xB8000 and through
 the pointer of `vidmap` is the text page of the terminal whose stack it is on.
 */
module KernelPages {
  import opened KernelStack
  import opened CallStacks
  import opened ProcessTable
  import opened Refinement
  import opened Paging
  import Kernel

  lemma TextPageOf(s: State, m: Machine, t: nat, i: nat)
    requires Represents(s, m) && At(m, t, i)
    ensures t < 3 && PidAt(m, t, i) < NUM_TOTAL_PROC && |s.videoPage| == NUM_TOTAL_PROC
    ensures s.videoPage[PidAt(m, t, i)] == VIDEO_MEMORY_IN_PTE + 2 * t
  {
    assert ProcOk(s, m, t, i);
  }

  /** Every routine of the kernel keeps the page tables in step with its state, so in every state that
      represents three call stacks this holds for every process on them. */
  lemma TerminalPages(g: Kernel.Globals, m: Machine, t: nat, i: nat, u: nat, j: nat, o: nat, o': nat)
    requires g.Valid() && Represents(g.Snapshot(), m)
    requires At(m, t, i) && At(m, u, j) && o < 0x1000 && o' < 0x1000
    ensures t < 3 && PidAt(m, t, i) < NUM_TOTAL_PROC && PidAt(m, u, j) < NUM_TOTAL_PROC && g.tables.Shaped()
    ensures g.tables.Translate(PidAt(m, t, i), 0xB_8000 + o) == Phys(0xB_8000 + 0x2000 * t + o, true, true, false)
    ensures g.tables.Translate(PidAt(m, t, i), 0x84B_8000 + 0x2000 * t + o) == g.tables.Translate(PidAt(m, t, i), 0xB_8000 + o)
    ensures g.tables.Translate(PidAt(m, t, i), 0xB_8000 + o) == g.tables.Translate(PidAt(m, u, j), 0xB_8000 + o')
            <==> t == u && o == o'
  {
    var s := g.Snapshot();
    TextPageOf(s, m, t, i);
    TextPageOf(s, m, u, j);
    g.tables.TextPages(s.videoPage, PidAt(m, t, i), PidAt(m, u, j), t, u, o, o');
  }

  /** The byte `switch_term` writes to the high half of the display controller's start address; the low
      half is 0. */
  function StartHigh(term: nat): nat { 0x10 * term }

  /** The byte address at which the display begins: the start address counts cells of two bytes. */
  function DisplayedFrom(term: nat): nat { 0xB_8000 + 2 * (0x100 * StartHigh(term)) }

  /** What is on the screen is the text page of the processes on the shown terminal, and of no others. */
  lemma ScreenShowsTerminal(g: Kernel.Globals, m: Machine, t: nat, i: nat, o: nat)
    requires g.Valid() && Represents(g.Snapshot(), m) && At(m, t, i) && o < 0x1000
    ensures PidAt(m, t, i) < NUM_TOTAL_PROC && g.tables.Shaped()
    ensures g.tables.Translate(PidAt(m, t, i), 0xB_8000 + o).Phys?
    ensures g.tables.Translate(PidAt(m, t, i), 0xB_8000 + o).a == DisplayedFrom(g.termOnScreen) + o <==> t == g.termOnScreen
  {
    TerminalPages(g, m, t, i, t, i, o, o);
    assert g.Snapshot().termOnScreen == g.termOnScreen;
  }
}
