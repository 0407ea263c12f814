/**
 Page directories and tables (student-distrib/paging.c), and the translation they define under
 32-bit paging with 4 MB pages (Intel SDM Volume 3A, section 4.3).
 */
module Paging {
  import opened KernelStack
  import opened ProcessTable

  const KERNEL_ADDR_IN_PDE := 0x400
  const PROG_IMG_ADDR_IN_PDE := 0x800

  /** The fields of a directory or table entry that the kernel sets; `addr` is bits 31:12. */
  datatype Entry = Entry(present: bool, write: bool, user: bool, big: bool, global: bool, addr: nat)

  const Zero := Entry(false, false, false, false, false, 0)

  /** Physical frame numbers of page_table[0] and video_table[0]; the six tables of each kind are
      contiguous and page aligned. */
  datatype Layout = Layout(pt: nat, vt: nat) {
    predicate Valid() { pt + NUM_TOTAL_PROC <= vt || vt + NUM_TOTAL_PROC <= pt }
  }

  function DirEntry(l: Layout, p: nat, i: nat): Entry {
    if i == 0 then Entry(true, true, true, false, false, l.pt + p)
    else if i == 1 then Entry(true, false, false, true, true, KERNEL_ADDR_IN_PDE)
    else if i == 32 then Entry(true, true, true, true, false, PROG_IMG_ADDR_IN_PDE + p * 0x400)
    else if i == 33 then Entry(true, true, true, false, false, l.vt + p)
    else Zero
  }

  function TableEntry(video: seq<int>, p: nat, i: nat): Entry
    requires p < |video| && video[p] >= 0
  {
    if i == 0xB8 then Entry(true, true, true, false, false, video[p]) else Zero
  }

  function VideoEntry(i: nat): Entry {
    if i == 0xB8 || i == 0xBA || i == 0xBC then Entry(true, true, true, false, false, i) else Zero
  }

  /** What an access reaches. `user` and `write` are the permissions that user mode has, with the bits of
      both levels taken together; the kernel, with CR0.WP clear, may read and write all of it. A `global`
      translation may stay in the TLB when CR3 is loaded. */
  datatype Access = Fault | Phys(a: int, user: bool, write: bool, global: bool)

  class Tables {
    const layout: Layout
    const dir: array2<Entry>
    const table: array2<Entry>
    const videoTable: array2<Entry>

    ghost predicate Shaped() {
      && layout.Valid()
      && dir.Length0 == table.Length0 == videoTable.Length0 == NUM_TOTAL_PROC
      && dir.Length1 == table.Length1 == videoTable.Length1 == 1024
      && dir != table && dir != videoTable && table != videoTable
    }

    /** The tables as `init_paging` leaves them, with the given text-mode frame per process. */
    ghost predicate Holds(video: seq<int>)
      reads dir, table, videoTable
    {
      && Shaped() && |video| == NUM_TOTAL_PROC && (forall p :: 0 <= p < NUM_TOTAL_PROC ==> video[p] >= 0)
      && (forall p, i :: 0 <= p < NUM_TOTAL_PROC && 0 <= i < 1024 ==> dir[p, i] == DirEntry(layout, p, i))
      && (forall p, i :: 0 <= p < NUM_TOTAL_PROC && 0 <= i < 1024 ==> table[p, i] == TableEntry(video, p, i))
      && (forall p, i :: 0 <= p < NUM_TOTAL_PROC && 0 <= i < 1024 ==> videoTable[p, i] == VideoEntry(i))
    }

    constructor (l: Layout)
      requires l.Valid()
      ensures Shaped() && layout == l && fresh(dir) && fresh(table) && fresh(videoTable)
      ensures forall p, i :: 0 <= p < NUM_TOTAL_PROC && 0 <= i < 1024 ==> videoTable[p, i] == Zero
    {
      layout := l;
      dir := new Entry[NUM_TOTAL_PROC, 1024];
      table := new Entry[NUM_TOTAL_PROC, 1024];
      videoTable := new Entry[NUM_TOTAL_PROC, 1024]((_, _) => Zero);
    }

    /** Both passes of `init_paging`; the video tables are static and start zeroed. */
    method InitPaging()
      requires Shaped()
      requires forall p, i :: 0 <= p < NUM_TOTAL_PROC && 0 <= i < 1024 ==> videoTable[p, i] == Zero
      modifies dir, table, videoTable
      ensures Holds([0xB8, 0xBA, 0xBC, 0xB8, 0xB8, 0xB8])
    {
      ClearTables();
      for p := 0 to NUM_TOTAL_PROC
        invariant forall q, i :: 0 <= q < NUM_TOTAL_PROC && 0 <= i < 1024 ==>
          dir[q, i] == if q < p then DirEntry(layout, q, i) else Zero
        invariant forall q, i :: 0 <= q < NUM_TOTAL_PROC && 0 <= i < 1024 ==>
          table[q, i] == if q < p then TableEntry([0xB8, 0xBA, 0xBC, 0xB8, 0xB8, 0xB8], q, i) else Zero
        invariant forall q, i :: 0 <= q < NUM_TOTAL_PROC && 0 <= i < 1024 ==>
          videoTable[q, i] == if q < p then VideoEntry(i) else Zero
      {
        MapProcess(p);
      }
    }

    method ClearTables()
      requires Shaped()
      modifies dir, table
      ensures forall p, i :: 0 <= p < NUM_TOTAL_PROC && 0 <= i < 1024 ==> dir[p, i] == Zero && table[p, i] == Zero
    {
      for p := 0 to NUM_TOTAL_PROC
        invariant forall q, i :: 0 <= q < p && 0 <= i < 1024 ==> dir[q, i] == Zero && table[q, i] == Zero
      {
        for index := 0 to 1024
          invariant forall q, i :: 0 <= q < p && 0 <= i < 1024 ==> dir[q, i] == Zero && table[q, i] == Zero
          invariant forall i :: 0 <= i < index ==> dir[p, i] == Zero && table[p, i] == Zero
        {
          dir[p, index] := Zero;
          table[p, index] := Zero;
        }
      }
    }

    method MapProcess(p: nat)
      requires Shaped() && p < NUM_TOTAL_PROC
      requires forall i :: 0 <= i < 1024 ==> dir[p, i] == table[p, i] == videoTable[p, i] == Zero
      modifies dir, table, videoTable
      ensures forall i :: 0 <= i < 1024 ==> dir[p, i] == DirEntry(layout, p, i)
      ensures forall i :: 0 <= i < 1024 ==> table[p, i] == TableEntry([0xB8, 0xBA, 0xBC, 0xB8, 0xB8, 0xB8], p, i)
      ensures forall i :: 0 <= i < 1024 ==> videoTable[p, i] == VideoEntry(i)
      ensures forall q, i :: 0 <= q < NUM_TOTAL_PROC && q != p && 0 <= i < 1024 ==>
        dir[q, i] == old(dir[q, i]) && table[q, i] == old(table[q, i]) && videoTable[q, i] == old(videoTable[q, i])
    {
      dir[p, 1] := Entry(true, false, false, true, true, KERNEL_ADDR_IN_PDE);
      dir[p, 32] := Entry(true, true, true, true, false, PROG_IMG_ADDR_IN_PDE + p * 0x400);
      dir[p, 0] := Entry(true, true, true, false, false, layout.pt + p);
      dir[p, 33] := Entry(true, true, true, false, false, layout.vt + p);
      if p < 3 {
        table[p, 0xB8] := Entry(true, true, true, false, false, VIDEO_MEMORY_IN_PTE + 2 * p);
      } else {
        table[p, 0xB8] := Entry(true, true, true, false, false, VIDEO_MEMORY_IN_PTE);
      }
      for index := 0 to 3
        modifies videoTable
        invariant forall i :: 0 <= i < 1024 ==>
          videoTable[p, i] == if i < 0xB8 + 2 * index then VideoEntry(i) else Zero
        invariant forall q, i :: 0 <= q < NUM_TOTAL_PROC && q != p && 0 <= i < 1024 ==> videoTable[q, i] == old(videoTable[q, i])
      {
        videoTable[p, 0xB8 + 2 * index] := Entry(true, true, true, false, false, VIDEO_MEMORY_IN_PTE + 2 * index);
      }
    }

    /** The assignment of `execute` (syscall.c, line 197). */
    method ShowOn(p: nat, term: nat, ghost video: seq<int>)
      requires Holds(video) && p < NUM_TOTAL_PROC
      modifies table
      ensures Holds(video[p := VIDEO_MEMORY_IN_PTE + 2 * term])
    {
      table[p, 0xB8] := table[p, 0xB8].(addr := VIDEO_MEMORY_IN_PTE + 2 * term);
    }

    /** The table entry that a directory entry with frame number `frame` leads to. */
    function Lookup(frame: nat, i: nat): Entry
      requires Shaped() && i < 1024
      reads table, videoTable
    {
      if layout.pt <= frame < layout.pt + NUM_TOTAL_PROC then table[frame - layout.pt, i]
      else if layout.vt <= frame < layout.vt + NUM_TOTAL_PROC then videoTable[frame - layout.vt, i]
      else Zero
    }

    /** Translation of a 32-bit linear address with the directory of process `p` in CR3. */
    function Translate(p: nat, va: nat): Access
      requires Shaped() && p < NUM_TOTAL_PROC && va < 0x1_0000_0000
      reads dir, table, videoTable
    {
      var d := dir[p, va / 0x40_0000];
      if !d.present then Fault
      else if d.big then Phys(d.addr / 0x400 * 0x40_0000 + va % 0x40_0000, d.user, d.write, d.global)
      else
        var e := Lookup(d.addr, va / 0x1000 % 1024);
        if !e.present then Fault else Phys(e.addr * 0x1000 + va % 0x1000, d.user && e.user, d.write && e.write, e.global)
    }

    /** What each directory maps, and nothing else: the kernel's 4 MB onto themselves for the kernel
        only, and the user's 4 MB onto the process's own frame, the text page and the three pages that
        `vidmap` hands out, which user mode may write. */
    lemma TranslateExactly(video: seq<int>, p: nat, va: nat)
      requires Holds(video) && p < NUM_TOTAL_PROC && va < 0x1_0000_0000
      ensures Translate(p, va) ==
        if 0x40_0000 <= va < 0x80_0000 then Phys(va, false, false, true)
        else if 0x800_0000 <= va < 0x840_0000 then Phys(0x80_0000 + 0x40_0000 * p + (va - 0x800_0000), true, true, false)
        else if 0xB_8000 <= va < 0xB_9000 then Phys(0x1000 * video[p] + (va - 0xB_8000), true, true, false)
        else if 0x84B_8000 <= va < 0x84B_D000 && va / 0x1000 % 2 == 0 then Phys(va - 0x840_0000, true, true, false)
        else Fault
    {
      var i := va / 0x40_0000;
      assert dir[p, i] == DirEntry(layout, p, i);
      assert va == i * 0x40_0000 + va % 0x40_0000;
      var j := va / 0x1000 % 1024;
      assert va / 0x1000 == i * 1024 + j;
      assert va == i * 0x40_0000 + j * 0x1000 + va % 0x1000;
      if i == 0 {
        assert Lookup(layout.pt + p, j) == TableEntry(video, p, j);
      } else if i == 33 {
        assert Lookup(layout.vt + p, j) == VideoEntry(j);
      } else if i == 32 {
        assert (PROG_IMG_ADDR_IN_PDE + p * 0x400) / 0x400 == 2 + p;
      }
    }

    /** User pages of different processes never share a byte, and no user page or text page lies in
        the kernel's 4 MB. */
    lemma Isolation(video: seq<int>, p: nat, q: nat, va: nat, vb: nat)
      requires Holds(video) && p < NUM_TOTAL_PROC && q < NUM_TOTAL_PROC
      requires va < 0x1_0000_0000 && vb < 0x1_0000_0000
      requires forall r :: 0 <= r < NUM_TOTAL_PROC ==> video[r] in {0xB8, 0xBA, 0xBC}
      requires Translate(p, va).Phys? && Translate(q, vb).Phys? && Translate(p, va).a == Translate(q, vb).a
      requires 0x800_0000 <= va < 0x840_0000
      ensures p == q && va == vb
    {
      TranslateExactly(video, p, va);
      TranslateExactly(video, q, vb);
    }

    /** A translation that outlives a load of CR3 is right for every process. */
    lemma GlobalIsShared(video: seq<int>, p: nat, q: nat, va: nat)
      requires Holds(video) && p < NUM_TOTAL_PROC && q < NUM_TOTAL_PROC && va < 0x1_0000_0000
      requires Translate(p, va).Phys? && Translate(p, va).global
      ensures Translate(q, va) == Translate(p, va)
    {
      hide Translate;
      TranslateExactly(video, p, va);
      TranslateExactly(video, q, va);
    }

    /** The six kernel stacks lie below 8 MB, one under the other, and whatever directory is loaded they
        are where the kernel expects them and out of the user's reach. */
    lemma StacksMapped(video: seq<int>, p: nat, pid: nat, a: nat)
      requires Holds(video) && p < NUM_TOTAL_PROC && pid < NUM_TOTAL_PROC
      requires PcbBase(pid) <= a <= StackTop(pid) + 3
      ensures PcbBase(pid) == if pid == 0 then 0x7F_E000 else PcbBase(pid - 1) - 0x2000
      ensures StackTop(pid) + 4 == if pid == 0 then 0x80_0000 else PcbBase(pid - 1)
      ensures Translate(p, a) == Phys(a, false, false, true)
    {
      hide Translate;
      TranslateExactly(video, p, a);
    }

    /** Byte `k` of a loaded image reaches the new process's frame at 0x48000 + k exactly for the 3899392
        bytes `execute` asks for; they end where the frame ends. */
    lemma ImageFits(video: seq<int>, p: nat, k: nat)
      requires Holds(video) && p < NUM_TOTAL_PROC && 0x0804_8000 + k < 0x1_0000_0000
      requires forall r :: 0 <= r < NUM_TOTAL_PROC ==> video[r] in {0xB8, 0xBA, 0xBC}
      ensures Translate(p, 0x0804_8000 + k) == Phys(0x80_0000 + 0x40_0000 * p + 0x4_8000 + k, true, true, false) <==> k < 3899392
      ensures k < 3899392 ==> 0x4_8000 + k < 0x40_0000
    {
      hide Translate;
      TranslateExactly(video, p, 0x0804_8000 + k);
    }

    /** A process whose text page is that of terminal `t` reaches the same memory through 0xB8000
        and through the pointer `vidmap` returns, and shares it only with its own terminal. */
    lemma TextPages(video: seq<int>, p: nat, q: nat, t: nat, u: nat, o: nat, o': nat)
      requires Holds(video) && p < NUM_TOTAL_PROC && q < NUM_TOTAL_PROC && t < 3 && u < 3 && o < 0x1000 && o' < 0x1000
      requires video[p] == VIDEO_MEMORY_IN_PTE + 2 * t && video[q] == VIDEO_MEMORY_IN_PTE + 2 * u
      ensures Translate(p, 0xB_8000 + o) == Phys(0xB_8000 + 0x2000 * t + o, true, true, false)
      ensures Translate(p, 0x84B_8000 + 0x2000 * t + o) == Translate(p, 0xB_8000 + o)
      ensures Translate(p, 0xB_8000 + o) == Translate(q, 0xB_8000 + o') <==> t == u && o == o'
    {
      hide Translate;
      TranslateExactly(video, p, 0xB_8000 + o);
      TranslateExactly(video, q, 0xB_8000 + o');
      assert t == 0 || t == 1 || t == 2;
      TranslateExactly(video, p, 0x84B_8000 + 0x2000 * t + o);
    }
  }
}
