/**
 The six 8 KB kernel stacks and the register frames that live on them.

 A process's PCB sits at the bottom of its stack (student-distrib/syscall.c:16, 340), so the
 stack may only use the addresses from `Floor` up to `StackTop`.
 */
module KernelStack {
  import opened Common

  const NUM_TOTAL_PROC := 6
  const PCB_SIZE := 320

  function PcbBase(pid: nat): int { 0x7FE000 - 0x2000 * pid }

  function Floor(pid: nat): int { PcbBase(pid) + PCB_SIZE }

  function StackTop(pid: nat): int { 0x800000 - 0x2000 * pid - 4 }

  /** The addresses a frame of process `pid` may occupy. */
  predicate InStack(pid: nat, a: int) { Floor(pid) <= a < PcbBase(pid) + 0x2000 }

  /** One 32-bit word of kernel stack. A return address is named by the activation of
      `execute` it leads back into; every other word is plain data. */
  datatype Word = Data(value: int) | ReturnInto(call: nat)

  type Memory = map<int, Word>

  function Peek(mem: Memory, a: int): int {
    if a in mem && mem[a].Data? then mem[a].value else 0
  }

  predicate HasWord(mem: Memory, a: int, v: int) { a in mem && mem[a] == Data(v) }

  /** The effect of pushing `words` one after the other, starting with esp == `esp`. */
  function PushAll(mem: Memory, esp: int, words: seq<int>): Memory
    decreases |words|
  {
    if words == [] then mem else PushAll(mem[esp - 4 := Data(words[0])], esp - 4, words[1..])
  }

  lemma {:induction false} PushAllAt(mem: Memory, esp: int, words: seq<int>)
    ensures forall j {:trigger words[j]} :: 0 <= j < |words| ==>
              HasWord(PushAll(mem, esp, words), esp - 4 * (j + 1), words[j])
    ensures forall a :: a in mem && !(esp - 4 * |words| <= a < esp) ==>
              a in PushAll(mem, esp, words) && PushAll(mem, esp, words)[a] == mem[a]
    decreases |words|
  {
    if words != [] {
      var mem1 := mem[esp - 4 := Data(words[0])];
      var rest := words[1..];
      PushAllAt(mem1, esp - 4, rest);
      var after := PushAll(mem, esp, words);
      assert after == PushAll(mem1, esp - 4, rest);
      forall j {:trigger words[j]} | 0 <= j < |words|
        ensures HasWord(after, esp - 4 * (j + 1), words[j])
      {
        if j > 0 {
          assert rest[j - 1] == words[j];
          assert (esp - 4) - 4 * ((j - 1) + 1) == esp - 4 * (j + 1);
        }
      }
    }
  }

  /** The words `jump_to_program` pushes below the saved ebp for its `iret`. */
  const IRET_BYTES := 20

  /** `execute`, entered with esp == `esp0`: `toEsp` below it finds its own esp, `toFrame` below that are
      the saved ebp and, above it, the return address of its call to `jump_to_program`. `depth` below
      `esp0` is the lowest byte that it and all it calls ever write. */
  datatype Frame = Frame(toEsp: nat, toFrame: nat, depth: nat, ebp: int) {
    predicate Proper() { toFrame >= 8 && toEsp + toFrame + IRET_BYTES <= depth }
  }

  const NoFrame := Frame(0, 0, 0, 0)

  /** The registers an interrupt saves. `user` holds the stack pointer and selector that the CPU
      pushes, and `iret` pops, only when the interrupt came from user mode. */
  datatype Cpu = Cpu(
    user: Option<(int, int)>, eflags: int, cs: int, eip: int,
    es: int, ds: int, eax: int, ebp: int, edi: int, esi: int, edx: int, ecx: int, ebx: int)
  {
    predicate WellFormed() { user.Some? <==> cs % 4 == 3 }
  }

  /** What the CPU and then `timer_hand` push, in order. */
  function PushOrder(c: Cpu): (words: seq<int>)
  {
    (if c.user.Some? then [c.user.value.1, c.user.value.0] else [])
    + [c.eflags, c.cs, c.eip]
    + [c.es, c.ds, c.eax, c.ebp, c.edi, c.esi, c.edx, c.ecx, c.ebx]
  }

  function FrameBytes(c: Cpu): nat { if c.user.Some? then 56 else 48 }

  lemma FrameBytesIsLength(c: Cpu)
    ensures FrameBytes(c) == 4 * |PushOrder(c)|
  {
  }

  /** `switch_to_prog`: nine pops, then `iret`, which also pops a stack pointer and selector when
      it returns to a less privileged code segment. */
  function PopFrame(mem: Memory, esp: int): Cpu {
    var cs := Peek(mem, esp + 40);
    Cpu(if cs % 4 == 3 then Some((Peek(mem, esp + 48), Peek(mem, esp + 52))) else None,
        Peek(mem, esp + 44), cs, Peek(mem, esp + 36),
        Peek(mem, esp + 32), Peek(mem, esp + 28), Peek(mem, esp + 24), Peek(mem, esp + 20),
        Peek(mem, esp + 16), Peek(mem, esp + 12), Peek(mem, esp + 8), Peek(mem, esp + 4), Peek(mem, esp))
  }

  /** The frame of `c`, as pushed from `entry` downwards, is in memory. */
  predicate Holds(mem: Memory, entry: int, c: Cpu) {
    var words := PushOrder(c);
    forall j {:trigger words[j]} :: 0 <= j < |words| ==>
      HasWord(mem, entry - 4 * (j + 1), words[j])
  }

  /** Popping a stored frame gives back every register, whatever mode was interrupted. */
  lemma PopFrameInverse(mem: Memory, entry: int, c: Cpu)
    requires c.WellFormed() && Holds(mem, entry, c)
    ensures PopFrame(mem, entry - FrameBytes(c)) == c
  {
    var w := PushOrder(c);
    if c.user.Some? {
      assert w[0] == c.user.value.1 && w[1] == c.user.value.0 && w[2] == c.eflags && w[3] == c.cs && w[4] == c.eip;
      assert w[5] == c.es && w[6] == c.ds && w[7] == c.eax && w[8] == c.ebp && w[9] == c.edi;
      assert w[10] == c.esi && w[11] == c.edx && w[12] == c.ecx && w[13] == c.ebx;
    } else {
      assert w[0] == c.eflags && w[1] == c.cs && w[2] == c.eip;
      assert w[3] == c.es && w[4] == c.ds && w[5] == c.eax && w[6] == c.ebp && w[7] == c.edi;
      assert w[8] == c.esi && w[9] == c.edx && w[10] == c.ecx && w[11] == c.ebx;
    }
  }

  /** Where each register of a frame pushed from `entry` downwards lies. */
  lemma FrameLayout(mem: Memory, entry: int, c: Cpu)
    ensures var m := PushAll(mem, entry, PushOrder(c));
            var low := entry - FrameBytes(c);
            && HasWord(m, low, c.ebx) && HasWord(m, low + 4, c.ecx) && HasWord(m, low + 8, c.edx)
            && HasWord(m, low + 12, c.esi) && HasWord(m, low + 16, c.edi) && HasWord(m, low + 20, c.ebp)
            && HasWord(m, low + 24, c.eax) && HasWord(m, low + 28, c.ds) && HasWord(m, low + 32, c.es)
            && HasWord(m, low + 36, c.eip) && HasWord(m, low + 40, c.cs) && HasWord(m, low + 44, c.eflags)
            && (c.user.Some? ==> HasWord(m, low + 48, c.user.value.0) && HasWord(m, low + 52, c.user.value.1))
  {
    PushAllAt(mem, entry, PushOrder(c));
    hide PushAll, HasWord;
    var m := PushAll(mem, entry, PushOrder(c));
    var w := PushOrder(c);
    var n := |w|;
    assert n == if c.user.Some? then 14 else 12;
    assert w[n - 1] == c.ebx && w[n - 2] == c.ecx && w[n - 3] == c.edx && w[n - 4] == c.esi && w[n - 5] == c.edi && w[n - 6] == c.ebp;
    assert w[n - 7] == c.eax && w[n - 8] == c.ds && w[n - 9] == c.es && w[n - 10] == c.eip && w[n - 11] == c.cs && w[n - 12] == c.eflags;
    assert c.user.Some? ==> w[0] == c.user.value.1 && w[1] == c.user.value.0;
  }

  /** `fetch_cur_pcb_ptr`: clearing the low 13 bits of any stack pointer inside the 8 KB stack of
      `pid`, and of no other stack, gives the PCB of `pid`. */
  lemma FetchPcbExact(pid: nat, esp: int)
    requires pid < NUM_TOTAL_PROC
    ensures esp - esp % 0x2000 == PcbBase(pid) <==> PcbBase(pid) <= esp < PcbBase(pid) + 0x2000
  {
    assert PcbBase(pid) == 0x2000 * (0x3FF - pid);
  }
}
