/**
 `memcpy`, `memset` and `memmove` (student-distrib/lib.c): four bytes at a time where the destination
 is aligned, and a direction that depends on the overlap. `mem` is memory; an address is an index.
 */
module Memory {
  import opened FileSystem

  /** `m` with `bytes` written from address `at` on. */
  function Written(m: seq<byte>, at: nat, bytes: seq<byte>): (w: seq<byte>)
    requires at + |bytes| <= |m|
    ensures |w| == |m|
    ensures forall k :: 0 <= k < |m| ==> w[k] == if at <= k < at + |bytes| then bytes[k - at] else m[k]
  {
    m[..at] + bytes + m[at + |bytes|..]
  }

  /** Bytes `lo` up to `hi` of the move have been made; everything else is as it was. */
  ghost predicate Moved(m: seq<byte>, mem: array<byte>, dest: nat, src: nat, lo: nat, hi: nat)
    requires dest + hi <= |m| && src + hi <= |m|
    reads mem
  {
    && |m| == mem.Length
    && forall k :: 0 <= k < mem.Length ==> mem[k] == m[if dest + lo <= k < dest + hi then k - dest + src else k]
  }

  lemma MovedAll(m: seq<byte>, mem: array<byte>, dest: nat, src: nat, n: nat)
    requires dest + n <= |m| && src + n <= |m| && Moved(m, mem, dest, src, 0, n)
    ensures mem[..] == Written(m, dest, m[src..src + n])
  {
    forall k | 0 <= k < |m| ensures mem[k] == Written(m, dest, m[src..src + n])[k] {
      if dest <= k < dest + n { assert m[src..src + n][k - dest] == m[k - dest + src]; }
    }
  }

  /** The byte steps before the destination is aligned and after the last whole word. */
  method CopyByte(mem: array<byte>, dest: nat, src: nat, i: nat, ghost m: seq<byte>)
    requires |m| == mem.Length && dest + i < |m| && src + i < |m|
    requires dest <= src || src + i < dest
    requires Moved(m, mem, dest, src, 0, i)
    modifies mem
    ensures Moved(m, mem, dest, src, 0, i + 1)
  {
    assert mem[src + i] == m[src + i];
    mem[dest + i] := mem[src + i];
  }

  /** One `movsl`: the destination is aligned, and the word is read completely before it is written. */
  method CopyWord(mem: array<byte>, dest: nat, src: nat, i: nat, ghost m: seq<byte>)
    requires |m| == mem.Length && dest + i + 4 <= |m| && src + i + 4 <= |m| && (dest + i) % 4 == 0
    requires dest <= src || src + i + 4 <= dest
    requires Moved(m, mem, dest, src, 0, i)
    modifies mem
    ensures Moved(m, mem, dest, src, 0, i + 4)
  {
    var s, d := src + i, dest + i;
    var b0, b1, b2, b3 := mem[s], mem[s + 1], mem[s + 2], mem[s + 3];
    assert b0 == m[s] && b1 == m[s + 1] && b2 == m[s + 2] && b3 == m[s + 3];
    mem[d], mem[d + 1], mem[d + 2], mem[d + 3] := b0, b1, b2, b3;
  }

  /** `memcpy` copies the bytes the source had on entry, for every alignment and length, if the regions
      are disjoint or the destination lies below the source. */
  method MemCpy(mem: array<byte>, dest: nat, src: nat, n: nat)
    requires dest + n <= mem.Length && src + n <= mem.Length
    requires dest <= src || src + n <= dest
    modifies mem
    ensures mem[..] == old(Written(mem[..], dest, mem[src..src + n]))
  {
    ghost var m := mem[..];
    var i := 0;
    while i < n && (dest + i) % 4 != 0
      invariant 0 <= i <= n && Moved(m, mem, dest, src, 0, i)
    {
      CopyByte(mem, dest, src, i, m);
      i := i + 1;
    }
    var words, tail := (n - i) / 4, (n - i) % 4;
    while words > 0
      invariant words >= 0 && i + 4 * words + tail == n && (words > 0 ==> (dest + i) % 4 == 0)
      invariant Moved(m, mem, dest, src, 0, i)
    {
      CopyWord(mem, dest, src, i, m);
      i := i + 4;
      words := words - 1;
    }
    while tail > 0
      invariant tail >= 0 && i + tail == n && Moved(m, mem, dest, src, 0, i)
    {
      CopyByte(mem, dest, src, i, m);
      i := i + 1;
      tail := tail - 1;
    }
    MovedAll(m, mem, dest, src, n);
  }

  ghost predicate Filled(m: seq<byte>, mem: array<byte>, s: nat, c: byte, i: nat)
    reads mem
  {
    && |m| == mem.Length
    && forall k :: 0 <= k < mem.Length ==> mem[k] == if s <= k < s + i then c else m[k]
  }

  /** One `stosl` to an aligned destination. */
  method FillWord(mem: array<byte>, s: nat, al: byte, i: nat, ghost m: seq<byte>)
    requires |m| == mem.Length && s + i + 4 <= |m| && (s + i) % 4 == 0
    requires Filled(m, mem, s, al, i)
    modifies mem
    ensures Filled(m, mem, s, al, i + 4)
  {
    mem[s + i], mem[s + i + 1], mem[s + i + 2], mem[s + i + 3] := al, al, al, al;
  }

  /** `memset` sets `n` bytes to the low byte of `c`, for every alignment and length. */
  method MemSet(mem: array<byte>, s: nat, c: int, n: nat)
    requires s + n <= mem.Length
    modifies mem
    ensures mem[..] == old(Written(mem[..], s, seq(n, _ => c % 0x100)))
  {
    ghost var m := mem[..];
    var al: byte := c % 0x100;
    var i := 0;
    while i < n && (s + i) % 4 != 0
      invariant 0 <= i <= n && Filled(m, mem, s, al, i)
    {
      mem[s + i] := al;
      i := i + 1;
    }
    var words, tail := (n - i) / 4, (n - i) % 4;
    while words > 0
      invariant words >= 0 && i + 4 * words + tail == n && (words > 0 ==> (s + i) % 4 == 0)
      invariant Filled(m, mem, s, al, i)
    {
      FillWord(mem, s, al, i, m);
      i := i + 4;
      words := words - 1;
    }
    while tail > 0
      invariant tail >= 0 && i + tail == n && Filled(m, mem, s, al, i)
    {
      mem[s + i] := al;
      i := i + 1;
      tail := tail - 1;
    }
    assert seq(n, _ => al) == seq(n, _ => c % 0x100);
  }

  /** `memmove` leaves in the destination what the source held on entry, however the two overlap. */
  method MemMove(mem: array<byte>, dest: nat, src: nat, n: nat)
    requires dest + n <= mem.Length && src + n <= mem.Length
    modifies mem
    ensures mem[..] == old(Written(mem[..], dest, mem[src..src + n]))
  {
    ghost var m := mem[..];
    if src >= dest {
      var i := 0;
      while i < n
        invariant 0 <= i <= n && Moved(m, mem, dest, src, 0, i)
      {
        CopyByte(mem, dest, src, i, m);
        i := i + 1;
      }
    } else {
      var i := n;
      while i > 0
        invariant 0 <= i <= n && Moved(m, mem, dest, src, i, n)
      {
        i := i - 1;
        assert mem[src + i] == m[src + i];
        mem[dest + i] := mem[src + i];
      }
    }
    MovedAll(m, mem, dest, src, n);
  }
}
