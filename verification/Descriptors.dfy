/**
 Directory lookup and the descriptor table of a process: `open`, `close`, `read`
 (student-distrib/syscall.c) and `filesystem_read` (student-distrib/filesystem.c).
 */
module Descriptors {
  import opened Common
  import opened FileSystem

  const DIRECTORY_INODE := 0xFFFF_FFFF

  function EntryAddr(i: nat): nat { 64 + 64 * i }

  function FileType(img: seq<byte>, i: nat): nat
    requires EntryAddr(i) + 64 <= |img|
  {
    U32(img, EntryAddr(i) + 32)
  }

  function EntryInode(img: seq<byte>, i: nat): nat
    requires EntryAddr(i) + 64 <= |img|
  {
    U32(img, EntryAddr(i) + 36)
  }

  /** A C string in a buffer: everything before the first NUL. */
  ghost function CutAtNul(s: seq<byte>): (t: seq<byte>)
    ensures |t| <= |s| && t == s[..|t|] && 0 !in t && (|t| < |s| ==> s[|t|] == 0)
  {
    if s == [] || s[0] == 0 then [] else [s[0]] + CutAtNul(s[1..])
  }

  lemma CutUnique(s: seq<byte>, n: nat)
    requires n <= |s| && 0 !in s[..n] && (n < |s| ==> s[n] == 0)
    ensures CutAtNul(s) == s[..n]
  {
    var t := CutAtNul(s);
    assert forall k :: 0 <= k < n ==> s[k] == s[..n][k] && s[k] != 0;
    assert forall k :: 0 <= k < |t| ==> s[k] == t[k] && s[k] != 0;
  }

  ghost function EntryName(img: seq<byte>, i: nat): seq<byte>
    requires EntryAddr(i) + 64 <= |img|
  {
    CutAtNul(img[EntryAddr(i)..EntryAddr(i) + 32])
  }

  /** What `strlen` finds from the start of an entry: it does not stop at the 32 bytes of the name. */
  ghost function EntryString(img: seq<byte>, i: nat): seq<byte>
    requires EntryAddr(i) + 64 <= |img|
  {
    CutAtNul(img[EntryAddr(i)..EntryAddr(i) + 64])
  }

  /** Files of the three types, with good inodes for the regular ones. */
  ghost predicate WellFormed(img: seq<byte>) {
    && Sized(img)
    && forall i :: 0 <= i < NumEntries(img) ==>
         FileType(img, i) < 256 && (FileType(img, i) == 2 ==> GoodInode(img, EntryInode(img, i)))
  }

  /** Reading the directory gives an entry's name exactly when the name leaves room for a NUL or the
      type's low byte is 0; otherwise the type byte comes along as a 33rd character. */
  lemma EntryStringIsName(img: seq<byte>, i: nat)
    requires EntryAddr(i) + 64 <= |img| && FileType(img, i) < 256
    ensures EntryString(img, i) == EntryName(img, i) <==> |EntryName(img, i)| < 32 || FileType(img, i) == 0
    ensures |EntryString(img, i)| <= 33
  {
    var a := EntryAddr(i);
    var all := img[a..a + 64];
    var name := EntryName(img, i);
    assert all[32] == img[a + 32] && all[33] == img[a + 33] && all[34] == img[a + 34] && all[35] == img[a + 35];
    assert FileType(img, i) == all[32] as int + 0x100 * all[33] as int + 0x1_0000 * all[34] as int + 0x100_0000 * all[35] as int;
    assert name == all[..|name|];
    if |name| < 32 {
      CutUnique(all, |name|);
    } else if FileType(img, i) == 0 {
      CutUnique(all, 32);
    } else {
      assert all[..33] == name + [all[32]];
      CutUnique(all, 33);
    }
  }

  /** `strncmp` against a directory name (lib.c, lines 562-580); `fname` is a C string. */
  method Strncmp(img: seq<byte>, a: nat, fname: seq<byte>, n: nat) returns (d: int)
    requires a + n <= |img| && 0 !in fname
    ensures d == 0 <==> CutAtNul(img[a..a + n]) == fname[..Min(n, |fname|)]
  {
    ghost var s := img[a..a + n];
    var i := 0;
    while i < n
      invariant 0 <= i <= n && i <= |fname|
      invariant s[..i] == fname[..i]
    {
      var c := if i < |fname| then fname[i] else 0;
      if img[a + i] != c || img[a + i] == 0 {
        assert img[a + i] == s[i];
        StrncmpDecided(s, fname, i);
        return img[a + i] as int - c as int;
      }
      assert s[..i + 1] == s[..i] + [s[i]] && fname[..i + 1] == fname[..i] + [fname[i]];
      i := i + 1;
    }
    assert s[..n] == s;
    CutUnique(s, n);
    return 0;
  }

  lemma StrncmpDecided(s: seq<byte>, fname: seq<byte>, i: nat)
    requires i < |s| && i <= |fname| && 0 !in fname && s[..i] == fname[..i]
    requires var c := if i < |fname| then fname[i] else 0; s[i] != c || s[i] == 0
    ensures (s[i] == if i < |fname| then fname[i] else 0) <==> CutAtNul(s) == fname[..Min(|s|, |fname|)]
  {
    var t := CutAtNul(s);
    var f := fname[..Min(|s|, |fname|)];
    if s[i] == 0 {
      CutUnique(s, i);
      assert i < |fname| ==> fname[i] != 0;
    } else {
      assert forall k :: 0 <= k < i ==> s[k] == s[..i][k] == fname[..i][k] && fname[k] != 0;
      assert forall k :: 0 <= k < |t| ==> s[k] == t[k] && s[k] != 0;
      assert |t| > i;
      assert i < |fname| ==> f[i] == fname[i];
    }
  }

  ghost predicate Named(img: seq<byte>, i: nat, fname: seq<byte>)
    requires EntryAddr(i) + 64 <= |img|
  {
    EntryName(img, i) == fname[..Min(32, |fname|)]
  }

  /** The first entry from `i` on whose name is `fname` (its first 32 bytes). */
  ghost function Lookup(img: seq<byte>, fname: seq<byte>, i: nat): (r: Option<nat>)
    requires Sized(img) && i <= NumEntries(img)
    ensures r.Some? ==> i <= r.value < NumEntries(img) && Named(img, r.value, fname)
    ensures forall j :: i <= j < (if r.Some? then r.value else NumEntries(img)) ==> !Named(img, j, fname)
    decreases NumEntries(img) - i
  {
    if i == NumEntries(img) then None else if Named(img, i, fname) then Some(i) else Lookup(img, fname, i + 1)
  }

  method CompareName(img: seq<byte>, i: nat, fname: seq<byte>) returns (d: int)
    requires EntryAddr(i) + 64 <= |img| && 0 !in fname
    ensures d == 0 <==> Named(img, i, fname)
  {
    d := Strncmp(img, EntryAddr(i), fname, 32);
  }

  /** `read_dentry_by_name`. */
  method ReadDentryByName(img: seq<byte>, fname: seq<byte>) returns (i: int)
    requires Sized(img) && 0 !in fname
    ensures match Lookup(img, fname, 0) case None => i == -1 case Some(j) => i == j
  {
    var k := 0;
    while k < NumEntries(img)
      invariant 0 <= k <= NumEntries(img)
      invariant Lookup(img, fname, 0) == Lookup(img, fname, k)
    {
      hide EntryName, U32, CutAtNul;
      var d := CompareName(img, k, fname);
      if d == 0 {
        return k;
      }
      k := k + 1;
    }
    return -1;
  }

  datatype Kind = Unset | Rtc | Files | Terminal

  datatype Desc = Desc(kind: Kind, inode: nat, pos: nat, inUse: bool)

  const FreeDesc := Desc(Unset, 0, 0, false)

  datatype Op = Open(fname: seq<byte>) | Close(fd: int) | Read(fd: int, cnt: nat)

  /** What an operation returns: a C result with the bytes delivered, or the driver that decides. */
  datatype Reply = Ret(value: int, bytes: seq<byte>) | Driver(kind: Kind)

  function FreeSlot(d: seq<Desc>, i: nat): (slot: nat)
    requires i <= |d|
    ensures i <= slot <= |d| && (slot < |d| ==> !d[slot].inUse)
    ensures forall j :: i <= j < slot ==> d[j].inUse
    decreases |d| - i
  {
    if i == |d| || !d[i].inUse then i else FreeSlot(d, i + 1)
  }

  /** The descriptor `open` writes; a file type it does not know leaves the slot as it was. */
  function Opened(fileType: nat, inode: nat, before: Desc): Desc {
    if fileType == 0 then Desc(Rtc, 0, 0, true)
    else if fileType == 1 then Desc(Files, DIRECTORY_INODE, 0, true)
    else if fileType == 2 then Desc(Files, inode, 0, true)
    else before
  }

  /** Descriptors of regular files name good inodes. */
  ghost predicate TableOk(img: seq<byte>, d: seq<Desc>) {
    && WellFormed(img) && |d| == 8
    && forall fd :: 0 <= fd < 8 && d[fd].inUse && d[fd].kind == Files && d[fd].inode != DIRECTORY_INODE ==>
         GoodInode(img, d[fd].inode)
  }

  /** The effect of one operation on the table, and its reply. */
  ghost function Perform(img: seq<byte>, d: seq<Desc>, op: Op): (seq<Desc>, Reply)
    requires TableOk(img, d)
  {
    match op
    case Open(fname) =>
      var entry := Lookup(img, fname, 0);
      var slot := FreeSlot(d, 2);
      if entry == None || slot == 8 then (d, Ret(-1, []))
      else (d[slot := Opened(FileType(img, entry.value), EntryInode(img, entry.value), d[slot])], Ret(slot, []))
    case Close(fd) =>
      if fd < 2 || fd > 7 || !d[fd].inUse then (d, Ret(-1, []))
      else (d[fd := d[fd].(inUse := false)], Ret(0, []))
    case Read(fd, cnt) =>
      if fd > 7 || fd < 0 || fd == 1 || !d[fd].inUse then (d, Ret(-1, []))
      else if d[fd].kind != Files then (d, Driver(d[fd].kind))
      else if d[fd].inode != DIRECTORY_INODE then
        var n := ReadCount(img, d[fd].inode, d[fd].pos, cnt);
        if n <= 0 then (d, Ret(n, []))
        else (d[fd := d[fd].(pos := d[fd].pos + n)], Ret(n, File(img, d[fd].inode)[d[fd].pos..d[fd].pos + n]))
      else if d[fd].pos < NumEntries(img) then
        var name := EntryString(img, d[fd].pos);
        (d[fd := d[fd].(pos := d[fd].pos + 1)], Ret(|name|, name))
      else (d[fd := d[fd].(pos := 0)], Ret(0, []))
  }

  lemma PerformKeepsTable(img: seq<byte>, d: seq<Desc>, op: Op)
    requires TableOk(img, d)
    ensures TableOk(img, Perform(img, d, op).0)
  {
  }

  class Table {
    const desc: array<Desc>

    ghost predicate Valid(img: seq<byte>)
      reads desc
    {
      TableOk(img, desc[..])
    }

    constructor (img: seq<byte>)
      requires WellFormed(img)
      ensures Valid(img) && fresh(desc)
      ensures desc[..] == seq(8, i => if i < 2 then Desc(Terminal, 0, 0, true) else FreeDesc)
    {
      desc := new Desc[8](i => if i < 2 then Desc(Terminal, 0, 0, true) else FreeDesc);
    }

    method DoOpen(img: seq<byte>, fname: seq<byte>) returns (ret: int)
      requires Valid(img) && 0 !in fname
      modifies desc
      ensures Valid(img) && (desc[..], Ret(ret, [])) == old(Perform(img, desc[..], Open(fname)))
    {
      ghost var before := desc[..];
      PerformKeepsTable(img, desc[..], Open(fname));
      var entry := ReadDentryByName(img, fname);
      if entry == -1 {
        return -1;
      }
      var i := 2;
      while i < 8
        invariant 2 <= i <= 8 && desc[..] == before && FreeSlot(before, 2) == FreeSlot(before, i)
      {
        if !desc[i].inUse {
          match FileType(img, entry) {
            case 0 => desc[i] := Desc(Rtc, 0, 0, true);
            case 1 => desc[i] := Desc(Files, DIRECTORY_INODE, 0, true);
            case 2 => desc[i] := Desc(Files, EntryInode(img, entry), 0, true);
            case _ =>
          }
          assert desc[..] == before[i := Opened(FileType(img, entry), EntryInode(img, entry), before[i])];
          return i;
        }
        i := i + 1;
      }
      return -1;
    }

    method DoClose(img: seq<byte>, fd: int) returns (ret: int)
      requires Valid(img)
      modifies desc
      ensures Valid(img) && (desc[..], Ret(ret, [])) == old(Perform(img, desc[..], Close(fd)))
    {
      PerformKeepsTable(img, desc[..], Close(fd));
      if fd < 2 || fd > 7 {
        return -1;
      }
      if !desc[fd].inUse {
        return -1;
      }
      desc[fd] := desc[fd].(inUse := false);
      return 0;
    }

    /** `read`, as far as it leads into `filesystem_read`; a terminal or RTC descriptor is handed to
        its driver. The bytes delivered are in `buf` from `at` on. */
    method DoRead(img: seq<byte>, fd: int, buf: array<byte>, at: nat, cnt: nat) returns (ret: int, driver: Option<Kind>)
      requires Valid(img) && at + cnt <= buf.Length
      requires 0 <= fd < 8 && desc[fd].inode == DIRECTORY_INODE ==> at + 33 <= buf.Length
      modifies desc, buf
      ensures Valid(img)
      ensures var expected := old(Perform(img, desc[..], Read(fd, cnt)));
              match expected.1
              case Ret(_, _) => driver == None && Delivers(expected, ret, old(buf[..]), buf, at)
              case Driver(kind) => desc[..] == expected.0 && driver == Some(kind) && buf[..] == old(buf[..])
    {
      PerformKeepsTable(img, desc[..], Read(fd, cnt));
      if fd > 7 || fd < 0 || fd == 1 {
        return -1, None;
      }
      if !desc[fd].inUse {
        return -1, None;
      }
      if desc[fd].kind != Files {
        return 0, Some(desc[fd].kind);
      }
      ret := FilesystemRead(img, fd, buf, at, cnt);
      return ret, None;
    }

    /** `filesystem_read`. */
    method FilesystemRead(img: seq<byte>, fd: nat, buf: array<byte>, at: nat, cnt: nat) returns (ret: int)
      requires Valid(img) && at + cnt <= buf.Length
      requires fd < 8 && fd != 1 && desc[fd].inUse && desc[fd].kind == Files
      requires desc[fd].inode == DIRECTORY_INODE ==> at + 33 <= buf.Length
      modifies desc, buf
      ensures Delivers(old(Perform(img, desc[..], Read(fd, cnt))), ret, old(buf[..]), buf, at)
    {
      hide File, EntryString, Copied, GoodInode;
      if desc[fd].inode != DIRECTORY_INODE {
        ret := ReadData(img, desc[fd].inode, desc[fd].pos, buf, at, cnt);
        if ret != -1 {
          desc[fd] := desc[fd].(pos := desc[fd].pos + ret);
        }
        return;
      }
      if desc[fd].pos < NumEntries(img) {
        ret := CopyName(img, desc[fd].pos, buf, at);
        desc[fd] := desc[fd].(pos := desc[fd].pos + 1);
        return;
      }
      desc[fd] := desc[fd].(pos := 0);
      return 0;
    }

    /** The table is as the specification says, and so are the result and the buffer. */
    ghost predicate Delivers(expected: (seq<Desc>, Reply), ret: int, before: seq<byte>, buf: array<byte>, at: nat)
      reads desc, buf
    {
      var (d, reply) := expected;
      && desc[..] == d && reply.Ret? && ret == reply.value
      && |reply.bytes| == (if ret > 0 then ret else 0) && at + |reply.bytes| <= buf.Length == |before|
      && buf[at..at + |reply.bytes|] == reply.bytes
      && forall j :: 0 <= j < buf.Length && !(at <= j < at + |reply.bytes|) ==> buf[j] == before[j]
    }
  }

  /** `strlen` and `memcpy` on a directory entry. */
  method CopyName(img: seq<byte>, i: nat, buf: array<byte>, at: nat) returns (n: nat)
    requires EntryAddr(i) + 64 <= |img| && FileType(img, i) < 256 && at + 33 <= buf.Length
    modifies buf
    ensures n == |EntryString(img, i)| && at + n <= buf.Length && buf[at..at + n] == EntryString(img, i)
    ensures forall j :: 0 <= j < buf.Length && !(at <= j < at + n) ==> buf[j] == old(buf[j])
  {
    EntryStringIsName(img, i);
    ghost var s := img[EntryAddr(i)..EntryAddr(i) + 64];
    n := 0;
    while img[EntryAddr(i) + n] != 0
      invariant n <= |EntryString(img, i)|
      decreases |EntryString(img, i)| - n
    {
      assert s[n] == img[EntryAddr(i) + n];
      n := n + 1;
    }
    assert forall k :: 0 <= k < |EntryString(img, i)| ==> s[k] == EntryString(img, i)[k] && s[k] != 0;
    forall k | 0 <= k < n {
      buf[at + k] := img[EntryAddr(i) + k];
    }
    forall k | 0 <= k < n ensures buf[at..at + n][k] == EntryString(img, i)[k] {
      assert buf[at + k] == img[EntryAddr(i) + k] == s[k];
    }
  }
}
