/**
 What a process sees of its files through any sequence of `open`, `read` and `close`, and the two
 programs that read to the end: syscalls/ece391cat.c and syscalls/ece391ls.c.
 */
module Streams {
  import opened Common
  import opened FileSystem
  import opened Descriptors

  const DOT: byte := 46

  /** The table after `ops`, and for each descriptor the bytes delivered since it was opened. */
  ghost function Session(img: seq<byte>, d: seq<Desc>, ops: seq<Op>): (r: (seq<Desc>, seq<seq<byte>>))
    requires TableOk(img, d)
    ensures TableOk(img, r.0) && |r.1| == 8
    decreases |ops|
  {
    if ops == [] then (d, seq(8, _ => []))
    else
      var op := ops[|ops| - 1];
      var (d1, got) := Session(img, d, ops[..|ops| - 1]);
      PerformKeepsTable(img, d1, op);
      var (d2, reply) := Perform(img, d1, op);
      (d2, Delivered(got, op, reply))
  }

  ghost function Delivered(got: seq<seq<byte>>, op: Op, reply: Reply): (r: seq<seq<byte>>)
    requires |got| == 8
    ensures |r| == 8
  {
    match (op, reply)
    case (Open(_), Ret(slot, _)) => if 0 <= slot < 8 then got[slot := []] else got
    case (Read(fd, _), Ret(_, bytes)) => if 0 <= fd < 8 then got[fd := got[fd] + bytes] else got
    case _ => got
  }

  ghost predicate IsRegular(d: Desc) { d.inUse && d.kind == Files && d.inode != DIRECTORY_INODE }

  /** The bytes delivered on a descriptor are the beginning of its file, up to its position. */
  ghost predicate Follows(img: seq<byte>, d: Desc, got: seq<byte>) {
    IsRegular(d) ==>
      Sized(img) && GoodInode(img, d.inode) && d.pos <= Length(img, d.inode) && got == File(img, d.inode)[..d.pos]
  }

  lemma StepFollowsAt(img: seq<byte>, d: seq<Desc>, got: seq<seq<byte>>, op: Op, fd: nat)
    requires TableOk(img, d) && |got| == 8 && fd < 8 && Follows(img, d[fd], got[fd])
    ensures var (d', reply) := Perform(img, d, op);
            |d'| == 8 && Follows(img, d'[fd], Delivered(got, op, reply)[fd])
  {
    hide File, Lookup, FreeSlot, EntryString;
    PerformKeepsTable(img, d, op);
    if op.Read? && fd == op.fd && IsRegular(d[fd]) {
      var file := File(img, d[fd].inode);
      var n := ReadCount(img, d[fd].inode, d[fd].pos, op.cnt);
      assert n > 0 ==> file[..d[fd].pos + n] == file[..d[fd].pos] + file[d[fd].pos..d[fd].pos + n];
    }
  }

  lemma StepFollows(img: seq<byte>, d: seq<Desc>, got: seq<seq<byte>>, op: Op)
    requires TableOk(img, d) && |got| == 8
    requires forall fd :: 0 <= fd < 8 ==> Follows(img, d[fd], got[fd])
    ensures var (d', reply) := Perform(img, d, op);
            |d'| == 8 && forall fd :: 0 <= fd < 8 ==> Follows(img, d'[fd], Delivered(got, op, reply)[fd])
  {
    PerformKeepsTable(img, d, op);
    var (d', reply) := Perform(img, d, op);
    forall fd: nat | fd < 8 ensures Follows(img, d'[fd], Delivered(got, op, reply)[fd]) {
      StepFollowsAt(img, d, got, op, fd);
    }
  }

  /** However opens, reads and closes on all descriptors interleave, every open file delivers its own
      bytes in order, each once. */
  lemma {:induction false} StreamsAreFiles(img: seq<byte>, d: seq<Desc>, ops: seq<Op>)
    requires TableOk(img, d) && forall fd :: 0 <= fd < 8 ==> !IsRegular(d[fd])
    ensures forall fd :: 0 <= fd < 8 ==> Follows(img, Session(img, d, ops).0[fd], Session(img, d, ops).1[fd])
    decreases |ops|
  {
    if ops != [] {
      StreamsAreFiles(img, d, ops[..|ops| - 1]);
      var (d1, got) := Session(img, d, ops[..|ops| - 1]);
      StepFollows(img, d1, got, ops[|ops| - 1]);
    }
  }

  /** A read that asks for something fails to deliver exactly when the file has been delivered
      completely; it then reports an error exactly when the slot past the end is bad. */
  lemma StopsAtEnd(img: seq<byte>, d: seq<Desc>, got: seq<byte>, fd: nat, cnt: nat)
    requires TableOk(img, d) && fd < 8 && fd != 1 && cnt > 0 && IsRegular(d[fd]) && Follows(img, d[fd], got)
    ensures var reply := Perform(img, d, Read(fd, cnt)).1;
            && reply.Ret? && (reply.value <= 0 <==> got == File(img, d[fd].inode))
            && (reply.value == -1 <==> got == File(img, d[fd].inode) && BadSlotAtEnd(img, d[fd].inode))
  {
    var file := File(img, d[fd].inode);
    assert file[..|file|] == file;
    assert |got| == d[fd].pos;
  }

  /** An operation on one descriptor leaves the others alone, and `open` takes the lowest free one. */
  lemma OthersUntouched(img: seq<byte>, d: seq<Desc>, op: Op, fd: nat)
    requires TableOk(img, d) && fd < 8
    ensures var (d', reply) := Perform(img, d, op);
            && |d'| == 8
            && ((op.Read? || op.Close?) && op.fd != fd ==> d'[fd] == d[fd])
            && (op.Open? && reply != Ret(fd, []) ==> d'[fd] == d[fd])
            && (op.Open? && reply.Ret? && 2 <= fd < reply.value ==> d[fd].inUse)
  {
  }

  /** Closing succeeds exactly on a descriptor from 2 to 7 that is in use; the terminal's 0 and 1, numbers
      out of range and unused descriptors get -1 and change nothing. */
  lemma CloseExactly(img: seq<byte>, d: seq<Desc>, fd: int)
    requires TableOk(img, d)
    ensures var (d', reply) := Perform(img, d, Close(fd));
            if fd in {2, 3, 4, 5, 6, 7} && d[fd].inUse then reply == Ret(0, []) && d' == d[fd := d[fd].(inUse := false)]
            else reply == Ret(-1, []) && d' == d
  {
  }

  /** A read is refused exactly on 1, out of range and on an unused descriptor; the drivers of the terminal
      and the RTC are called exactly on their descriptors. None of this changes the table. */
  lemma ReadRefused(img: seq<byte>, d: seq<Desc>, fd: int, cnt: nat)
    requires TableOk(img, d)
    ensures var (d', reply) := Perform(img, d, Read(fd, cnt));
            var refused := fd !in {0, 2, 3, 4, 5, 6, 7} || !d[fd].inUse;
            && (refused ==> reply == Ret(-1, []) && d' == d)
            && (!refused && d[fd].kind != Files ==> reply == Driver(d[fd].kind) && d' == d)
            && (!refused && d[fd].kind == Files ==> reply.Ret? && (reply.value == -1 ==> d' == d && IsRegular(d[fd])))
  {
    hide File;
  }

  /** Whatever a process opens, reads and closes, descriptors 0 and 1 stay those of the terminal. */
  lemma {:induction false} TerminalStaysOpen(img: seq<byte>, d: seq<Desc>, ops: seq<Op>)
    requires TableOk(img, d) && d[0] == d[1] == Desc(Terminal, 0, 0, true)
    ensures Session(img, d, ops).0[0] == Session(img, d, ops).0[1] == Desc(Terminal, 0, 0, true)
    decreases |ops|
  {
    if ops != [] {
      TerminalStaysOpen(img, d, ops[..|ops| - 1]);
      var d1 := Session(img, d, ops[..|ops| - 1]).0;
      var op := ops[|ops| - 1];
      OthersUntouched(img, d1, op, 0);
      OthersUntouched(img, d1, op, 1);
      hide Perform, FreeSlot, Lookup;
      match op
      case Open(fname) => OpenTakes(img, d1, fname);
      case Close(fd) => CloseExactly(img, d1, fd);
      case Read(fd, cnt) => ReadRefused(img, d1, fd, cnt);
    }
  }

  /** What `open` does for each type: -1 for an unknown name or a full table; otherwise the lowest free
      descriptor, at position 0 of an RTC, the directory or the file, or left free for any other type. */
  lemma OpenTakes(img: seq<byte>, d: seq<Desc>, fname: seq<byte>)
    requires TableOk(img, d)
    ensures var (d', reply) := Perform(img, d, Open(fname));
            var entry := Lookup(img, fname, 0);
            if entry == None || (forall fd :: 2 <= fd < 8 ==> d[fd].inUse) then reply == Ret(-1, []) && d' == d
            else
              && reply.Ret? && 2 <= reply.value < 8 && reply.bytes == [] && !d[reply.value].inUse
              && (forall fd :: 2 <= fd < reply.value ==> d[fd].inUse)
              && d' == d[reply.value := d'[reply.value]]
              && d'[reply.value] == (if FileType(img, entry.value) == 0 then Desc(Rtc, 0, 0, true)
                                     else if FileType(img, entry.value) == 1 then Desc(Files, 0xFFFF_FFFF, 0, true)
                                     else if FileType(img, entry.value) == 2 then Desc(Files, EntryInode(img, entry.value), 0, true)
                                     else d[reply.value])
  {
    hide Lookup, FileType, EntryInode;
  }

  /** Loading a program delivers nothing, or an error, exactly when its file is empty; so `execute`
      loses a PID only on an empty file. */
  lemma LoadFailsOnlyWhenEmpty(img: seq<byte>, inode: nat)
    requires Sized(img) && GoodInode(img, inode)
    ensures ReadCount(img, inode, 0, 3899392) in {0, -1} <==> Length(img, inode) == 0
    ensures Length(img, inode) > 0 ==> ReadCount(img, inode, 0, 50) == Min(50, Length(img, inode))
  {
  }

  /** What reading a directory from entry `i` on delivers before it first delivers nothing: the strings
      at the entries, up to the first empty one. */
  ghost function Listed(img: seq<byte>, i: nat): seq<seq<byte>>
    requires Sized(img) && i <= NumEntries(img)
    decreases NumEntries(img) - i
  {
    if i == NumEntries(img) || EntryString(img, i) == [] then [] else [EntryString(img, i)] + Listed(img, i + 1)
  }

  ghost function Names(img: seq<byte>, i: nat): seq<seq<byte>>
    requires Sized(img) && i <= NumEntries(img)
    decreases NumEntries(img) - i
  {
    if i == NumEntries(img) then [] else [EntryName(img, i)] + Names(img, i + 1)
  }

  /** The strings one after the other, each followed by `end`. */
  function Joined(strings: seq<seq<byte>>, end: seq<byte>): seq<byte> {
    if strings == [] then [] else strings[0] + end + Joined(strings[1..], end)
  }

  /** An entry whose name is not empty and does not run into the type behind it. */
  ghost predicate PlainName(img: seq<byte>, j: nat)
    requires Sized(img) && j < NumEntries(img)
  {
    0 < |EntryName(img, j)| && (|EntryName(img, j)| < 32 || FileType(img, j) == 0)
  }

  /** What a reader of the directory sees from entry `i` on is its names. */
  ghost predicate ListsNames(img: seq<byte>, i: nat)
    requires Sized(img) && i <= NumEntries(img)
  {
    Listed(img, i) == Names(img, i)
  }

  /** A reader of the directory sees exactly its names if and only if no entry has an empty name and
      none has a name of 32 characters together with a type other than 0. */
  lemma ListingExactly(img: seq<byte>)
    requires WellFormed(img)
    ensures Listed(img, 0) == Names(img, 0) <==> forall j :: 0 <= j < NumEntries(img) ==> PlainName(img, j)
  {
    ListingFrom(img, 0, NumEntries(img));
  }

  ghost predicate AllPlain(img: seq<byte>, i: nat, n: nat)
    requires Sized(img) && n == NumEntries(img)
  {
    forall j :: i <= j < n ==> PlainName(img, j)
  }

  lemma AllPlainFrom(img: seq<byte>, i: nat, n: nat)
    requires Sized(img) && i < n == NumEntries(img)
    ensures AllPlain(img, i, n) <==> PlainName(img, i) && AllPlain(img, i + 1, n)
  {
    hide PlainName;
  }

  lemma {:induction false} ListingFrom(img: seq<byte>, i: nat, n: nat)
    requires WellFormed(img) && i <= n == NumEntries(img)
    ensures ListsNames(img, i) <==> AllPlain(img, i, n)
    decreases n - i
  {
    assert Sized(img);
    if i == n {
      NothingListed(img);
    } else {
      hide *;
      PlainListed(img, i);
      AllPlainFrom(img, i, n);
      ListingFrom(img, i + 1, n);
    }
  }

  lemma NothingListed(img: seq<byte>)
    requires Sized(img)
    ensures ListsNames(img, NumEntries(img))
  {
  }

  lemma PlainListed(img: seq<byte>, i: nat)
    requires WellFormed(img) && i < NumEntries(img)
    ensures ListsNames(img, i) <==> PlainName(img, i) && ListsNames(img, i + 1)
  {
    EntryStringIsName(img, i);
    EmptyTogether(img, i);
    ListingFirst(img, i);
    hide Listed, Names, EntryString, EntryName;
  }

  lemma ListingFirst(img: seq<byte>, i: nat)
    requires Sized(img) && i < NumEntries(img)
    ensures Listed(img, i) == Names(img, i) <==>
            EntryString(img, i) != [] && EntryString(img, i) == EntryName(img, i) && Listed(img, i + 1) == Names(img, i + 1)
  {
    assert Names(img, i)[0] == EntryName(img, i) && Names(img, i)[1..] == Names(img, i + 1);
    if EntryString(img, i) != [] {
      assert Listed(img, i)[0] == EntryString(img, i) && Listed(img, i)[1..] == Listed(img, i + 1);
    }
  }

  lemma EmptyTogether(img: seq<byte>, i: nat)
    requires EntryAddr(i) + 64 <= |img|
    ensures EntryString(img, i) == [] <==> EntryName(img, i) == []
  {
    assert img[EntryAddr(i)..EntryAddr(i) + 64][0] == img[EntryAddr(i)..EntryAddr(i) + 32][0];
  }

  /** What reading an entry to the end delivers, by its type: nothing for the RTC, whose read returns 0
      after an interrupt, the strings at the entries for the directory, the file for a regular file. */
  ghost function Contents(img: seq<byte>, e: nat): seq<byte>
    requires WellFormed(img) && e < NumEntries(img) && FileType(img, e) <= 2
  {
    if FileType(img, e) == 0 then []
    else if FileType(img, e) == 1 then Joined(Listed(img, 0), [])
    else File(img, EntryInode(img, e))
  }

  /** The slot past the end of a regular file is bad. */
  ghost predicate EndsBadly(img: seq<byte>, e: nat)
    requires WellFormed(img) && e < NumEntries(img)
  {
    FileType(img, e) == 2 && BadSlotAtEnd(img, EntryInode(img, e))
  }

  /** `out` and the strings at the entries from `pos` on make up `all`. */
  ghost predicate Continues(img: seq<byte>, pos: nat, out: seq<byte>, all: seq<byte>)
    requires Sized(img) && pos <= NumEntries(img)
  {
    out + Joined(Listed(img, pos), []) == all
  }

  /** What is still to come on an open descriptor for entry `e`, when `out` has been delivered. */
  ghost predicate Reads(img: seq<byte>, e: nat, d: Desc, out: seq<byte>)
    requires WellFormed(img) && e < NumEntries(img) && FileType(img, e) <= 2
  {
    && d.inUse
    && match FileType(img, e)
       case 0 => d.kind == Rtc && out == []
       case 1 => d.kind == Files && d.inode == DIRECTORY_INODE && d.pos <= NumEntries(img)
                 && Continues(img, d.pos, out, Contents(img, e))
       case _ => IsRegular(d) && d.inode == EntryInode(img, e) && d.pos <= |Contents(img, e)| && out == Contents(img, e)[..d.pos]
  }

  /** How many reads can still deliver something, at most. */
  ghost function Left(img: seq<byte>, e: nat, d: Desc): int
    requires WellFormed(img) && e < NumEntries(img) && FileType(img, e) <= 2
  {
    if FileType(img, e) == 1 then NumEntries(img) - d.pos else |Contents(img, e)| - d.pos
  }

  /** `main` of cat, for the name of any of the three types of file, or of none: everything there is to
      read is written, and the program fails in the end exactly when the slot past the end of a regular
      file is bad. */
  method Cat(img: seq<byte>, fname: seq<byte>, t: Table) returns (status: int, out: seq<byte>, message: string)
    requires t.Valid(img) && 0 !in fname
    requires Lookup(img, fname, 0).Some? ==> FileType(img, Lookup(img, fname, 0).value) <= 2
    modifies t.desc
    ensures match Lookup(img, fname, 0)
            case None => status == 2 && out == [] && message == "file not found\n"
            case Some(e) =>
              if old(FreeSlot(t.desc[..], 2)) == 8 then status == 2 && out == [] && message == "file not found\n"
              else && out == Contents(img, e)
                   && (status == 3 && message == "file read failed\n" <==> EndsBadly(img, e))
                   && (status == 0 && message == "" <==> !EndsBadly(img, e))
  {
    hide Perform, Lookup, FreeSlot, Contents, EndsBadly, Reads, Left, FileType;
    var buf := new byte[1024](_ => 0);
    out := [];
    OpenForReading(img, t.desc[..], fname);
    var fd := t.DoOpen(img, fname);
    if fd == -1 {
      return 2, [], "file not found\n";
    }
    ghost var e := Lookup(img, fname, 0).value;
    while true
      invariant t.Valid(img) && 2 <= fd < 8 && Reads(img, e, t.desc[fd], out)
      decreases Left(img, e, t.desc[fd])
    {
      ReadStep(img, t.desc[..], fd, 1024, e, out);
      var cnt, driver := t.DoRead(img, fd, buf, 0, 1024);
      if driver == Some(Rtc) {
        cnt := 0;  // read_rtc (student-distrib/rtc.c, lines 56-65)
      }
      if cnt == 0 {
        break;
      }
      if cnt == -1 {
        return 3, out, "file read failed\n";
      }
      assert buf[..cnt] == buf[0..cnt];
      out := out + buf[..cnt];
    }
    return 0, out, "";
  }

  lemma OpenForReading(img: seq<byte>, d: seq<Desc>, fname: seq<byte>)
    requires TableOk(img, d) && (Lookup(img, fname, 0).Some? ==> FileType(img, Lookup(img, fname, 0).value) <= 2)
    ensures var (d', reply) := Perform(img, d, Open(fname));
            var e := Lookup(img, fname, 0);
            var slot := FreeSlot(d, 2);
            if e == None || slot == 8 then d' == d && reply == Ret(-1, [])
            else |d'| == 8 && reply == Ret(slot, []) && 2 <= slot && Reads(img, e.value, d'[slot], [])
  {
    if Lookup(img, fname, 0).Some? && FileType(img, Lookup(img, fname, 0).value) == 2 {
      OpenEffect(img, d, fname);
    }
  }

  /** One read: what it delivers is the next part of the contents, and it delivers nothing exactly when
      there is nothing left. */
  ghost predicate Advances(img: seq<byte>, d: seq<Desc>, fd: nat, cnt: nat, e: nat, out: seq<byte>)
    requires TableOk(img, d) && fd < 8 && e < NumEntries(img) && FileType(img, e) <= 2
  {
    var (d', reply) := Perform(img, d, Read(fd, cnt));
    && |d'| == 8
    && match reply
       case Driver(kind) => kind == Rtc && out == Contents(img, e) && !EndsBadly(img, e)
       case Ret(n, bytes) =>
         if n <= 0 then bytes == [] && out == Contents(img, e) && (n == -1 <==> EndsBadly(img, e)) && -1 <= n
         else Reads(img, e, d'[fd], out + bytes) && Left(img, e, d'[fd]) < Left(img, e, d[fd]) && 0 <= Left(img, e, d[fd])
  }

  lemma ReadStep(img: seq<byte>, d: seq<Desc>, fd: nat, cnt: nat, e: nat, out: seq<byte>)
    requires TableOk(img, d) && 2 <= fd < 8 && cnt > 0 && e < NumEntries(img) && FileType(img, e) <= 2
    requires Reads(img, e, d[fd], out)
    ensures Advances(img, d, fd, cnt, e, out)
  {
    if FileType(img, e) == 2 {
      ReadStepFile(img, d, fd, cnt, e, out);
    } else if FileType(img, e) == 1 {
      ReadStepDirectory(img, d, fd, cnt, e, out);
    } else {
      assert d[fd].kind == Rtc;
    }
  }

  lemma ReadStepFile(img: seq<byte>, d: seq<Desc>, fd: nat, cnt: nat, e: nat, out: seq<byte>)
    requires TableOk(img, d) && 2 <= fd < 8 && cnt > 0 && e < NumEntries(img) && FileType(img, e) == 2
    requires Reads(img, e, d[fd], out)
    ensures Advances(img, d, fd, cnt, e, out)
  {
    assert GoodInode(img, d[fd].inode);
    hide Perform, File, BadSlotAtEnd;
    ReadFilePart(img, d, fd, cnt, File(img, d[fd].inode), out);
  }

  lemma ReadStepDirectory(img: seq<byte>, d: seq<Desc>, fd: nat, cnt: nat, e: nat, out: seq<byte>)
    requires TableOk(img, d) && 2 <= fd < 8 && e < NumEntries(img) && FileType(img, e) == 1
    requires Reads(img, e, d[fd], out)
    ensures Advances(img, d, fd, cnt, e, out)
  {
    hide Perform, Contents, Continues, EntryString;
    ReadDirectoryEffect(img, d, fd, cnt);
    NextName(img, d[fd].pos, out, Contents(img, e));
  }

  /** Reading the directory delivers the string at the next entry, whatever the count asked for. */
  lemma ReadDirectoryEffect(img: seq<byte>, d: seq<Desc>, fd: nat, cnt: nat)
    requires TableOk(img, d) && 2 <= fd < 8
    requires d[fd].inUse && d[fd].kind == Files && d[fd].inode == DIRECTORY_INODE
    ensures var pos := d[fd].pos;
            Perform(img, d, Read(fd, cnt)) ==
              if pos < NumEntries(img)
              then (d[fd := d[fd].(pos := pos + 1)], Ret(|EntryString(img, pos)|, EntryString(img, pos)))
              else (d[fd := d[fd].(pos := 0)], Ret(0, []))
  {
  }

  /** The string at entry `pos` comes next, unless it is empty or there is none. */
  lemma NextName(img: seq<byte>, pos: nat, out: seq<byte>, all: seq<byte>)
    requires WellFormed(img) && pos <= NumEntries(img) && Continues(img, pos, out, all)
    ensures if pos < NumEntries(img) && EntryString(img, pos) != [] then Continues(img, pos + 1, out + EntryString(img, pos), all)
            else out == all
  {
    hide EntryString;
    if pos < NumEntries(img) && EntryString(img, pos) != [] {
      JoinedMore(EntryString(img, pos), Listed(img, pos + 1), []);
      assert (out + EntryString(img, pos)) + Joined(Listed(img, pos + 1), []) ==
             out + (EntryString(img, pos) + [] + Joined(Listed(img, pos + 1), []));
    }
  }

  lemma ReadFilePart(img: seq<byte>, d: seq<Desc>, fd: nat, cnt: nat, file: seq<byte>, out: seq<byte>)
    requires TableOk(img, d) && fd < 8 && fd != 1 && IsRegular(d[fd]) && cnt > 0
    requires GoodInode(img, d[fd].inode) && file == File(img, d[fd].inode) && d[fd].pos <= |file| && out == file[..d[fd].pos]
    ensures var (d', reply) := Perform(img, d, Read(fd, cnt));
            var pos := d[fd].pos + |reply.bytes|;
            && reply.Ret? && pos <= |file| && d' == d[fd := d[fd].(pos := pos)] && out + reply.bytes == file[..pos]
            && (reply.value <= 0 ==> out == file && reply.bytes == [] && (reply.value == -1 <==> BadSlotAtEnd(img, d[fd].inode)))
            && (reply.value > 0 ==> |reply.bytes| > 0) && -1 <= reply.value
  {
    ReadEffect(img, d, fd, cnt, file);
    assert file[..|file|] == file;
  }

  lemma JoinedMore(line: seq<byte>, more: seq<seq<byte>>, end: seq<byte>)
    ensures Joined([line] + more, end) == line + end + Joined(more, end)
  {
    assert ([line] + more)[1..] == more;
  }

  /** Some string is as long as ls's whole buffer, so that the newline after it lies past its end. */
  ghost predicate Overruns(lines: seq<seq<byte>>) { exists k :: 0 <= k < |lines| && |lines[k]| == 33 }

  lemma OverrunsLast(lines: seq<seq<byte>>, line: seq<byte>)
    ensures Overruns(lines + [line]) <==> Overruns(lines) || |line| == 33
  {
    var longer := lines + [line];
    assert longer[|lines|] == line;
    assert forall k :: 0 <= k < |lines| ==> longer[k] == lines[k];
  }

  /** `main` of ls; "." is the directory. Byte 33 of `buf` is the one just past the program's buffer: it
      is written exactly when a listed string has 33 characters. */
  method Ls(img: seq<byte>, t: Table) returns (status: int, out: seq<byte>, message: string, ghost past: bool)
    requires t.Valid(img)
    requires Lookup(img, [DOT], 0).Some? ==> FileType(img, Lookup(img, [DOT], 0).value) == 1
    modifies t.desc
    ensures if Lookup(img, [DOT], 0) == None || old(FreeSlot(t.desc[..], 2)) == 8
            then status == 2 && out == [] && message == "directory open failed\n" && !past
            else status == 0 && out == Joined(Listed(img, 0), [NEWLINE]) && message == ""
                 && (past <==> Overruns(Listed(img, 0)))
  {
    hide Perform, Lookup, FreeSlot, Listed, Joined, EntryString, Overruns;
    var buf := new byte[34](_ => 0);
    out, past := [], false;
    OpenDirectory(img, t.desc[..]);
    var fd := t.DoOpen(img, [DOT]);
    if fd == -1 {
      return 2, [], "directory open failed\n", false;
    }
    ghost var pos: nat, lines: seq<seq<byte>> := 0, [];
    assert lines + Listed(img, 0) == Listed(img, 0);
    NothingJoined();
    NothingOverruns();
    while true
      invariant t.Valid(img) && 2 <= fd < 8 && t.desc[fd] == Desc(Files, DIRECTORY_INODE, pos, true)
      invariant pos <= NumEntries(img) && lines + Listed(img, pos) == Listed(img, 0)
      invariant out == Joined(lines, [NEWLINE]) && (past <==> Overruns(lines))
      decreases NumEntries(img) - pos
    {
      ReadDirectoryEffect(img, t.desc[..], fd, 32);
      NextListed(img, pos);
      ghost var before := lines;
      var cnt, _ := t.DoRead(img, fd, buf, 0, 32);
      if cnt == 0 {
        assert lines + [] == lines;
        break;
      }
      assert buf[..cnt] == buf[0..cnt];
      buf[cnt] := NEWLINE;
      ghost var line := EntryString(img, pos);
      assert buf[..cnt + 1] == line + [NEWLINE];
      JoinedLast(lines, line);
      OverrunsLast(lines, line);
      out := out + buf[..cnt + 1];
      lines := lines + [line];
      past := past || cnt == 33;
      assert before + ([line] + Listed(img, pos + 1)) == lines + Listed(img, pos + 1);
      pos := pos + 1;
    }
    return 0, out, "", past;
  }

  lemma NothingOverruns()
    ensures !Overruns([])
  {
  }

  lemma NextListed(img: seq<byte>, pos: nat)
    requires WellFormed(img) && pos <= NumEntries(img)
    ensures if pos == NumEntries(img) || EntryString(img, pos) == [] then Listed(img, pos) == []
            else |EntryString(img, pos)| <= 33 && Listed(img, pos) == [EntryString(img, pos)] + Listed(img, pos + 1)
  {
    if pos < NumEntries(img) {
      EntryStringIsName(img, pos);
    }
  }

  lemma NothingJoined()
    ensures Joined([], [NEWLINE]) == []
  {
  }

  lemma {:induction false} JoinedLast(lines: seq<seq<byte>>, line: seq<byte>)
    ensures Joined(lines + [line], [NEWLINE]) == Joined(lines, [NEWLINE]) + (line + [NEWLINE])
  {
    if lines == [] {
      assert [] + [line] == [line] && Joined([line], [NEWLINE]) == line + [NEWLINE] + Joined([], [NEWLINE]);
    } else {
      assert (lines + [line])[1..] == lines[1..] + [line];
      JoinedLast(lines[1..], line);
    }
  }

  lemma OpenDirectory(img: seq<byte>, d: seq<Desc>)
    requires TableOk(img, d)
    requires Lookup(img, [DOT], 0).Some? ==> FileType(img, Lookup(img, [DOT], 0).value) == 1
    ensures var slot := FreeSlot(d, 2);
            Perform(img, d, Open([DOT])) ==
              if Lookup(img, [DOT], 0) == None || slot == 8 then (d, Ret(-1, []))
              else (d[slot := Desc(Files, DIRECTORY_INODE, 0, true)], Ret(slot, []))
  {
  }

  /** Opening a regular file takes the lowest free slot, at position 0. */
  lemma OpenEffect(img: seq<byte>, d: seq<Desc>, fname: seq<byte>)
    requires TableOk(img, d) && (Lookup(img, fname, 0).Some? ==> FileType(img, Lookup(img, fname, 0).value) == 2)
    ensures var e := Lookup(img, fname, 0);
            var slot := FreeSlot(d, 2);
            Perform(img, d, Open(fname)) ==
              if e == None || slot == 8 then (d, Ret(-1, []))
              else (d[slot := Desc(Files, EntryInode(img, e.value), 0, true)], Ret(slot, []))
    ensures Lookup(img, fname, 0).Some? ==> GoodInode(img, EntryInode(img, Lookup(img, fname, 0).value))
                                            && EntryInode(img, Lookup(img, fname, 0).value) != DIRECTORY_INODE
  {
    if Lookup(img, fname, 0).Some? {
      assert NumInodes(img) <= |img| / BLOCK;
      assert GoodInode(img, EntryInode(img, Lookup(img, fname, 0).value));
    }
  }

  /** Reading a regular file at `pos` delivers as much as fits or is left. */
  lemma ReadEffect(img: seq<byte>, d: seq<Desc>, fd: nat, cnt: nat, file: seq<byte>)
    requires TableOk(img, d) && fd < 8 && fd != 1 && IsRegular(d[fd])
    requires GoodInode(img, d[fd].inode) && file == File(img, d[fd].inode) && d[fd].pos <= |file|
    ensures var (d', reply) := Perform(img, d, Read(fd, cnt));
            var pos := d[fd].pos;
            var n := |reply.bytes|;
            && reply.Ret? && pos + n <= |file| && reply.bytes == file[pos..pos + n]
            && d' == d[fd := d[fd].(pos := pos + n)]
            && if pos == |file| && BadSlotAtEnd(img, d[fd].inode) then reply.value == -1 && n == 0
               else reply.value == n == Min(cnt, |file| - pos)
  {
  }

  lemma CloseEffect(img: seq<byte>, d: seq<Desc>, fd: nat)
    requires TableOk(img, d) && 2 <= fd < 8 && d[fd].inUse
    ensures Perform(img, d, Close(fd)) == (d[fd := d[fd].(inUse := false)], Ret(0, []))
  {
  }

  /** `close` undoes `open`: afterwards every descriptor is used or free as before, and the next `open`
      of any file gets the same one again. */
  lemma OpenCloseOpen(img: seq<byte>, d: seq<Desc>, fname: seq<byte>, next: seq<byte>)
    requires TableOk(img, d) && Lookup(img, fname, 0).Some? && FileType(img, Lookup(img, fname, 0).value) <= 2
    requires FreeSlot(d, 2) < 8 && Lookup(img, next, 0).Some?
    ensures var slot := FreeSlot(d, 2);
            var d1 := Perform(img, d, Open(fname)).0;
            && TableOk(img, d1)
            && var (d2, closed) := Perform(img, d1, Close(slot));
               && closed == Ret(0, []) && TableOk(img, d2)
               && (forall fd :: 0 <= fd < 8 ==> d2[fd].inUse == d[fd].inUse)
               && Perform(img, d2, Open(next)).1 == Ret(slot, [])
  {
    var slot := FreeSlot(d, 2);
    PerformKeepsTable(img, d, Open(fname));
    var d1 := Perform(img, d, Open(fname)).0;
    PerformKeepsTable(img, d1, Close(slot));
    var d2 := Perform(img, d1, Close(slot)).0;
    assert forall fd :: 0 <= fd < 8 ==> d2[fd].inUse == d[fd].inUse;
    assert FreeSlot(d2, 2) == slot;
  }
}
