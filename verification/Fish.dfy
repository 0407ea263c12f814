/**
 `add_frames` of fish/fish.c: two text files are read in step, one character each per column, and one
 blinking character is added for every position at which they are not both blank.
 */
module Fish {
  import opened FileSystem
  import Grep
  import Streams

  const OFFSET := 40

  /** An `RTC_ADD` request, with the row and column it was made for. */
  datatype Add = Add(row: nat, col: nat, on: byte, off: byte)

  /** The `unsigned short` location of a request. */
  function Location(a: Add): nat { (a.row * 80 + a.col + OFFSET) % 0x1_0000 }

  // ---- the frames as rows ----

  /** The rows of a file from `start` on; the text after the last newline, even if empty, is a row. */
  function Rows(f: seq<byte>, start: nat): (rows: seq<seq<byte>>)
    requires start <= |f|
    ensures rows != []
    decreases |f| - start
  {
    var n := Grep.LineEnd(f, start);
    [f[start..n]] + if n < |f| then Rows(f, n + 1) else []
  }

  /** The rows are those of the file: none holds a newline, and they are separated by newlines. */
  lemma RowsJoin(f: seq<byte>)
    ensures forall r :: 0 <= r < |Rows(f, 0)| ==> 10 !in Rows(f, 0)[r]
    ensures Streams.Joined(Rows(f, 0), [10]) == f + [10]
  {
    forall r: nat | r < |Rows(f, 0)| ensures 10 !in Rows(f, 0)[r] {
      RowIsPlain(f, 0, r);
    }
    RowsJoined(f, 0);
    assert f[0..] == f;
  }

  lemma {:induction false} RowIsPlain(f: seq<byte>, start: nat, r: nat)
    requires start <= |f| && r < |Rows(f, start)|
    ensures 10 !in Rows(f, start)[r]
    decreases |f| - start
  {
    if r > 0 { RowIsPlain(f, Grep.LineEnd(f, start) + 1, r - 1); }
  }

  lemma {:induction false} RowsJoined(f: seq<byte>, start: nat)
    requires start <= |f|
    ensures Streams.Joined(Rows(f, start), [10]) == f[start..] + [10]
    decreases |f| - start
  {
    var n := Grep.LineEnd(f, start);
    hide *;
    if n < |f| {
      RowsJoined(f, n + 1);
      JoinedWithMore(f, start, n);
    } else {
      JoinedLast(f, start);
    }
  }

  lemma JoinedWithMore(f: seq<byte>, start: nat, n: nat)
    requires start <= |f| && n == Grep.LineEnd(f, start) < |f| && Streams.Joined(Rows(f, n + 1), [10]) == f[n + 1..] + [10]
    ensures Streams.Joined(Rows(f, start), [10]) == f[start..] + [10]
  {
    var more := Rows(f, n + 1);
    RowsFirst(f, start, n, more);
    assert f[n] == 10;
    hide *;
    RowJoined(f, start, n, f[start..n], more);
  }

  lemma JoinedLast(f: seq<byte>, start: nat)
    requires start <= |f| && Grep.LineEnd(f, start) == |f|
    ensures Streams.Joined(Rows(f, start), [10]) == f[start..] + [10]
  {
    Streams.NothingJoined();
    RowsFirst(f, start, |f|, []);
    assert Streams.Joined([], [10]) == [];
    hide *;
    RowJoined(f, start, |f|, f[start..|f|], []);
  }

  lemma RowJoined(f: seq<byte>, start: nat, n: nat, row: seq<byte>, more: seq<seq<byte>>)
    requires start <= n <= |f| && (n < |f| ==> f[n] == 10) && row == f[start..n]
    requires Streams.Joined(more, [10]) == if n < |f| then f[n + 1..] + [10] else []
    ensures Streams.Joined([row] + more, [10]) == f[start..] + [10]
  {
    hide Streams.Joined;
    Streams.JoinedMore(row, more, [10]);
    RestOf(f, start, n);
  }

  lemma RowsFirst(f: seq<byte>, start: nat, n: nat, more: seq<seq<byte>>)
    requires start <= |f| && n == Grep.LineEnd(f, start) && more == if n < |f| then Rows(f, n + 1) else []
    ensures Rows(f, start) == [f[start..n]] + more
  {
  }

  lemma RestOf(f: seq<byte>, start: nat, n: nat)
    requires start <= n <= |f| && (n < |f| ==> f[n] == 10)
    ensures f[start..] == if n < |f| then f[start..n] + [10] + f[n + 1..] else f[start..n]
    ensures n < |f| ==> f[start..n] + [10] + (f[n + 1..] + [10]) == f[start..] + [10]
    ensures n == |f| ==> f[start..n] + [10] + [] == f[start..] + [10]
  {
  }

  function Row(rows: seq<seq<byte>>, r: nat): seq<byte> { if r < |rows| then rows[r] else [] }

  function Cell(row: seq<byte>, c: nat): byte { if c < |row| then row[c] else SPACE }

  function Max(a: nat, b: nat): nat { if a < b then b else a }

  /** The request for one position, if the frames are not both blank there. */
  function AddAt(r: nat, row0: seq<byte>, row1: seq<byte>, c: nat): seq<Add> {
    if Cell(row0, c) == SPACE == Cell(row1, c) then [] else [Add(r, c, Cell(row0, c), Cell(row1, c))]
  }

  function RowAdds(r: nat, row0: seq<byte>, row1: seq<byte>, width: nat): seq<Add> {
    if width == 0 then [] else RowAdds(r, row0, row1, width - 1) + AddAt(r, row0, row1, width - 1)
  }

  function Width(row0: seq<byte>, row1: seq<byte>): nat { Max(|row0|, |row1|) }

  /** The requests for the first `n` rows, row by row. */
  function FrameAdds(a: seq<seq<byte>>, b: seq<seq<byte>>, n: nat): seq<Add> {
    if n == 0 then []
    else FrameAdds(a, b, n - 1) + RowAdds(n - 1, Row(a, n - 1), Row(b, n - 1), Width(Row(a, n - 1), Row(b, n - 1)))
  }

  // ---- what the requests are, without the recursion ----

  predicate Before(x: Add, y: Add) { x.row < y.row || (x.row == y.row && x.col < y.col) }

  ghost predicate RowMajor(s: seq<Add>) { forall i, j :: 0 <= i < j < |s| ==> Before(s[i], s[j]) }

  /** `x` is the right request for its position. */
  predicate Wanted(a: seq<seq<byte>>, b: seq<seq<byte>>, x: Add) {
    && x.on == Cell(Row(a, x.row), x.col) && x.off == Cell(Row(b, x.row), x.col)
    && !(x.on == SPACE && x.off == SPACE)
  }

  lemma {:induction false} RowAddsExact(r: nat, row0: seq<byte>, row1: seq<byte>, width: nat)
    ensures RowMajor(RowAdds(r, row0, row1, width))
    ensures forall x :: x in RowAdds(r, row0, row1, width) <==>
              x.row == r && x.col < width && x.on == Cell(row0, x.col) && x.off == Cell(row1, x.col)
              && !(x.on == SPACE && x.off == SPACE)
    decreases width
  {
    if width > 0 {
      RowAddsExact(r, row0, row1, width - 1);
      var shorter, last := RowAdds(r, row0, row1, width - 1), AddAt(r, row0, row1, width - 1);
      assert RowAdds(r, row0, row1, width) == shorter + last;
      LastRowMajor(shorter, last);
      hide RowAdds, RowMajor, Cell;
    }
  }

  lemma LastRowMajor(s: seq<Add>, t: seq<Add>)
    requires RowMajor(s) && |t| <= 1 && forall x, y :: x in s && y in t ==> Before(x, y)
    ensures RowMajor(s + t)
  {
    var u := s + t;
    forall i: nat, j: nat | i < j < |u| ensures Before(u[i], u[j]) {
      assert s[i] in s;
      if j == |s| { assert t[0] in t; }
    }
  }

  lemma JoinRowMajor(s: seq<Add>, t: seq<Add>, r: nat)
    requires RowMajor(s) && RowMajor(t)
    requires forall x :: x in s ==> x.row < r
    requires forall x :: x in t ==> x.row >= r
    ensures RowMajor(s + t)
  {
    assert forall i :: 0 <= i < |s| ==> s[i] in s;
    assert forall i :: 0 <= i < |t| ==> t[i] in t;
  }

  lemma RowOfFrame(a: seq<seq<byte>>, b: seq<seq<byte>>, r: nat, x: Add)
    ensures x in RowAdds(r, Row(a, r), Row(b, r), Width(Row(a, r), Row(b, r))) <==> x.row == r && Wanted(a, b, x)
  {
    RowAddsExact(r, Row(a, r), Row(b, r), Width(Row(a, r), Row(b, r)));
  }

  /** The requests come in row-major order, hence once each, and they are exactly the wanted ones. */
  lemma {:induction false} FrameAddsExact(a: seq<seq<byte>>, b: seq<seq<byte>>, n: nat)
    ensures RowMajor(FrameAdds(a, b, n))
    ensures forall x :: x in FrameAdds(a, b, n) <==> x.row < n && Wanted(a, b, x)
    decreases n
  {
    if n > 0 {
      var r := n - 1;
      var earlier, last := FrameAdds(a, b, r), RowAdds(r, Row(a, r), Row(b, r), Width(Row(a, r), Row(b, r)));
      assert FrameAdds(a, b, n) == earlier + last;
      RowAddsExact(r, Row(a, r), Row(b, r), Width(Row(a, r), Row(b, r)));
      hide FrameAdds, RowAdds, Wanted, RowMajor, Row, Cell, Width;
      FrameAddsExact(a, b, r);
      forall x: Add ensures x in last <==> x.row == r && Wanted(a, b, x) {
        RowOfFrame(a, b, r, x);
      }
      JoinRowMajor(earlier, last, r);
    }
  }

  /** The same, with the cell contents spelled out: what the files hold at the position, or a space. */
  lemma FrameAddsRead(a: seq<seq<byte>>, b: seq<seq<byte>>, n: nat, x: Add)
    ensures x in FrameAdds(a, b, n) <==>
            && x.row < n && !(x.on == 32 && x.off == 32)
            && x.on == (if x.row < |a| && x.col < |a[x.row]| then a[x.row][x.col] else 32)
            && x.off == (if x.row < |b| && x.col < |b[x.row]| then b[x.row][x.col] else 32)
  {
    hide FrameAdds;
    FrameAddsExact(a, b, n);
  }

  /** A request's location is 0, which the pool takes for a free node, only where the 16-bit location
      wraps around; and locations differ as long as rows fit the 40 columns to the right of the offset. */
  lemma LocationsProper(x: Add, y: Add)
    ensures x.row * 80 + x.col + OFFSET < 0x1_0000 ==> Location(x) != 0
    ensures x.col < 40 && y.col < 40 && x.row < 25 && y.row < 25 && Location(x) == Location(y) ==> x.row == y.row && x.col == y.col
    ensures x.col < 40 && x.row < 25 ==> 0 < Location(x) < 80 * 25
  {
    SmallLocation(x);
    SmallLocation(y);
    hide Location;
  }

  /** Columns 0 to 39 of a row go to the right half of the screen's row, cells 40 to 79. */
  lemma RightHalf(x: Add)
    requires x.row < 25 && x.col < 40
    ensures Location(x) == x.row * 80 + 40 + x.col && x.row * 80 + 40 <= Location(x) <= x.row * 80 + 79
    ensures x.col == 0 ==> Location(x) == x.row * 80 + 40
    ensures x.col == 39 ==> Location(x) == x.row * 80 + 79
  {
    SmallLocation(x);
    hide Location;
  }

  lemma SmallLocation(x: Add)
    ensures x.row * 80 + x.col + OFFSET < 0x1_0000 ==> Location(x) == x.row * 80 + x.col + OFFSET
  {
  }

  // ---- the program ----

  /** One of the two input streams: position, last character, end-of-file flag. */
  datatype Side = Side(p: nat, c: byte, eof: bool)

  /** The read of one character, which a stream whose row has ended does not make. At the end of the file
      the character becomes a newline; an error leaves it as it was. */
  ghost function Fetch(img: seq<byte>, inode: nat, s: Side): (t: Side)
    requires Sized(img) && GoodInode(img, inode) && s.p <= Length(img, inode)
    ensures t.p <= Length(img, inode)
  {
    if s.c == NEWLINE then s
    else
      var n := ReadCount(img, inode, s.p, 1);
      if n == 0 then Side(s.p, NEWLINE, true)
      else if n == 1 then Side(s.p + 1, File(img, inode)[s.p], s.eof)
      else s
  }

  /** The beginning of a row. */
  function Restart(s: Side): Side { s.(c := if s.eof then NEWLINE else 48) }

  function Request(row: nat, col: nat, c0: byte, c1: byte): seq<Add> {
    if (c0 != SPACE && c0 != NEWLINE) || (c1 != SPACE && c1 != NEWLINE)
    then [Add(row, col, if c0 == NEWLINE then SPACE else c0, if c1 == NEWLINE then SPACE else c1)]
    else []
  }

  datatype Merge = Merge(row: nat, col: nat, left: Side, right: Side, adds: seq<Add>)

  const MergeStart := Merge(0, 0, Side(0, 48, false), Side(0, 48, false), [])

  ghost predicate InFiles(img: seq<byte>, i0: nat, i1: nat, m: Merge) {
    && Sized(img) && GoodInode(img, i0) && GoodInode(img, i1)
    && m.left.p <= Length(img, i0) && m.right.p <= Length(img, i1)
  }

  /** One pass of the inner loop, with the end of the row if it is reached. */
  ghost function Column(img: seq<byte>, i0: nat, i1: nat, m: Merge): (m': Merge)
    requires InFiles(img, i0, i1, m)
    ensures InFiles(img, i0, i1, m')
  {
    var l, r := Fetch(img, i0, m.left), Fetch(img, i1, m.right);
    if l.c == NEWLINE == r.c then Merge(m.row + 1, 0, Restart(l), Restart(r), m.adds)
    else Merge(m.row, m.col + 1, l, r, m.adds + Request(m.row, m.col, l.c, r.c))
  }

  /** The state after `n` passes. */
  ghost function Passes(img: seq<byte>, i0: nat, i1: nat, n: nat): (m: Merge)
    requires Sized(img) && GoodInode(img, i0) && GoodInode(img, i1)
    ensures InFiles(img, i0, i1, m)
    decreases n
  {
    if n == 0 then MergeStart else Column(img, i0, i1, Passes(img, i0, i1, n - 1))
  }

  /** The condition on which the outer loop stops. */
  predicate Ended(m: Merge) { m.left.eof && m.right.eof }

  /** End of file has been seen on a stream only if its reads can report it; and a stream whose row has
      ended waits for the other one, unless both are at their ends. */
  ghost predicate Sensible(img: seq<byte>, i0: nat, i1: nat, m: Merge)
    requires InFiles(img, i0, i1, m)
  {
    && (m.left.eof ==> m.left.c == NEWLINE && !BadSlotAtEnd(img, i0))
    && (m.right.eof ==> m.right.c == NEWLINE && !BadSlotAtEnd(img, i1))
    && (m.left.c == NEWLINE == m.right.c ==> Ended(m))
  }

  lemma {:induction false} PassesSensible(img: seq<byte>, i0: nat, i1: nat, n: nat)
    requires Sized(img) && GoodInode(img, i0) && GoodInode(img, i1)
    ensures Sensible(img, i0, i1, Passes(img, i0, i1, n))
    decreases n
  {
    if n > 0 {
      PassesSensible(img, i0, i1, n - 1);
      ColumnSensible(img, i0, i1, Passes(img, i0, i1, n - 1));
    }
  }

  lemma ColumnSensible(img: seq<byte>, i0: nat, i1: nat, m: Merge)
    requires InFiles(img, i0, i1, m) && Sensible(img, i0, i1, m)
    ensures Sensible(img, i0, i1, Column(img, i0, i1, m))
  {
    hide BadSlotAtEnd, File, GoodInode, Sized;
    FetchSensible(img, i0, m.left);
    FetchSensible(img, i1, m.right);
  }

  /** A read either makes progress, or finds the bad slot at the end. */
  lemma FetchSensible(img: seq<byte>, inode: nat, s: Side)
    requires Sized(img) && GoodInode(img, inode) && s.p <= Length(img, inode)
    requires s.eof ==> s.c == NEWLINE && !BadSlotAtEnd(img, inode)
    ensures var t := Fetch(img, inode, s);
            && (t.eof ==> t.c == NEWLINE && !BadSlotAtEnd(img, inode))
            && ToRead(img, inode, t) <= ToRead(img, inode, s)
            && (s.c != NEWLINE && !BadSlotAtEnd(img, inode) ==> ToRead(img, inode, t) < ToRead(img, inode, s))
  {
  }

  /** What a stream can still deliver: characters, and the end of the file. */
  ghost function ToRead(img: seq<byte>, inode: nat, s: Side): nat
    requires Sized(img) && GoodInode(img, inode) && s.p <= Length(img, inode)
  {
    Length(img, inode) - s.p + if s.eof then 0 else 1
  }

  /** The merge ends exactly when neither file has a bad slot past its end: on such a file the read at the
      end fails for ever, the end-of-file flag is never set, and the loops go on. */
  lemma MergeEnds(img: seq<byte>, i0: nat, i1: nat)
    requires Sized(img) && GoodInode(img, i0) && GoodInode(img, i1)
    ensures (exists n: nat :: EndedBy(img, i0, i1, n)) <==> !BadSlotAtEnd(img, i0) && !BadSlotAtEnd(img, i1)
  {
    hide EndedBy, BadSlotAtEnd;
    forall n: nat | EndedBy(img, i0, i1, n) ensures !BadSlotAtEnd(img, i0) && !BadSlotAtEnd(img, i1) {
      EndIsSeen(img, i0, i1, n);
    }
    if !BadSlotAtEnd(img, i0) && !BadSlotAtEnd(img, i1) {
      var n := EndsAfter(img, i0, i1, 0);
      assert EndedBy(img, i0, i1, n);
    }
  }

  /** The merge has ended after `n` passes. */
  ghost predicate EndedBy(img: seq<byte>, i0: nat, i1: nat, n: nat)
    requires Sized(img) && GoodInode(img, i0) && GoodInode(img, i1)
  {
    Ended(Passes(img, i0, i1, n))
  }

  lemma EndIsSeen(img: seq<byte>, i0: nat, i1: nat, n: nat)
    requires Sized(img) && GoodInode(img, i0) && GoodInode(img, i1) && EndedBy(img, i0, i1, n)
    ensures !BadSlotAtEnd(img, i0) && !BadSlotAtEnd(img, i1)
  {
    hide BadSlotAtEnd;
    PassesSensible(img, i0, i1, n);
  }

  lemma {:induction false} EndsAfter(img: seq<byte>, i0: nat, i1: nat, n: nat) returns (k: nat)
    requires Sized(img) && GoodInode(img, i0) && GoodInode(img, i1)
    requires !BadSlotAtEnd(img, i0) && !BadSlotAtEnd(img, i1)
    ensures EndedBy(img, i0, i1, k)
    decreases ToRead(img, i0, Passes(img, i0, i1, n).left) + ToRead(img, i1, Passes(img, i0, i1, n).right)
  {
    k := n;
    var m := Passes(img, i0, i1, n);
    if !Ended(m) {
      PassesSensible(img, i0, i1, n);
      PassProgress(img, i0, i1, m);
      assert Passes(img, i0, i1, n + 1) == Column(img, i0, i1, m);
      k := EndsAfter(img, i0, i1, n + 1);
    }
  }

  lemma PassProgress(img: seq<byte>, i0: nat, i1: nat, m: Merge)
    requires InFiles(img, i0, i1, m) && Sensible(img, i0, i1, m) && !Ended(m)
    requires !BadSlotAtEnd(img, i0) && !BadSlotAtEnd(img, i1)
    ensures var m' := Column(img, i0, i1, m);
            ToRead(img, i0, m'.left) + ToRead(img, i1, m'.right) < ToRead(img, i0, m.left) + ToRead(img, i1, m.right)
  {
    hide BadSlotAtEnd, File, GoodInode, Sized, Fetch;
    FetchSensible(img, i0, m.left);
    FetchSensible(img, i1, m.right);
  }

  // ---- the loops ----

  /** A stream inside a row that starts at `start`: its state when `col` columns are done. `done` says
      that the file had ended before this row. */
  ghost predicate Stream(f: seq<byte>, start: nat, done: bool, row: seq<byte>, col: nat, s: Side) {
    && start <= |f|
    && if done then row == [] && s == Side(start, NEWLINE, true)
       else
         var n := Grep.LineEnd(f, start);
         && row == f[start..n]
         && if s.c != NEWLINE then !s.eof && col <= |row| && s.p == start + col
            else |row| <= col && (if n < |f| then !s.eof && s.p == n + 1 else s.eof && s.p == |f|)
  }

  /** `ece391_read` of one character from one of the files. */
  method ReadChar(img: seq<byte>, inode: nat, s: Side) returns (t: Side)
    requires Sized(img) && GoodInode(img, inode) && s.p <= Length(img, inode)
    ensures t == Fetch(img, inode, s)
  {
    t := s;
    if s.c != NEWLINE {
      var buf := new byte[1](_ => s.c);
      var n := ReadData(img, inode, s.p, buf, 0, 1);
      if n == 0 {
        t := s.(c := NEWLINE, eof := true);
      } else {
        assert n == 1 ==> buf[0..1][0] == File(img, inode)[s.p..s.p + 1][0];
        t := Side(if n == 1 then s.p + 1 else s.p, buf[0], s.eof);
      }
    }
  }

  /** One column further, a stream that can report its end delivers the next character of the row. */
  lemma FetchFollows(img: seq<byte>, inode: nat, start: nat, done: bool, row: seq<byte>, col: nat, s: Side)
    requires Sized(img) && GoodInode(img, inode) && !BadSlotAtEnd(img, inode) && s.p <= Length(img, inode)
    requires Stream(File(img, inode), start, done, row, col, s)
    ensures var t := Fetch(img, inode, s);
            && Stream(File(img, inode), start, done, row, col + 1, t)
            && t.c == (if col < |row| then row[col] else NEWLINE)
            && (s.c == NEWLINE ==> t.c == NEWLINE)
  {
    hide BadSlotAtEnd, File, GoodInode, Sized;
  }

  /** The rows still to come, beginning with row `r`, are those of the file from `p` on. */
  ghost predicate Remaining(f: seq<byte>, r: nat, s: Side)
  {
    && s.p <= |f|
    && s.c == (if s.eof then NEWLINE else 48)
    && if s.eof then |Rows(f, 0)| <= r else r < |Rows(f, 0)| && Rows(f, 0)[r..] == Rows(f, s.p)
  }

  /** The row a stream is about to deliver. */
  ghost function RowAt(f: seq<byte>, s: Side): seq<byte>
    requires s.p <= |f|
  {
    if s.eof then [] else f[s.p..Grep.LineEnd(f, s.p)]
  }

  lemma StartRow(f: seq<byte>, r: nat, s: Side)
    requires Remaining(f, r, s)
    ensures s.p <= |f| && Stream(f, s.p, s.eof, RowAt(f, s), 0, s)
  {
  }

  lemma NextRow(f: seq<byte>, r: nat, s: Side, row: seq<byte>, col: nat, t: Side)
    requires Remaining(f, r, s) && Stream(f, s.p, s.eof, row, col, t) && t.c == NEWLINE
    ensures row == Row(Rows(f, 0), r) && (!s.eof ==> r < |Rows(f, 0)|)
    ensures Remaining(f, r + 1, Restart(t))
  {
    if !s.eof {
      var rows := Rows(f, 0);
      assert rows[r] == rows[r..][0];
      assert rows[r + 1..] == rows[r..][1..];
    }
  }

  lemma RowAddsMore(r: nat, row0: seq<byte>, row1: seq<byte>, col: nat, adds: seq<Add>, c0: byte, c1: byte)
    requires adds == RowAdds(r, row0, row1, col)
    requires c0 == (if col < |row0| then row0[col] else NEWLINE) && c1 == (if col < |row1| then row1[col] else NEWLINE)
    requires NEWLINE !in row0 && NEWLINE !in row1
    ensures RowAdds(r, row0, row1, col + 1) == adds + Request(r, col, c0, c1)
  {
  }

  lemma RowHasNoNewline(f: seq<byte>, start: nat)
    requires start <= |f|
    ensures NEWLINE !in f[start..Grep.LineEnd(f, start)]
  {
  }

  /** The state of the whole merge inside a row, `earlier` being the requests of the rows before. */
  ghost predicate Within(img: seq<byte>, i0: nat, i1: nat, n: nat, row: nat, col: nat, left: Side, right: Side, adds: seq<Add>)
    requires Sized(img) && GoodInode(img, i0) && GoodInode(img, i1)
  {
    Passes(img, i0, i1, n) == Merge(row, col, left, right, adds)
  }

  /** The inner loop after `col` columns of a row that begins in `left` and `right`. */
  ghost predicate InRow(img: seq<byte>, i0: nat, i1: nat, row: nat, left: Side, right: Side, before: seq<Add>,
                        col: nat, l: Side, r: Side, adds: seq<Add>, n: nat)
  {
    && Sized(img) && GoodInode(img, i0) && GoodInode(img, i1) && left.p <= Length(img, i0) && right.p <= Length(img, i1)
    && var row0, row1 := RowAt(File(img, i0), left), RowAt(File(img, i1), right);
       && col <= Width(row0, row1) && l.p <= Length(img, i0) && r.p <= Length(img, i1)
       && Stream(File(img, i0), left.p, left.eof, row0, col, l) && Stream(File(img, i1), right.p, right.eof, row1, col, r)
       && adds == before + RowAdds(row, row0, row1, col)
       && Within(img, i0, i1, n, row, col, l, r, adds)
  }

  /** And when both streams have come to the end of the row. */
  ghost predicate RowDone(img: seq<byte>, i0: nat, i1: nat, row: nat, left: Side, right: Side, before: seq<Add>,
                          cols: nat, l: Side, r: Side, adds: seq<Add>, n: nat)
  {
    && Sized(img) && GoodInode(img, i0) && GoodInode(img, i1) && left.p <= Length(img, i0) && right.p <= Length(img, i1)
    && var row0, row1 := RowAt(File(img, i0), left), RowAt(File(img, i1), right);
       && l.c == NEWLINE == r.c && l.p <= Length(img, i0) && r.p <= Length(img, i1)
       && Stream(File(img, i0), left.p, left.eof, row0, cols, l) && Stream(File(img, i1), right.p, right.eof, row1, cols, r)
       && adds == before + RowAdds(row, row0, row1, Width(row0, row1))
       && Within(img, i0, i1, n, row + 1, 0, Restart(l), Restart(r), adds)
  }

  lemma RowStarts(img: seq<byte>, i0: nat, i1: nat, row: nat, left: Side, right: Side, before: seq<Add>, n: nat)
    requires Sized(img) && GoodInode(img, i0) && GoodInode(img, i1)
    requires Remaining(File(img, i0), row, left) && Remaining(File(img, i1), row, right)
    requires Within(img, i0, i1, n, row, 0, left, right, before)
    ensures InRow(img, i0, i1, row, left, right, before, 0, left, right, before, n)
  {
    hide Within, File, GoodInode, Sized, Stream, Remaining;
    StartRow(File(img, i0), row, left);
    StartRow(File(img, i1), row, right);
  }

  lemma RowPass(img: seq<byte>, i0: nat, i1: nat, row: nat, left: Side, right: Side, before: seq<Add>,
                col: nat, l: Side, r: Side, adds: seq<Add>, n: nat)
    requires InRow(img, i0, i1, row, left, right, before, col, l, r, adds, n)
    requires !BadSlotAtEnd(img, i0) && !BadSlotAtEnd(img, i1)
    ensures var l', r' := Fetch(img, i0, l), Fetch(img, i1, r);
            if l'.c == NEWLINE == r'.c then RowDone(img, i0, i1, row, left, right, before, col + 1, l', r', adds, n + 1)
            else && InRow(img, i0, i1, row, left, right, before, col + 1, l', r', adds + Request(row, col, l'.c, r'.c), n + 1)
                 && col < RowWidth(img, i0, i1, left, right)
  {
    hide File, BadSlotAtEnd, GoodInode, Sized, Within, Stream, RowAdds, Fetch, RowAt, Request;
    var f0, f1 := File(img, i0), File(img, i1);
    var row0, row1 := RowAt(f0, left), RowAt(f1, right);
    RowsClean(f0, left);
    RowsClean(f1, right);
    FetchFollows(img, i0, left.p, left.eof, row0, col, l);
    FetchFollows(img, i1, right.p, right.eof, row1, col, r);
    OnePass(img, i0, i1, n, row, col, l, r, adds);
    var l', r' := Fetch(img, i0, l), Fetch(img, i1, r);
    if l'.c == NEWLINE == r'.c {
      BothEnded(row0, row1, col);
    } else {
      var mine := RowAdds(row, row0, row1, col);
      RowAddsMore(row, row0, row1, col, mine, l'.c, r'.c);
      Joined3(before, mine, Request(row, col, l'.c, r'.c));
    }
  }

  ghost function RowWidth(img: seq<byte>, i0: nat, i1: nat, left: Side, right: Side): nat
    requires Sized(img) && GoodInode(img, i0) && GoodInode(img, i1) && left.p <= Length(img, i0) && right.p <= Length(img, i1)
  {
    Width(RowAt(File(img, i0), left), RowAt(File(img, i1), right))
  }

  /** The inner loop: one row of both files, to the end of the longer one. */
  method MergeRow(img: seq<byte>, i0: nat, i1: nat, row: nat, left: Side, right: Side, before: seq<Add>, ghost n: nat)
    returns (adds: seq<Add>, l: Side, r: Side, ghost n': nat, ghost cols: nat)
    requires InRow(img, i0, i1, row, left, right, before, 0, left, right, before, n)
    requires !BadSlotAtEnd(img, i0) && !BadSlotAtEnd(img, i1)
    ensures RowDone(img, i0, i1, row, left, right, before, cols, l, r, adds, n')
    ensures l.c == NEWLINE == r.c
    ensures var row0, row1 := RowAt(File(img, i0), left), RowAt(File(img, i1), right);
            adds == before + RowAdds(row, row0, row1, Width(row0, row1))
  {
    assert Sized(img) && GoodInode(img, i0) && GoodInode(img, i1) && left.p <= Length(img, i0) && right.p <= Length(img, i1);
    ghost var width := RowWidth(img, i0, i1, left, right);
    hide BadSlotAtEnd, GoodInode, Sized, InRow, RowDone, RowWidth, Fetch, Request;
    var col: nat := 0;
    l, r, adds, n' := left, right, before, n;
    while true
      invariant col <= width && InRow(img, i0, i1, row, left, right, before, col, l, r, adds, n')
      decreases width - col
    {
      RowPass(img, i0, i1, row, left, right, before, col, l, r, adds, n');
      SidesInFiles(img, i0, i1, row, left, right, before, col, l, r, adds, n');
      var ended, request;
      l, r, ended, request := Pass(img, i0, i1, row, col, l, r);
      n', cols := n' + 1, col + 1;
      if ended {
        RowDoneMeans(img, i0, i1, row, left, right, before, cols, l, r, adds, n');
        return;
      }
      adds, col := adds + request, col + 1;
    }
  }

  lemma RowDoneMeans(img: seq<byte>, i0: nat, i1: nat, row: nat, left: Side, right: Side, before: seq<Add>,
                     cols: nat, l: Side, r: Side, adds: seq<Add>, n: nat)
    requires RowDone(img, i0, i1, row, left, right, before, cols, l, r, adds, n)
    ensures Sized(img) && GoodInode(img, i0) && GoodInode(img, i1) && left.p <= Length(img, i0) && right.p <= Length(img, i1)
    ensures var row0, row1 := RowAt(File(img, i0), left), RowAt(File(img, i1), right);
            adds == before + RowAdds(row, row0, row1, Width(row0, row1))
  {
  }

  lemma SidesInFiles(img: seq<byte>, i0: nat, i1: nat, row: nat, left: Side, right: Side, before: seq<Add>,
                     col: nat, l: Side, r: Side, adds: seq<Add>, n: nat)
    requires InRow(img, i0, i1, row, left, right, before, col, l, r, adds, n)
    ensures Sized(img) && GoodInode(img, i0) && GoodInode(img, i1) && l.p <= Length(img, i0) && r.p <= Length(img, i1)
  {
  }

  /** One pass: two reads, and the request for the position if the row goes on. */
  method Pass(img: seq<byte>, i0: nat, i1: nat, row: nat, col: nat, left: Side, right: Side)
    returns (l: Side, r: Side, ended: bool, request: seq<Add>)
    requires Sized(img) && GoodInode(img, i0) && GoodInode(img, i1)
    requires left.p <= Length(img, i0) && right.p <= Length(img, i1)
    ensures l == Fetch(img, i0, left) && r == Fetch(img, i1, right)
    ensures ended <==> l.c == NEWLINE == r.c
    ensures !ended ==> request == Request(row, col, l.c, r.c)
  {
    l := ReadChar(img, i0, left);
    r := ReadChar(img, i1, right);
    ended, request := l.c == NEWLINE && r.c == NEWLINE, [];
    if !ended && ((l.c != SPACE && l.c != NEWLINE) || (r.c != SPACE && r.c != NEWLINE)) {
      request := [Add(row, col, if l.c == NEWLINE then SPACE else l.c, if r.c == NEWLINE then SPACE else r.c)];
    }
  }

  lemma Joined3(a: seq<Add>, b: seq<Add>, c: seq<Add>)
    ensures (a + b) + c == a + (b + c)
  {
  }

  lemma BothEnded(row0: seq<byte>, row1: seq<byte>, col: nat)
    requires NEWLINE !in row0 && NEWLINE !in row1 && col <= Width(row0, row1)
    requires (col < |row0| ==> row0[col] == NEWLINE) && (col < |row1| ==> row1[col] == NEWLINE)
    ensures col == Width(row0, row1)
  {
  }

  lemma RowsClean(f: seq<byte>, s: Side)
    requires s.p <= |f|
    ensures NEWLINE !in RowAt(f, s)
  {
    RowHasNoNewline(f, s.p);
  }

  lemma OnePass(img: seq<byte>, i0: nat, i1: nat, n: nat, row: nat, col: nat, left: Side, right: Side, adds: seq<Add>)
    requires Sized(img) && GoodInode(img, i0) && GoodInode(img, i1) && left.p <= Length(img, i0) && right.p <= Length(img, i1)
    requires Within(img, i0, i1, n, row, col, left, right, adds)
    ensures var l, r := Fetch(img, i0, left), Fetch(img, i1, right);
            if l.c == NEWLINE == r.c then Within(img, i0, i1, n + 1, row + 1, 0, Restart(l), Restart(r), adds)
            else Within(img, i0, i1, n + 1, row, col + 1, l, r, adds + Request(row, col, l.c, r.c))
  {
  }

  lemma FrameAddsMore(a: seq<seq<byte>>, b: seq<seq<byte>>, n: nat)
    ensures FrameAdds(a, b, n + 1) == FrameAdds(a, b, n) + RowAdds(n, Row(a, n), Row(b, n), Width(Row(a, n), Row(b, n)))
  {
  }

  lemma StartFiles(f0: seq<byte>, f1: seq<byte>)
    ensures Remaining(f0, 0, Side(0, 48, false)) && Remaining(f1, 0, Side(0, 48, false))
    ensures FrameAdds(Rows(f0, 0), Rows(f1, 0), 0) == []
  {
    assert Rows(f0, 0)[0..] == Rows(f0, 0) && Rows(f1, 0)[0..] == Rows(f1, 0);
  }

  lemma RowsBound(f0: seq<byte>, f1: seq<byte>, row: nat, left: Side, right: Side)
    requires Remaining(f0, row, left) && Remaining(f1, row, right)
    ensures !left.eof || !right.eof ==> row < Max(|Rows(f0, 0)|, |Rows(f1, 0)|)
    ensures left.eof && right.eof ==> row >= Max(|Rows(f0, 0)|, |Rows(f1, 0)|)
  {
  }

  /** The whole merge, for files whose reads report their end: by MergeEnds it does not end otherwise. */
  method AddFrames(img: seq<byte>, i0: nat, i1: nat) returns (adds: seq<Add>)
    requires Sized(img) && GoodInode(img, i0) && GoodInode(img, i1)
    requires !BadSlotAtEnd(img, i0) && !BadSlotAtEnd(img, i1)
    ensures var a, b := Rows(File(img, i0), 0), Rows(File(img, i1), 0);
            adds == FrameAdds(a, b, Max(|a|, |b|))
    ensures exists n: nat :: EndedBy(img, i0, i1, n) && Passes(img, i0, i1, n).adds == adds
  {
    hide File, BadSlotAtEnd, GoodInode, Sized, Remaining, Rows, Stream, FrameAdds, RowAdds, RowAt, Row, Width, Max, Passes, InRow, RowDone, Within;
    ghost var f0, f1 := File(img, i0), File(img, i1);
    ghost var a, b := Rows(f0, 0), Rows(f1, 0);
    var left, right := Side(0, 48, false), Side(0, 48, false);
    var row: nat := 0;
    adds := [];
    ghost var n: nat, cols: nat := 0, 0;
    StartFiles(f0, f1);
    StartPasses(img, i0, i1);
    RowsBound(f0, f1, 0, left, right);
    while !left.eof || !right.eof
      invariant Remaining(f0, row, left) && Remaining(f1, row, right)
      invariant adds == FrameAdds(a, b, row) && row <= Max(|a|, |b|)
      invariant Within(img, i0, i1, n, row, 0, left, right, adds)
      decreases Max(|a|, |b|) - row
    {
      RowsBound(f0, f1, row, left, right);
      RowStarts(img, i0, i1, row, left, right, adds, n);
      ghost var before := adds;
      var l, r;
      adds, l, r, n, cols := MergeRow(img, i0, i1, row, left, right, adds, n);
      RowEnds(img, i0, i1, row, left, right, before, cols, l, r, adds, n);
      left := l.(c := if l.eof then NEWLINE else 48);
      right := r.(c := if r.eof then NEWLINE else 48);
      row := row + 1;
    }
    RowsBound(f0, f1, row, left, right);
    EndReached(img, i0, i1, n, row, left, right, adds);
  }

  lemma EndReached(img: seq<byte>, i0: nat, i1: nat, n: nat, row: nat, left: Side, right: Side, adds: seq<Add>)
    requires Sized(img) && GoodInode(img, i0) && GoodInode(img, i1)
    requires Within(img, i0, i1, n, row, 0, left, right, adds) && left.eof && right.eof
    ensures EndedBy(img, i0, i1, n) && Passes(img, i0, i1, n).adds == adds
  {
  }

  /** A row is done: both streams stand at the beginning of their next rows, and the requests are those of
      the frames so far. */
  lemma RowEnds(img: seq<byte>, i0: nat, i1: nat, row: nat, left: Side, right: Side, before: seq<Add>,
                cols: nat, l: Side, r: Side, adds: seq<Add>, n: nat)
    requires RowDone(img, i0, i1, row, left, right, before, cols, l, r, adds, n)
    requires Remaining(File(img, i0), row, left) && Remaining(File(img, i1), row, right)
    requires before == FrameAdds(Rows(File(img, i0), 0), Rows(File(img, i1), 0), row)
    ensures Remaining(File(img, i0), row + 1, Restart(l)) && Remaining(File(img, i1), row + 1, Restart(r))
    ensures adds == FrameAdds(Rows(File(img, i0), 0), Rows(File(img, i1), 0), row + 1)
    ensures Within(img, i0, i1, n, row + 1, 0, Restart(l), Restart(r), adds)
  {
    hide File, GoodInode, Sized, Within, Stream, Remaining, Rows, RowAdds, RowAt, FrameAdds, Row, Width, Restart;
    var f0, f1 := File(img, i0), File(img, i1);
    NextRow(f0, row, left, RowAt(f0, left), cols, l);
    NextRow(f1, row, right, RowAt(f1, right), cols, r);
    FrameAddsMore(Rows(f0, 0), Rows(f1, 0), row);
  }

  lemma StartPasses(img: seq<byte>, i0: nat, i1: nat)
    requires Sized(img) && GoodInode(img, i0) && GoodInode(img, i1)
    ensures Within(img, i0, i1, 0, 0, 0, Side(0, 48, false), Side(0, 48, false), [])
  {
  }
}
