/**
 `putc` (student-distrib/lib.c): text output on the running terminal's page. In-place scrolling
 refines an unbounded log of rows of which the page shows the last ones.
 */
module Console {
  import opened Common
  import opened FileSystem
  import opened Terminal

  const RETURN: byte := 13

  predicate BreaksLine(c: byte) { c == ENTER || c == RETURN }

  // ---- the log ----

  /** Rows printed so far; the last one is still growing and has fewer than 80 characters. */
  function LogPut(log: seq<seq<byte>>, c: byte): (r: seq<seq<byte>>)
    requires log != []
    ensures r != []
  {
    var last := log[|log| - 1];
    if BreaksLine(c) then log + [[]]
    else if |last| + 1 == NUM_COLS then log[|log| - 1 := last + [c]] + [[]]
    else log[|log| - 1 := last + [c]]
  }

  function LogPrint(log: seq<seq<byte>>, text: seq<byte>): (r: seq<seq<byte>>)
    requires log != []
    ensures r != []
    decreases |text|
  {
    if text == [] then log else LogPut(LogPrint(log, text[..|text| - 1]), text[|text| - 1])
  }

  /** A newline and a carriage return both start a new row, and neither is stored. */
  lemma BreakingBytes(log: seq<seq<byte>>, c: byte)
    requires log != []
    ensures LogPut(log, 10) == LogPut(log, 13) == log + [[]]
    ensures c != 10 && c != 13 ==> LogPut(log, c)[|log| - 1] == log[|log| - 1] + [c]
  {
  }

  /** How many characters the first row of a text has: up to a newline or carriage return, at most 80. */
  function RowLength(text: seq<byte>): (n: nat)
    ensures n <= |text| && n <= 80
    ensures forall i :: 0 <= i < n ==> text[i] != 10 && text[i] != 13
    ensures n < |text| && n < 80 ==> text[n] == 10 || text[n] == 13
    decreases |text|
  {
    if text == [] || text[0] == 10 || text[0] == 13 then 0
    else
      var n := RowLength(text[1..]);
      if n == 80 then 80 else n + 1
  }

  /** The rows of a text on a screen of 80 columns. A row that is full has ended, so the line break after
      80 characters makes an empty row. */
  function Rows(text: seq<byte>): (rows: seq<seq<byte>>)
    ensures rows != []
    decreases |text|
  {
    var n := RowLength(text);
    if n == 80 then [text[..80]] + Rows(text[80..])
    else if n < |text| then [text[..n]] + Rows(text[n + 1..])
    else [text]
  }

  lemma {:induction false} PrintMore(log: seq<seq<byte>>, text: seq<byte>, more: seq<byte>)
    requires log != []
    ensures LogPrint(log, text + more) == LogPrint(LogPrint(log, text), more)
    decreases |more|
  {
    if more == [] {
      assert text + more == text;
    } else {
      var shorter := more[..|more| - 1];
      PrintMore(log, text, shorter);
      assert (text + more)[..|text + more| - 1] == text + shorter;
    }
  }

  /** Rows that are finished stay as they are. */
  lemma {:induction false} PrintBelow(above: seq<seq<byte>>, log: seq<seq<byte>>, text: seq<byte>)
    requires log != []
    ensures LogPrint(above + log, text) == above + LogPrint(log, text)
    decreases |text|
  {
    if text != [] {
      PrintBelow(above, log, text[..|text| - 1]);
      PutBelow(above, LogPrint(log, text[..|text| - 1]), text[|text| - 1]);
    }
  }

  lemma PutBelow(above: seq<seq<byte>>, log: seq<seq<byte>>, c: byte)
    requires log != []
    ensures LogPut(above + log, c) == above + LogPut(log, c)
  {
    var last := log[|log| - 1];
    assert (above + log)[|above + log| - 1 := last + [c]] == above + log[|log| - 1 := last + [c]];
  }

  lemma {:induction false} OneRow(text: seq<byte>)
    requires |text| < 80 && forall i :: 0 <= i < |text| ==> text[i] != 10 && text[i] != 13
    ensures LogPrint([[]], text) == [text]
    decreases |text|
  {
    if text != [] {
      OneRow(text[..|text| - 1]);
      assert text[..|text| - 1] + [text[|text| - 1]] == text;
    }
  }

  /** What is printed on an empty page is the rows of the text. */
  lemma {:induction false} PrintedRows(text: seq<byte>)
    ensures LogPrint([[]], text) == Rows(text)
    decreases |text|
  {
    hide RowLength, LogPrint;
    var n := RowLength(text);
    if n < |text| || n == 80 {
      var used := if n == 80 then 80 else n + 1;
      RowEnds(text, n, used);
      PrintedRows(text[used..]);
      assert text[..used] + text[used..] == text;
      PrintRest(text[..used], text[..n], text[used..]);
    } else {
      OneRow(text);
    }
  }

  /** No row of what is printed holds a byte that breaks lines, or more than 80 bytes. */
  lemma {:induction false} NoBreakInRows(text: seq<byte>, r: nat)
    requires r < |LogPrint([[]], text)|
    ensures 10 !in LogPrint([[]], text)[r] && 13 !in LogPrint([[]], text)[r] && |LogPrint([[]], text)[r]| <= 80
    decreases |text|
  {
    hide RowLength, LogPrint;
    PrintedRows(text);
    var n := RowLength(text);
    if r > 0 {
      var used := if n == 80 then 80 else n + 1;
      PrintedRows(text[used..]);
      NoBreakInRows(text[used..], r - 1);
    }
  }

  lemma PrintRest(text: seq<byte>, row: seq<byte>, more: seq<byte>)
    requires LogPrint([[]], text) == [row, []]
    ensures LogPrint([[]], text + more) == [row] + LogPrint([[]], more)
  {
    hide LogPrint;
    PrintMore([[]], text, more);
    assert [row, []] == [row] + [[]];
    PrintBelow([row], [[]], more);
  }

  lemma RowEnds(text: seq<byte>, n: nat, used: nat)
    requires n == RowLength(text) && (n < |text| || n == 80) && used == if n == 80 then 80 else n + 1
    ensures used <= |text| && LogPrint([[]], text[..used]) == [text[..n], []]
  {
    hide RowLength, LogPrint, LogPut;
    var before, c := text[..used - 1], text[used - 1];
    assert text[..used] == before + [c];
    if n == 80 {
      RowFull(before, c);
    } else {
      RowBroken(before, c);
    }
  }

  lemma RowFull(before: seq<byte>, c: byte)
    requires |before| == 79 && c != 10 && c != 13 && forall i :: 0 <= i < |before| ==> before[i] != 10 && before[i] != 13
    ensures LogPrint([[]], before + [c]) == [before + [c], []]
  {
    hide LogPrint;
    OneRow(before);
    PrintLast([[]], before, c);
  }

  lemma RowBroken(before: seq<byte>, c: byte)
    requires |before| < 80 && (c == 10 || c == 13) && forall i :: 0 <= i < |before| ==> before[i] != 10 && before[i] != 13
    ensures LogPrint([[]], before + [c]) == [before, []]
  {
    hide LogPrint;
    OneRow(before);
    PrintLast([[]], before, c);
  }

  lemma PrintLast(log: seq<seq<byte>>, text: seq<byte>, c: byte)
    requires log != []
    ensures LogPrint(log, text + [c]) == LogPut(LogPrint(log, text), c)
  {
    assert (text + [c])[..|text|] == text;
  }

  // ---- the cursor and the page ----

  /** What `putc` makes of the page and the cursor. On a wrap in the last row it sets the row to 24,
      one below the page (lib.c, line 267). */
  function PutC(s: Cells, c: byte): Cells
    requires |s.v| == CELLS && s.x < NUM_COLS && s.y < NUM_ROWS
  {
    if BreaksLine(c) then
      if s.y + 1 == NUM_ROWS then Cells(Scrolled(s.v), 0, NUM_ROWS - 1) else Cells(s.v, 0, s.y + 1)
    else
      var v := s.v[Offset(s.x, s.y) := c];
      if s.x + 1 < NUM_COLS then Cells(v, s.x + 1, s.y)
      else if s.y + 1 == NUM_ROWS then Cells(Scrolled(v), 0, NUM_ROWS)
      else Cells(v, 0, s.y + 1)
  }

  /** The cursor after a text, or None as soon as it has left the page. */
  function Cursor(x: nat, y: nat, text: seq<byte>): (r: Option<(nat, nat)>)
    requires x < NUM_COLS && y < NUM_ROWS
    ensures r.Some? ==> r.value.0 < NUM_COLS && r.value.1 < NUM_ROWS
    decreases |text|
  {
    if text == [] then Some((x, y))
    else
      match Cursor(x, y, text[..|text| - 1])
      case None => None
      case Some((cx, cy)) =>
        if BreaksLine(text[|text| - 1]) then Some((0, if cy + 1 == NUM_ROWS then cy else cy + 1))
        else if cx + 1 < NUM_COLS then Some((cx + 1, cy))
        else if cy + 1 < NUM_ROWS then Some((0, cy + 1))
        else None
  }

  predicate Blank(b: byte) { b == 0 || b == SPACE }

  function Cell(v: seq<byte>, r: nat, j: nat): byte
    requires |v| == CELLS && r < NUM_ROWS && j < NUM_COLS
  {
    v[r * NUM_COLS + j]
  }

  ghost predicate RowShows(v: seq<byte>, r: nat, row: seq<byte>) {
    && |v| == CELLS && r < NUM_ROWS && |row| <= NUM_COLS
    && forall j :: 0 <= j < NUM_COLS ==> if j < |row| then Cell(v, r, j) == row[j] else Blank(Cell(v, r, j))
  }

  /** Row `r` of a page whose growing row is `y`. */
  ghost predicate RowOk(v: seq<byte>, y: nat, log: seq<seq<byte>>, r: nat) {
    && r <= y < NUM_ROWS && y < |log|
    && RowShows(v, r, log[|log| - 1 - y + r])
  }

  /** The page shows the last rows of the log: row `y` is the growing one, the rows above it are the
      ones before, and everything to the right and below is blank. */
  ghost predicate ShowsLog(s: Cells, log: seq<seq<byte>>) {
    && |s.v| == CELLS && s.x < NUM_COLS && s.y < NUM_ROWS && s.y < |log|
    && s.x == |log[|log| - 1]|
    && (forall r :: 0 <= r <= s.y ==> RowOk(s.v, s.y, log, r))
    && (forall r :: s.y < r < NUM_ROWS ==> RowShows(s.v, r, []))
  }

  /** Cell by cell: a row of the log, and after it nothing but zeros and spaces. */
  lemma ShownCell(s: Cells, log: seq<seq<byte>>, r: nat, j: nat)
    requires ShowsLog(s, log) && r < 24 && j < 80
    ensures |s.v| == 24 * 80
    ensures s.v[r * 80 + j] ==
            if r <= s.y && j < |log[|log| - 1 - s.y + r]| then log[|log| - 1 - s.y + r][j]
            else if s.v[r * 80 + j] == 0 then 0 else 32
  {
    assert s.v[r * 80 + j] == Cell(s.v, r, j);
    if r <= s.y { assert RowOk(s.v, s.y, log, r); } else { assert RowShows(s.v, r, []); }
  }

  lemma ScrollRow(v: seq<byte>, r: nat, row: seq<byte>)
    requires |v| == CELLS && r + 1 < NUM_ROWS && RowShows(v, r + 1, row)
    ensures RowShows(Scrolled(v), r, row)
  {
    var w := Scrolled(v);
    forall j: nat | j < NUM_COLS
      ensures if j < |row| then Cell(w, r, j) == row[j] else Blank(Cell(w, r, j))
    {
      assert Cell(w, r, j) == Cell(v, r + 1, j);
    }
  }

  lemma WriteRow(s: Cells, r: nat, row: seq<byte>, c: byte)
    requires |s.v| == CELLS && s.x < NUM_COLS && s.y < NUM_ROWS && RowShows(s.v, r, row)
    requires r == s.y ==> s.x == |row|
    ensures RowShows(s.v[Offset(s.x, s.y) := c], r, if r == s.y then row + [c] else row)
  {
    var w := s.v[Offset(s.x, s.y) := c];
    var now := if r == s.y then row + [c] else row;
    forall j: nat | j < NUM_COLS
      ensures if j < |now| then Cell(w, r, j) == now[j] else Blank(Cell(w, r, j))
    {
      assert (r == s.y && j == s.x) || Cell(w, r, j) == Cell(s.v, r, j);
    }
  }

  lemma BreakShows(s: Cells, log: seq<seq<byte>>, c: byte)
    requires ShowsLog(s, log) && BreaksLine(c)
    ensures ShowsLog(PutC(s, c), LogPut(log, c))
  {
    NewRowShows(s.v, s.y, log);
  }

  /** Moving to a new row, scrolling if the growing row was the last one. */
  lemma NewRowShows(v: seq<byte>, y: nat, log: seq<seq<byte>>)
    requires |v| == CELLS && y < NUM_ROWS && y < |log|
    requires forall r :: 0 <= r <= y ==> RowOk(v, y, log, r)
    requires forall r :: y < r < NUM_ROWS ==> RowShows(v, r, [])
    ensures var t := if y + 1 == NUM_ROWS then Cells(Scrolled(v), 0, y) else Cells(v, 0, y + 1);
            ShowsLog(t, log + [[]])
  {
    var t := if y + 1 == NUM_ROWS then Cells(Scrolled(v), 0, y) else Cells(v, 0, y + 1);
    var longer := log + [[]];
    forall r: nat | r <= t.y ensures RowOk(t.v, t.y, longer, r) {
      if r == t.y {
        assert y + 1 < NUM_ROWS ==> RowShows(v, y + 1, []);
      } else if y + 1 == NUM_ROWS {
        assert RowOk(v, y, log, r + 1);
        ScrollRow(v, r, log[|log| - 1 - y + (r + 1)]);
      } else {
        assert RowOk(v, y, log, r);
      }
    }
  }

  /** The same page with the cursor in the last row, if it is below. */
  function OnPage(s: Cells): Cells { if s.y == NUM_ROWS then s.(y := NUM_ROWS - 1) else s }

  /** After every character the page itself is right, even after a wrap at the bottom. */
  lemma CharShows(s: Cells, log: seq<seq<byte>>, c: byte)
    requires ShowsLog(s, log) && !BreaksLine(c)
    ensures ShowsLog(OnPage(PutC(s, c)), LogPut(log, c))
  {
    var grown := log[|log| - 1 := log[|log| - 1] + [c]];
    var v := s.v[Offset(s.x, s.y) := c];
    forall r: nat | r <= s.y ensures RowOk(v, s.y, grown, r) {
      assert RowOk(s.v, s.y, log, r);
      WriteRow(s, r, log[|log| - 1 - s.y + r], c);
    }
    forall r: nat | s.y < r < NUM_ROWS ensures RowShows(v, r, []) {
      WriteRow(s, r, [], c);
    }
    if s.x + 1 == NUM_COLS {
      NewRowShows(v, s.y, grown);
    }
  }

  /** A key's echo on the page of the running terminal is what `putc` prints, with the row number set
      right: Enter is a newline, and a character of a hidden password a space. */
  lemma TypingPrints(s: Cells, c: byte, hidden: bool)
    requires |s.v| == CELLS && s.x < NUM_COLS && s.y < NUM_ROWS
    ensures BreakRow(s, true) == PutC(s, 10)
    ensures c != 10 && c != 13 ==> Echo(s, c, false, true) == OnPage(PutC(s, c)) && Echo(s, c, true, true) == OnPage(PutC(s, 32))
  {
    if c != 10 && c != 13 {
      EchoIsPut(s, c, false);
      EchoIsPut(s, c, true);
    }
  }

  lemma EchoIsPut(s: Cells, c: byte, hidden: bool)
    requires |s.v| == CELLS && s.x < NUM_COLS && s.y < NUM_ROWS && c != 10 && c != 13
    ensures Echo(s, c, hidden, true) == OnPage(PutC(s, if hidden then 32 else c))
  {
    assert Echo(s, c, hidden, true).v == OnPage(PutC(s, if hidden then 32 else c)).v;
  }

  /** What is typed and what is printed go into one log. */
  lemma TypingShowsLog(s: Cells, log: seq<seq<byte>>, cnt: nat, c: byte, hidden: bool)
    requires ShowsLog(s, log) && cnt <= Offset(s.x, s.y) && cnt < 128 && c != 8 && c != 13
    ensures var t := ScreenStep(s, cnt, true, Char(c), hidden, true);
            ShowsLog(t, if c == 10 then LogPut(log, 10)
                        else var longer := LogPut(log, if hidden then 32 else c); if cnt == 127 then LogPut(longer, 10) else longer)
  {
    TypingPrints(s, c, hidden);
    BreakShows(s, log, 10);
    if c != 10 {
      var shown := if hidden then 32 else c;
      CharShows(s, log, shown);
      hide ShowsLog, LogPut, Echo, PutC;
      TypingPrints(OnPage(PutC(s, shown)), c, hidden);
      BreakShows(OnPage(PutC(s, shown)), LogPut(log, shown), 10);
    }
  }

  /** Backspace takes the last character out of the log; at the beginning of a row that a wrap has begun,
      it takes that row back too. */
  lemma EraseShowsLog(s: Cells, log: seq<seq<byte>>)
    requires ShowsLog(s, log) && Offset(s.x, s.y) > 0 && (s.x == 0 ==> |log[|log| - 2]| == 80)
    ensures var n := |log| - 1;
            ShowsLog(Erase(s), if s.x > 0 then log[n := log[n][..s.x - 1]] else log[..n][n - 1 := log[n - 1][..79]])
  {
    var n := |log| - 1;
    var t := Erase(s);
    var less := if s.x > 0 then log[n := log[n][..s.x - 1]] else log[..n][n - 1 := log[n - 1][..79]];
    assert s.x == 0 ==> RowOk(s.v, s.y, log, s.y - 1);
    hide RowShows;
    forall r: nat | r <= t.y ensures RowOk(t.v, t.y, less, r) {
      assert RowOk(s.v, s.y, log, r);
      EraseRow(s, r, log[n - s.y + r]);
    }
    forall r: nat | t.y < r < NUM_ROWS ensures RowShows(t.v, r, []) {
      assert r == s.y ==> RowOk(s.v, s.y, log, r);
      EraseRow(s, r, []);
    }
  }

  lemma EraseRow(s: Cells, r: nat, row: seq<byte>)
    requires |s.v| == CELLS && s.x < NUM_COLS && s.y < NUM_ROWS && Offset(s.x, s.y) > 0 && RowShows(s.v, r, row)
    requires r == Erase(s).y && row != [] ==> |row| == Erase(s).x + 1
    ensures RowShows(Erase(s).v, r, if r == Erase(s).y && row != [] then row[..|row| - 1] else row)
  {
    var w := Erase(s).v;
    var now := if r == Erase(s).y && row != [] then row[..|row| - 1] else row;
    forall j: nat | j < NUM_COLS
      ensures if j < |now| then Cell(w, r, j) == now[j] else Blank(Cell(w, r, j))
    {
      assert (r == Erase(s).y && j == Erase(s).x) || Cell(w, r, j) == Cell(s.v, r, j);
    }
  }

  /** Printing, as long as the cursor stays on the page. */
  function Print(s: Cells, text: seq<byte>): (r: Option<Cells>)
    requires |s.v| == CELLS && s.x < NUM_COLS && s.y < NUM_ROWS
    ensures r.Some? ==> |r.value.v| == CELLS && r.value.x < NUM_COLS && r.value.y < NUM_ROWS
    decreases |text|
  {
    if text == [] then Some(s)
    else
      match Print(s, text[..|text| - 1])
      case None => None
      case Some(t) =>
        var u := PutC(t, text[|text| - 1]);
        if u.y < NUM_ROWS then Some(u) else None
  }

  /** The cursor leaves the page exactly when some character wraps the last row; until then the page
      shows the last rows of everything printed. */
  lemma {:induction false} PrintShowsLog(s: Cells, log: seq<seq<byte>>, text: seq<byte>)
    requires ShowsLog(s, log)
    ensures Print(s, text).Some? <==> Cursor(s.x, s.y, text).Some?
    ensures Print(s, text).Some? ==>
      && ShowsLog(Print(s, text).value, LogPrint(log, text))
      && Cursor(s.x, s.y, text).value == (Print(s, text).value.x, Print(s, text).value.y)
    decreases |text|
  {
    if text != [] {
      var shorter := text[..|text| - 1];
      PrintShowsLog(s, log, shorter);
      if Print(s, shorter).Some? {
        var t := Print(s, shorter).value;
        var c := text[|text| - 1];
        if BreaksLine(c) {
          BreakShows(t, LogPrint(log, shorter), c);
        } else if !WrapsAtBottom(t.x, t.y) {
          CharShows(t, LogPrint(log, shorter), c);
        }
      }
    }
  }

  /** The number of characters since the last line break, counting those before the text. */
  function Column(x: nat, text: seq<byte>): nat
    decreases |text|
  {
    if text == [] then x
    else if BreaksLine(text[|text| - 1]) then 0
    else Column(x, text[..|text| - 1]) + 1
  }

  /** A text whose lines stay under 80 columns never wraps, so it can be printed from any position. */
  lemma {:induction false} ShortLinesStay(x: nat, y: nat, text: seq<byte>)
    requires x < NUM_COLS && y < NUM_ROWS
    requires forall k :: 0 <= k <= |text| ==> Column(x, text[..k]) < NUM_COLS
    ensures Cursor(x, y, text).Some? && Cursor(x, y, text).value.0 == Column(x, text)
    decreases |text|
  {
    if text != [] {
      var shorter := text[..|text| - 1];
      forall k | 0 <= k <= |shorter| ensures Column(x, shorter[..k]) < NUM_COLS {
        assert shorter[..k] == text[..k];
      }
      ShortLinesStay(x, y, shorter);
      assert text[..|text|] == text;
    }
  }

  /** After a row has wrapped at the bottom the row number is 24. */
  lemma WrapLeavesPage(s: Cells, c: byte)
    requires |s.v| == CELLS && s.x < NUM_COLS && s.y < NUM_ROWS
    ensures PutC(s, c).y == NUM_ROWS <==> WrapsAtBottom(s.x, s.y) && !BreaksLine(c)
  {
  }

  /** `putc` itself. */
  method PutChar(t: Term, c: byte)
    requires t.video.Length == CELLS && t.x < NUM_COLS && t.y < NUM_ROWS
    modifies t`x, t`y, t.video
    ensures Cells(t.video[..], t.x, t.y) == old(PutC(Cells(t.video[..], t.x, t.y), c))
  {
    if c == ENTER || c == RETURN {
      t.y := t.y + 1;
      if t.y == NUM_ROWS {
        ScrollScreen(t.video);
        t.y := NUM_ROWS - 1;
      }
      t.x := 0;
    } else {
      t.video[Offset(t.x, t.y)] := c;
      t.x := t.x + 1;
      if t.x == NUM_COLS {
        t.x := 0;
        t.y := t.y + 1;
        if t.y == NUM_ROWS {
          ScrollScreen(t.video);
          t.y := NUM_ROWS;
        }
      }
    }
  }

  /** `terminal_write`, up to the first character that wraps the last row, if there is one. Up to there
      the page shows the log; then it still does, but the row number is one too large, and what follows
      is written below the page. */
  method Write(t: Term, text: seq<byte>, ghost log: seq<seq<byte>>) returns (written: nat)
    requires t.video.Length == CELLS && ShowsLog(Cells(t.video[..], t.x, t.y), log)
    modifies t`x, t`y, t.video
    ensures written <= |text| && ShowsLog(OnPage(Cells(t.video[..], t.x, t.y)), LogPrint(log, text[..written]))
    ensures match old(Cursor(t.x, t.y, text[..written]))
            case Some(cursor) => written == |text| && (t.x, t.y) == cursor
            case None => written > 0 && old(Cursor(t.x, t.y, text[..written - 1])).Some? && (t.x, t.y) == (0, NUM_ROWS)
  {
    ghost var s := Cells(t.video[..], t.x, t.y);
    written := 0;
    while written < |text|
      invariant 0 <= written <= |text|
      invariant Print(s, text[..written]) == Some(Cells(t.video[..], t.x, t.y))
    {
      assert text[..written + 1][..written] == text[..written];
      PrintShowsLog(s, log, text[..written]);
      PrintShowsLog(s, log, text[..written + 1]);
      ghost var before := Cells(t.video[..], t.x, t.y);
      PutChar(t, text[written]);
      written := written + 1;
      if t.y == NUM_ROWS {
        CharShows(before, LogPrint(log, text[..written - 1]), text[written - 1]);
        return;
      }
    }
    PrintShowsLog(s, log, text[..written]);
  }
}
