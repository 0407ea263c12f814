/**
 The line editor of the keyboard handler (student-distrib/terminal.c): line buffer, cursor, echo,
 wrap and scroll. Keys are taken after decoding, and only the character bytes of text memory are
 modelled.
 */
module Terminal {
  import opened FileSystem

  const NUM_COLS := 80
  const NUM_ROWS := 24
  const CELLS := NUM_ROWS * NUM_COLS
  const BUF_SIZE := 128
  const ENTER: byte := 10
  const BACKSPACE: byte := 8

  /** A decoded key: Ctrl-L, which also ends the read, or a character other than 0 and 255. */
  datatype Key = CtrlL | Char(c: byte)

  function Offset(x: nat, y: nat): nat { x + y * NUM_COLS }

  // ---- the abstract line ----

  datatype Edit = Edit(line: seq<byte>, reading: bool)

  /** What one key does to the line being read. */
  function EditStep(e: Edit, key: Key): Edit {
    match key
    case CtrlL => Edit([], false)
    case Char(c) =>
      if !e.reading then e
      else if c == ENTER then Edit(e.line, false)
      else if c == BACKSPACE then Edit(if e.line == [] then [] else e.line[..|e.line| - 1], true)
      else Edit(e.line + [c], |e.line| + 1 < BUF_SIZE)
  }

  /** The whole line buffer after a key. Backspace clears the cell behind the line, not the character it
      takes away. */
  function BufferStep(buf: seq<byte>, cnt: nat, reading: bool, key: Key): seq<byte>
    requires |buf| == BUF_SIZE && (reading ==> cnt < BUF_SIZE)
  {
    match key
    case CtrlL => seq(BUF_SIZE, _ => SPACE)
    case Char(c) =>
      if !reading || c == ENTER || (c == BACKSPACE && cnt == 0) then buf
      else if c == BACKSPACE then buf[cnt := 0]
      else buf[cnt := c]
  }

  /** As far as the line goes, the buffer holds it. */
  lemma BufferHoldsLine(buf: seq<byte>, cnt: nat, reading: bool, key: Key)
    requires |buf| == BUF_SIZE && cnt <= BUF_SIZE && (reading ==> cnt < BUF_SIZE)
    ensures var e := EditStep(Edit(buf[..cnt], reading), key);
            && |BufferStep(buf, cnt, reading, key)| == BUF_SIZE && |e.line| <= BUF_SIZE
            && BufferStep(buf, cnt, reading, key)[..|e.line|] == e.line
  {
  }

  function EditKeys(e: Edit, keys: seq<Key>): Edit
    decreases |keys|
  {
    if keys == [] then e else EditKeys(EditStep(e, keys[0]), keys[1..])
  }

  /** A read is still going on before its j-th key. */
  predicate Reading(keys: seq<Key>, j: nat)
    requires j <= |keys|
  {
    EditKeys(Edit([], true), keys[..j]).reading
  }

  /** The line after the first `j` keys. */
  function LineAt(keys: seq<Key>, j: nat): seq<byte>
    requires j <= |keys|
  {
    EditKeys(Edit([], true), keys[..j]).line
  }

  /** The read ends with the first `used` keys and not before. */
  predicate ReadBy(keys: seq<Key>, used: nat)
    requires used <= |keys|
  {
    !Reading(keys, used) && forall j :: 0 <= j < used ==> Reading(keys, j)
  }

  lemma {:induction false} EditOneMore(e: Edit, keys: seq<Key>, n: nat)
    requires n < |keys|
    ensures EditKeys(e, keys[..n + 1]) == EditStep(EditKeys(e, keys[..n]), keys[n])
    decreases n
  {
    if n > 0 {
      EditOneMore(EditStep(e, keys[0]), keys[1..], n - 1);
      assert keys[1..][..n] == keys[..n + 1][1..] && keys[1..][..n - 1] == keys[..n][1..];
    }
  }

  /** The keys that type a text. */
  function Typed(text: seq<byte>): (keys: seq<Key>)
    ensures |keys| == |text| && forall i :: 0 <= i < |text| ==> keys[i] == Char(text[i])
    decreases |text|
  {
    if text == [] then [] else [Char(text[0])] + Typed(text[1..])
  }

  /** Text without Enter and Backspace goes into the line as it is, up to 128 characters; the last of
      these ends the read. */
  lemma {:induction false} TypedIsLine(before: seq<byte>, text: seq<byte>)
    requires |before| < 128 && |before| + |text| <= 128 && forall i :: 0 <= i < |text| ==> text[i] != 10 && text[i] != 8
    ensures EditKeys(Edit(before, true), Typed(text)) == Edit(before + text, |before| + |text| < 128)
    decreases |text|
  {
    if |text| == 1 {
      assert EditKeys(EditStep(Edit(before, true), Char(text[0])), []) == Edit(before + [text[0]], |before| + 1 < 128);
    } else if text != [] {
      TypedIsLine(before + [text[0]], text[1..]);
      assert before + text == before + [text[0]] + text[1..];
    } else {
      assert before + text == before;
    }
  }

  lemma LastKey(e: Edit, keys: seq<Key>, key: Key)
    ensures EditKeys(e, keys + [key]) == EditStep(EditKeys(e, keys), key)
  {
    var longer := keys + [key];
    assert longer[..|keys|] == keys && longer[..|keys| + 1] == longer;
    EditOneMore(e, longer, |keys|);
  }

  /** Enter ends the read and adds nothing to the line. */
  lemma TypedThenEnter(text: seq<byte>)
    requires |text| < 128 && forall i :: 0 <= i < |text| ==> text[i] != 10 && text[i] != 8
    ensures EditKeys(Edit([], true), Typed(text) + [Char(10)]) == Edit(text, false)
  {
    TypedIsLine([], text);
    assert [] + text == text && EditStep(Edit(text, true), Char(10)) == Edit(text, false);
    hide *;
    LastKey(Edit([], true), Typed(text), Char(10));
  }

  lemma CancelOut(e: Edit, c: byte)
    requires EditStep(e, Char(c)).reading && c != 8
    ensures EditStep(EditStep(e, Char(c)), Char(8)) == e
  {
  }

  /** Backspace takes back the character before it, wherever in the read that is; with an empty line
      it does nothing. */
  lemma BackspaceTakesBack(e: Edit, keys: seq<Key>, c: byte, more: seq<Key>)
    requires EditKeys(e, keys + [Char(c)]).reading && c != 8
    ensures EditKeys(e, keys + [Char(c), Char(8)] + more) == EditKeys(e, keys + more)
    ensures EditStep(Edit([], true), Char(8)) == Edit([], true)
  {
    var longer := keys + [Char(c), Char(8)];
    LastKey(e, keys, Char(c));
    assert longer == keys + [Char(c)] + [Char(8)];
    LastKey(e, keys + [Char(c)], Char(8));
    CancelOut(EditKeys(e, keys), c);
    hide EditKeys, EditStep;
    assert (longer + more)[..|longer|] == longer && (longer + more)[|longer|..] == more;
    EditMore(e, longer + more, |longer|);
    assert (keys + more)[..|keys|] == keys && (keys + more)[|keys|..] == more;
    EditMore(e, keys + more, |keys|);
  }

  /** Once a read has ended no key starts it again, and the line stays unless Ctrl-L empties it. */
  lemma {:induction false} EndedStays(e: Edit, keys: seq<Key>)
    requires !e.reading
    ensures EditKeys(e, keys) == Edit(if CtrlL in keys then [] else e.line, false)
    decreases |keys|
  {
    if keys != [] {
      EndedStays(EditStep(e, keys[0]), keys[1..]);
      assert keys == [keys[0]] + keys[1..];
    }
  }

  lemma {:induction false} EditMore(e: Edit, keys: seq<Key>, n: nat)
    requires n <= |keys|
    ensures EditKeys(e, keys) == EditKeys(EditKeys(e, keys[..n]), keys[n..])
    decreases n
  {
    if n == 0 {
      assert keys[0..] == keys;
    } else {
      assert keys[..n][1..] == keys[1..][..n - 1] && keys[1..][n - 1..] == keys[n..];
      EditMore(EditStep(e, keys[0]), keys[1..], n - 1);
    }
  }

  /** Keys that come after the one that ended the read, before the reader has run again, change what it
      gets exactly if one of them is Ctrl-L and the line was not empty. */
  lemma LineSurvives(keys: seq<Key>, used: nat)
    requires used <= |keys| && ReadBy(keys, used)
    ensures !EditKeys(Edit([], true), keys).reading
    ensures EditKeys(Edit([], true), keys).line == LineAt(keys, used) <==> CtrlL !in keys[used..] || LineAt(keys, used) == []
  {
    EditMore(Edit([], true), keys, used);
    EndedStays(EditKeys(Edit([], true), keys[..used]), keys[used..]);
  }

  /** Every read that ends is ended by one of its keys. */
  lemma {:induction false} EndingKey(keys: seq<Key>) returns (used: nat)
    requires !EditKeys(Edit([], true), keys).reading
    ensures 0 < used <= |keys| && ReadBy(keys, used)
    decreases |keys|
  {
    var n := |keys| - 1;
    assert keys[..|keys|] == keys;
    if Reading(keys, n) {
      used := |keys|;
      forall j: nat | j < used ensures Reading(keys, j) {
        if !Reading(keys, j) {
          EditMore(Edit([], true), keys[..n], j);
          assert keys[..n][..j] == keys[..j];
          EndedStays(EditKeys(Edit([], true), keys[..j]), keys[..n][j..]);
        }
      }
    } else {
      used := EndingKey(keys[..n]);
      forall j: nat | j <= used ensures keys[..n][..j] == keys[..j] {
      }
      forall j: nat | j < used ensures Reading(keys, j) {
        assert Reading(keys[..n], j);
      }
    }
  }

  // ---- the screen ----

  /** `scroll_screen`: every row moves up, the last one is cleared. */
  function Scrolled(v: seq<byte>): (w: seq<byte>)
    requires |v| == CELLS
    ensures |w| == CELLS
    ensures forall k :: 0 <= k < CELLS ==> w[k] == if k < CELLS - NUM_COLS then v[k + NUM_COLS] else 0
  {
    v[NUM_COLS..] + seq(NUM_COLS, _ => 0)
  }

  /** The inner loop of `scroll_screen`: row `i` is copied onto the one above it. */
  method CopyRowUp(video: array<byte>, i: nat)
    requires video.Length == CELLS && 1 <= i < NUM_ROWS
    modifies video
    ensures forall k :: (i - 1) * NUM_COLS <= k < i * NUM_COLS ==> video[k] == old(video[k + NUM_COLS])
    ensures forall k :: 0 <= k < CELLS && !((i - 1) * NUM_COLS <= k < i * NUM_COLS) ==> video[k] == old(video[k])
  {
    var to := (i - 1) * NUM_COLS;
    var j := 0;
    while j < NUM_COLS
      invariant 0 <= j <= NUM_COLS
      invariant forall k :: to <= k < to + j ==> video[k] == old(video[k + NUM_COLS])
      invariant forall k :: 0 <= k < CELLS && !(to <= k < to + j) ==> video[k] == old(video[k])
    {
      video[to + j] := video[to + NUM_COLS + j];
      j := j + 1;
    }
  }

  method ClearRow(video: array<byte>, row: nat)
    requires video.Length == CELLS && row < NUM_ROWS
    modifies video
    ensures forall k :: 0 <= k < CELLS ==>
              video[k] == if row * NUM_COLS <= k < (row + 1) * NUM_COLS then 0 else old(video[k])
  {
    var start := row * NUM_COLS;
    var j := 0;
    while j < NUM_COLS
      invariant 0 <= j <= NUM_COLS
      invariant forall k :: 0 <= k < CELLS ==> video[k] == if start <= k < start + j then 0 else old(video[k])
    {
      video[start + j] := 0;
      j := j + 1;
    }
  }

  method ScrollScreen(video: array<byte>)
    requires video.Length == CELLS
    modifies video
    ensures video[..] == old(Scrolled(video[..]))
  {
    var i := 1;
    while i < NUM_ROWS
      invariant 1 <= i <= NUM_ROWS
      invariant forall k :: 0 <= k < (i - 1) * NUM_COLS ==> video[k] == old(video[k + NUM_COLS])
      invariant forall k :: (i - 1) * NUM_COLS <= k < CELLS ==> video[k] == old(video[k])
    {
      CopyRowUp(video, i);
      i := i + 1;
    }
    ClearRow(video, i - 1);
  }

  /** What is echoed for a character: the password prompt shows spaces. */
  function Glyph(c: byte, hidden: bool): byte { if hidden then SPACE else c }

  /** The cells just before the cursor show the line, across row ends. */
  ghost predicate Shows(v: seq<byte>, x: nat, y: nat, line: seq<byte>, hidden: bool) {
    && |v| == CELLS && x < NUM_COLS && y < NUM_ROWS && |line| <= Offset(x, y)
    && forall i :: 0 <= i < |line| ==> v[Offset(x, y) - |line| + i] == Glyph(line[i], hidden)
  }

  /** The terminal wraps on its last row and so has to scroll. */
  predicate WrapsAtBottom(x: nat, y: nat) { x == NUM_COLS - 1 && y == NUM_ROWS - 1 }

  datatype Cells = Cells(v: seq<byte>, x: nat, y: nat)

  /** An ordinary character: the cursor moves on, wraps and scrolls, then the cell before it is
      written. `own` says whether the page that scrolls is the one that is shown. */
  function Echo(s: Cells, c: byte, hidden: bool, own: bool): Cells
    requires |s.v| == CELLS && s.x < NUM_COLS && s.y < NUM_ROWS
  {
    var x := if s.x + 1 == NUM_COLS then 0 else s.x + 1;
    var y := if s.x + 1 == NUM_COLS && s.y + 1 < NUM_ROWS then s.y + 1 else s.y;
    var v := if WrapsAtBottom(s.x, s.y) && own then Scrolled(s.v) else s.v;
    Cells(v[Offset(x, y) - 1 := Glyph(c, hidden)], x, y)
  }

  lemma EchoShows(s: Cells, line: seq<byte>, c: byte, hidden: bool, own: bool)
    requires Shows(s.v, s.x, s.y, line, hidden) && |line| < BUF_SIZE
    requires own || !WrapsAtBottom(s.x, s.y) || line == []
    ensures var t := Echo(s, c, hidden, own); Shows(t.v, t.x, t.y, line + [c], hidden)
  {
  }

  /** If another terminal is running when the shown one has to scroll, the shown page stays where it
      is, and for every non-empty line there is a page on which the echo then goes wrong. */
  lemma EchoWrongPage(line: seq<byte>, c: byte, hidden: bool) returns (v: seq<byte>)
    requires 0 < |line| < BUF_SIZE
    ensures Shows(v, NUM_COLS - 1, NUM_ROWS - 1, line, hidden)
    ensures var t := Echo(Cells(v, NUM_COLS - 1, NUM_ROWS - 1), c, hidden, false);
            !Shows(t.v, t.x, t.y, line + [c], hidden)
  {
    var at := CELLS - 1 - |line|;
    var expected := at - NUM_COLS;
    var other: byte := if Glyph(line[0], hidden) == 0 then 1 else 0;
    v := seq<byte>(CELLS, k requires 0 <= k < CELLS =>
      var b: byte := if at <= k < CELLS - 1 then Glyph(line[k - at], hidden) else other; b);
    var t := Echo(Cells(v, NUM_COLS - 1, NUM_ROWS - 1), c, hidden, false);
    assert (line + [c])[0] == line[0] && t.v[expected] == other;
    assert Offset(t.x, t.y) - |line + [c]| + 0 == expected;
  }

  /** A page scrolled several times. */
  function ScrolledTimes(v: seq<byte>, n: nat): (w: seq<byte>)
    requires |v| == CELLS
    ensures |w| == CELLS
    decreases n
  {
    if n == 0 then v else ScrolledTimes(Scrolled(v), n - 1)
  }

  lemma {:induction false} ScrolledCell(v: seq<byte>, n: nat, k: nat)
    requires |v| == CELLS && k < CELLS
    ensures ScrolledTimes(v, n)[k] == if k + n * NUM_COLS < CELLS then v[k + n * NUM_COLS] else 0
    decreases n
  {
    if n > 0 { ScrolledCell(Scrolled(v), n - 1, k); }
  }

  /** A page that scrolls under its own terminal's line keeps showing it on every page exactly when there
      is nothing to show or nothing scrolls. */
  lemma ScrollKeepsLine(x: nat, y: nat, line: seq<byte>, hidden: bool, n: nat)
    requires x < NUM_COLS && y < NUM_ROWS && |line| <= Offset(x, y) && 0 !in line
    ensures (forall v :: Shows(v, x, y, line, hidden) ==> Shows(ScrolledTimes(v, n), x, y, line, hidden))
            <==> n == 0 || line == []
  {
    if n > 0 && line != [] {
      var v := SpoiledPage(x, y, line, hidden, n);
      assert Shows(v, x, y, line, hidden);
    }
  }

  /** The last character of the line is replaced by what stood below it, or by the blank row. */
  lemma SpoiledPage(x: nat, y: nat, line: seq<byte>, hidden: bool, n: nat) returns (v: seq<byte>)
    requires x < NUM_COLS && y < NUM_ROWS && 0 < |line| <= Offset(x, y) && 0 !in line && n > 0
    ensures Shows(v, x, y, line, hidden) && !Shows(ScrolledTimes(v, n), x, y, line, hidden)
  {
    var end := Offset(x, y);
    var at := end - |line|;
    v := seq<byte>(CELLS, k requires 0 <= k < CELLS =>
      var b: byte := if at <= k < end then Glyph(line[k - at], hidden) else 0; b);
    assert line[|line| - 1] in line;
    ScrolledCell(v, n, end - 1);
    assert ScrolledTimes(v, n)[end - 1] == 0;
    assert ScrolledTimes(v, n)[end - |line| + (|line| - 1)] == 0;
  }

  /** The echo of a character leaves the shown terminal's line and the running terminal's own one right
      on every pair of pages exactly when they are one terminal, or the key does not wrap the last row, or
      it is the first of its line and the running terminal has no line on its page. */
  lemma EchoExactly(x: nat, y: nat, line: seq<byte>, c: byte, hidden: bool, own: bool,
                    rx: nat, ry: nat, rline: seq<byte>, rhidden: bool)
    requires x < NUM_COLS && y < NUM_ROWS && |line| < BUF_SIZE && |line| <= Offset(x, y)
    requires rx < NUM_COLS && ry < NUM_ROWS && |rline| <= Offset(rx, ry) && 0 !in rline
    ensures (forall v, w :: Shows(v, x, y, line, hidden) && Shows(w, rx, ry, rline, rhidden) ==>
               EchoRight(v, x, y, line, c, hidden, own) && (own || RunningRight(w, x, y, rx, ry, rline, rhidden)))
            <==> (own || !WrapsAtBottom(x, y) || (line == [] && rline == []))
  {
    if own || !WrapsAtBottom(x, y) || (line == [] && rline == []) {
      forall v, w | Shows(v, x, y, line, hidden) && Shows(w, rx, ry, rline, rhidden)
        ensures EchoRight(v, x, y, line, c, hidden, own) && (own || RunningRight(w, x, y, rx, ry, rline, rhidden))
      {
        EchoShows(Cells(v, x, y), line, c, hidden, own);
      }
    } else {
      var v, w;
      if line != [] { v := EchoWrongPage(line, c, hidden); } else { v := ShownPage(x, y, line, hidden); }
      if rline != [] { w := SpoiledPage(rx, ry, rline, rhidden, 1); } else { w := ShownPage(rx, ry, rline, rhidden); }
      assert Shows(v, x, y, line, hidden) && Shows(w, rx, ry, rline, rhidden);
      assert ScrolledTimes(w, 1) == ScrolledTimes(Scrolled(w), 0);
    }
  }

  ghost predicate EchoRight(v: seq<byte>, x: nat, y: nat, line: seq<byte>, c: byte, hidden: bool, own: bool)
    requires |v| == CELLS && x < NUM_COLS && y < NUM_ROWS
  {
    var t := Echo(Cells(v, x, y), c, hidden, own);
    Shows(t.v, t.x, t.y, line + [c], hidden)
  }

  /** The running terminal's page `w`, after the shown cursor at `x`, `y` has moved on. */
  ghost predicate RunningRight(w: seq<byte>, x: nat, y: nat, rx: nat, ry: nat, rline: seq<byte>, rhidden: bool)
    requires |w| == CELLS
  {
    Shows(if WrapsAtBottom(x, y) then Scrolled(w) else w, rx, ry, rline, rhidden)
  }

  lemma ShownPage(x: nat, y: nat, line: seq<byte>, hidden: bool) returns (v: seq<byte>)
    requires x < NUM_COLS && y < NUM_ROWS && |line| <= Offset(x, y)
    ensures Shows(v, x, y, line, hidden)
  {
    var at := Offset(x, y) - |line|;
    v := seq<byte>(CELLS, k requires 0 <= k < CELLS =>
      var b: byte := if at <= k < Offset(x, y) then Glyph(line[k - at], hidden) else 0; b);
  }

  /** Backspace: the cell before the cursor is cleared and the cursor moves back, over a row end if
      need be. */
  function Erase(s: Cells): Cells
    requires |s.v| == CELLS && s.x < NUM_COLS && s.y < NUM_ROWS && Offset(s.x, s.y) > 0
  {
    Cells(s.v[Offset(s.x, s.y) - 1 := 0],
          if s.x == 0 then NUM_COLS - 1 else s.x - 1, if s.x == 0 then s.y - 1 else s.y)
  }

  lemma EraseShows(s: Cells, line: seq<byte>, hidden: bool)
    requires Shows(s.v, s.x, s.y, line, hidden) && line != []
    ensures var t := Erase(s); Shows(t.v, t.x, t.y, line[..|line| - 1], hidden)
    ensures Erase(s).x < NUM_COLS && Erase(s).y < NUM_ROWS
  {
  }

  /** The cursor moves to the next row; on the last one it stays there and the page scrolls, if it is
      this one that does. */
  function BreakRow(s: Cells, own: bool): (t: Cells)
    requires |s.v| == CELLS && s.y < NUM_ROWS
    ensures |t.v| == CELLS
  {
    if s.y + 1 < NUM_ROWS then Cells(s.v, 0, s.y + 1) else Cells(if own then Scrolled(s.v) else s.v, 0, s.y)
  }

  /** What a key does to the page of the terminal it goes to and to that terminal's cursor; `cnt` is the
      length of its line. */
  function ScreenStep(s: Cells, cnt: nat, reading: bool, key: Key, hidden: bool, own: bool): (t: Cells)
    requires |s.v| == CELLS && s.x < NUM_COLS && s.y < NUM_ROWS && (reading ==> cnt <= Offset(s.x, s.y))
    ensures |t.v| == CELLS
  {
    match key
    case CtrlL => Cells(seq(CELLS, _ => SPACE), 0, 0)
    case Char(c) =>
      if !reading then s
      else if c == ENTER then BreakRow(s, own)
      else if c == BACKSPACE then if cnt == 0 then s else Erase(s)
      else if cnt + 1 == BUF_SIZE then BreakRow(Echo(s, c, hidden, own), own)
      else Echo(s, c, hidden, own)
  }

  /** Backspace undoes the echo: the cursor is where it was, one row higher if the page has scrolled, and
      the character's cell, which may have held something before, holds 0. */
  lemma EraseUndoesEcho(s: Cells, c: byte, hidden: bool, own: bool)
    requires |s.v| == CELLS && s.x < NUM_COLS && s.y < NUM_ROWS
    ensures var t := Echo(s, c, hidden, own);
            && Offset(t.x, t.y) > 0
            && Erase(t) == if s.x == 79 && s.y == 23 then Cells((if own then Scrolled(s.v) else s.v)[22 * 80 + 79 := 0], 79, 22)
                           else Cells(s.v[s.y * 80 + s.x := 0], s.x, s.y)
  {
    var t := Echo(s, c, hidden, own);
    assert Erase(t).v[..] == if s.x == 79 && s.y == 23 then (if own then Scrolled(s.v) else s.v)[22 * 80 + 79 := 0]
                             else s.v[s.y * 80 + s.x := 0];
  }

  /** Ctrl-L fills the page with spaces and puts the cursor into its corner, whether or not the terminal
      reads; no other key does anything then. */
  lemma KeysWithoutRead(s: Cells, cnt: nat, key: Key, hidden: bool, own: bool)
    requires |s.v| == CELLS && s.x < NUM_COLS && s.y < NUM_ROWS
    ensures ScreenStep(s, cnt, false, key, hidden, own) ==
            if key.CtrlL? then Cells(seq(24 * 80, _ => 32), 0, 0) else s
  {
  }

  /** Where a terminal's cursor is, how long its line is, and whether it reads. */
  datatype Cursor = Cursor(x: nat, y: nat, cnt: nat, reading: bool)

  function NextRow(y: nat): nat { if y + 1 < NUM_ROWS then y + 1 else y }

  /** What a key does to that. */
  function CursorStep(c: Cursor, key: Key): Cursor {
    if key.CtrlL? then Cursor(0, 0, 0, false)
    else if !c.reading then c
    else if key.c == ENTER then Cursor(0, NextRow(c.y), c.cnt, false)
    else if key.c == BACKSPACE then
      if c.cnt == 0 then c
      else if c.x == 0 && c.y != 0 then Cursor(NUM_COLS - 1, c.y - 1, c.cnt - 1, true)
      else if c.x == 0 then c
      else Cursor(c.x - 1, c.y, c.cnt - 1, true)
    else
      var e := EchoPlace(c);
      if e.cnt == BUF_SIZE then Cursor(0, NextRow(e.y), e.cnt, false) else e
  }

  function EchoPlace(c: Cursor): Cursor {
    var y := if c.x + 1 == NUM_COLS then NextRow(c.y) else c.y;
    Cursor(if c.x + 1 == NUM_COLS then 0 else c.x + 1, y, c.cnt + 1, c.reading)
  }

  // ---- the terminal in memory ----

  class Term {
    const buf: array<byte>
    const video: array<byte>
    var cnt: nat
    var readOn: bool
    var x: nat
    var y: nat

    ghost predicate Valid()
      reads this
    {
      && buf.Length == BUF_SIZE && video.Length == CELLS && buf != video
      && x < NUM_COLS && y < NUM_ROWS && cnt <= BUF_SIZE
      && (readOn ==> cnt < BUF_SIZE && cnt <= Offset(x, y))
    }

    ghost function Line(): Edit
      requires Valid()
      reads this, buf
    {
      Edit(buf[..cnt], readOn)
    }

    ghost function Place(): Cursor
      reads this
    {
      Cursor(x, y, cnt, readOn)
    }

    ghost function Page(): Cells
      reads this, video
    {
      Cells(video[..], x, y)
    }

    ghost predicate ShowsLine(hidden: bool)
      requires Valid()
      reads this, buf, video
    {
      Shows(video[..], x, y, buf[..cnt], hidden)
    }

    constructor ()
      ensures Valid() && !readOn && x == 0 && y == 0 && fresh(buf) && fresh(video)
    {
      buf := new byte[BUF_SIZE](_ => 0);
      video := new byte[CELLS](_ => SPACE);
      cnt, readOn, x, y := 0, false, 0, 0;
    }

    /** The start of `terminal_read`: an empty line, wherever the cursor is. */
    method StartRead()
      requires Valid()
      modifies this`readOn, this`cnt, buf
      ensures Valid() && Line() == Edit([], true) && forall i :: 0 <= i < BUF_SIZE ==> buf[i] == 32
      ensures forall hidden :: ShowsLine(hidden)
    {
      readOn := true;
      cnt := 0;
      for i := 0 to BUF_SIZE
        modifies buf
        invariant forall k :: 0 <= k < i ==> buf[k] == SPACE
      {
        buf[i] := SPACE;
      }
    }

    /** The rest of `terminal_read`, when the read has been ended: `dest` has room for `cap` bytes. */
    method FinishRead(dest: array<byte>, cap: nat) returns (n: nat)
      requires Valid() && dest != buf
      requires ReadLength(cnt, cap) < dest.Length
      modifies dest, buf
      ensures Valid() && n == ReadLength(cnt, cap)
      ensures dest[..n] == old(buf[..cnt])[..n] && dest[n] == 0
      ensures forall k :: n < k < dest.Length ==> dest[k] == old(dest[k])
      ensures forall i :: 0 <= i < BUF_SIZE ==> buf[i] == 0
    {
      n := if cnt <= cap || cnt < BUF_SIZE then cnt else cap;
      forall i | 0 <= i < n { dest[i] := buf[i]; }
      dest[n] := 0;
      forall i | 0 <= i < BUF_SIZE { buf[i] := 0; }
    }
  }

  /** The key makes the shown terminal scroll and goes on with the line. */
  predicate ScrollsLine(key: Key, x: nat, y: nat) {
    key.Char? && key.c != BACKSPACE && WrapsAtBottom(x, y)
  }

  /** How often a key during a read makes `scroll_screen` run: for Enter or a wrap in the last row, and
      once more when the line is full there. */
  function Scrolls(key: Key, cnt: nat, x: nat, y: nat): (n: nat) {
    if key.CtrlL? || key.c == BACKSPACE then 0
    else if key.c == ENTER then if y + 1 == NUM_ROWS then 1 else 0
    else
      (if WrapsAtBottom(x, y) then 1 else 0)
      + if cnt + 1 == BUF_SIZE && (y + 1 == NUM_ROWS || (x + 1 == NUM_COLS && y + 2 == NUM_ROWS)) then 1 else 0
  }

  /** The cursor is where the page's is, and counts and reads as the line does. */
  lemma CursorFollows(s: Cells, e: Edit, key: Key, hidden: bool, own: bool)
    requires |s.v| == CELLS && s.x < NUM_COLS && s.y < NUM_ROWS
    requires e.reading ==> |e.line| < BUF_SIZE && |e.line| <= Offset(s.x, s.y)
    ensures var c := CursorStep(Cursor(s.x, s.y, |e.line|, e.reading), key);
            var t := ScreenStep(s, |e.line|, e.reading, key, hidden, own);
            (c.x, c.y) == (t.x, t.y) && c.cnt == |EditStep(e, key).line| && c.reading == EditStep(e, key).reading
  {
  }

  /** Every new row that a key begins is one the cursor moves down or one the page scrolls: Enter begins
      one, and so do a character in the last column and one that fills the line. */
  lemma ScrollsAccount(c: Cursor, key: Key)
    requires c.x < 80 && c.y < 24 && c.reading && c.cnt < 128
    ensures key == CtrlL || key == Char(8) ==> Scrolls(key, c.cnt, c.x, c.y) == 0
    ensures key != CtrlL && key != Char(8) ==>
      c.y + (if key == Char(10) then 1 else (if c.x == 79 then 1 else 0) + (if c.cnt == 127 then 1 else 0))
      == CursorStep(c, key).y + Scrolls(key, c.cnt, c.x, c.y)
  {
  }

  /** The keyboard handler after decoding. The cells written belong to the shown terminal, the page
      that scrolls to the running one. By ScrollKeepsLine the running terminal's own line survives on
      every page exactly if nothing scrolls or it has none. */
  method Kbd(shown: Term, running: Term, key: Key, hidden: bool)
    requires shown.Valid() && running.Valid()
    requires shown == running || (running.video != shown.video && running.video != shown.buf)
    requires key.Char? ==> key.c != 0 && key.c != 255
    modifies shown, shown.buf, shown.video, running.video
    ensures shown.Valid() && shown.Line() == EditStep(old(shown.Line()), key)
    ensures shown.Place() == CursorStep(old(shown.Place()), key)
    ensures shown.Page() == old(ScreenStep(shown.Page(), shown.cnt, shown.readOn, key, hidden, shown == running))
    ensures shown.buf[..] == old(BufferStep(shown.buf[..], shown.cnt, shown.readOn, key))
    ensures old(shown.readOn && shown.ShowsLine(hidden)) && shown.readOn
            && (shown == running || !old(ScrollsLine(key, shown.x, shown.y)) || old(shown.cnt) == 0)
            ==> shown.ShowsLine(hidden)
    ensures shown != running ==>
      running.video[..] == ScrolledTimes(old(running.video[..]), if old(shown.readOn) then old(Scrolls(key, shown.cnt, shown.x, shown.y)) else 0)
  {
    match key
    case CtrlL =>
      ClearKey(shown);
    case Char(c) =>
      if shown.readOn {
        FewScrolls(running.video[..]);
        if c == ENTER {
          EndLine(shown, running);
        } else if c == BACKSPACE {
          EraseKey(shown, hidden);
        } else {
          TextKey(shown, running, c, hidden);
        }
      }
  }

  lemma FewScrolls(v: seq<byte>)
    requires |v| == CELLS
    ensures ScrolledTimes(v, 0) == v && ScrolledTimes(v, 1) == Scrolled(v) && ScrolledTimes(v, 2) == Scrolled(Scrolled(v))
  {
    assert ScrolledTimes(Scrolled(v), 1) == ScrolledTimes(Scrolled(Scrolled(v)), 0);
  }

  /** An ordinary character, and the end of the read when it fills the line. */
  method TextKey(shown: Term, running: Term, c: byte, hidden: bool)
    requires shown.Valid() && running.Valid() && shown.readOn && c != ENTER && c != BACKSPACE
    requires shown == running || (running.video != shown.video && running.video != shown.buf)
    modifies shown, shown.buf, shown.video, running.video
    ensures shown.Valid() && shown.Line() == EditStep(old(shown.Line()), Char(c))
    ensures shown.Place() == CursorStep(old(shown.Place()), Char(c))
    ensures shown.Page() == old(ScreenStep(shown.Page(), shown.cnt, true, Char(c), hidden, shown == running))
    ensures shown.buf[..] == old(shown.buf[..][shown.cnt := c])
    ensures old(shown.ShowsLine(hidden)) && shown.readOn
            && (shown == running || !old(WrapsAtBottom(shown.x, shown.y)) || old(shown.cnt) == 0)
            ==> shown.ShowsLine(hidden)
    ensures shown != running ==>
      running.video[..] == ScrolledTimes(old(running.video[..]), old(Scrolls(Char(c), shown.cnt, shown.x, shown.y)))
  {
    hide Scrolled, ScrolledTimes, Shows, Echo;
    ghost var s := Cells(shown.video[..], shown.x, shown.y);
    ghost var line, other := shown.buf[..shown.cnt], running.video[..];
    FewScrolls(other);
    EchoKey(shown, running, c, hidden);
    if old(shown.ShowsLine(hidden)) && (shown == running || !WrapsAtBottom(s.x, s.y) || line == []) {
      EchoShows(s, line, c, hidden, shown == running);
    }
    if shown.cnt == BUF_SIZE {
      EndLine(shown, running);
    }
  }

  /** The cursor moves to the next row, and the read ends. */
  method EndLine(shown: Term, running: Term)
    requires shown.buf.Length == BUF_SIZE && shown.video.Length == CELLS == running.video.Length && shown.buf != shown.video
    requires shown == running || shown.video != running.video
    requires shown.y < NUM_ROWS && shown.cnt <= BUF_SIZE
    modifies shown`x, shown`y, shown`readOn, running.video
    ensures shown.Valid() && shown.Place() == old(Cursor(0, NextRow(shown.y), shown.cnt, false))
    ensures shown.video[..] == old(BreakRow(shown.Page(), shown == running).v)
    ensures running.video[..] == old(if shown.y + 1 < NUM_ROWS then running.video[..] else Scrolled(running.video[..]))
  {
    NewLine(shown, running);
    shown.readOn := false;
  }

  /** `clear_key` and the lines around it: blank screen, empty line, and the read ends. */
  method ClearKey(t: Term)
    requires t.Valid()
    modifies t, t.buf, t.video
    ensures t.Valid() && t.Line() == Edit([], false) && t.x == t.y == 0
    ensures forall k :: 0 <= k < CELLS ==> t.video[k] == SPACE
    ensures t.buf[..] == seq(BUF_SIZE, _ => SPACE)
  {
    for i := 0 to CELLS
      modifies t.video
      invariant forall k :: 0 <= k < i ==> t.video[k] == SPACE
    {
      t.video[i] := SPACE;
    }
    t.x, t.y := 0, 0;
    for i := 0 to BUF_SIZE
      modifies t.buf
      invariant forall k :: 0 <= k < i ==> t.buf[k] == SPACE
    {
      t.buf[i] := SPACE;
    }
    t.cnt := 0;
    t.readOn := false;
  }

  method NewLine(shown: Term, running: Term)
    requires shown.buf.Length == BUF_SIZE && shown.video.Length == CELLS == running.video.Length
    requires shown.y < NUM_ROWS
    modifies shown`x, shown`y, running.video
    ensures shown.x == 0 && shown.y == if old(shown.y) + 1 < NUM_ROWS then old(shown.y) + 1 else old(shown.y)
    ensures running.video[..] == old(if shown.y + 1 < NUM_ROWS then running.video[..] else Scrolled(running.video[..]))
  {
    shown.y := shown.y + 1;
    shown.x := 0;
    if shown.y == NUM_ROWS {
      shown.y := shown.y - 1;
      ScrollScreen(running.video);
    }
  }

  method EraseKey(t: Term, hidden: bool)
    requires t.Valid() && t.readOn
    modifies t`x, t`y, t`cnt, t.buf, t.video
    ensures t.Valid() && t.Line() == EditStep(old(t.Line()), Char(BACKSPACE))
    ensures t.Place() == CursorStep(old(t.Place()), Char(BACKSPACE))
    ensures t.Page() == old(if t.cnt == 0 then t.Page() else Erase(t.Page()))
    ensures t.buf[..] == old(if t.cnt == 0 then t.buf[..] else t.buf[..][t.cnt := 0])
    ensures old(t.ShowsLine(hidden)) ==> t.ShowsLine(hidden)
  {
    if t.cnt > 0 {
      ghost var s := Cells(t.video[..], t.x, t.y);
      ghost var line := t.buf[..t.cnt];
      t.buf[t.cnt] := 0;
      t.cnt := t.cnt - 1;
      assert t.buf[..t.cnt] == line[..|line| - 1];
      t.video[Offset(t.x, t.y) - 1] := 0;
      if t.x == 0 && t.y != 0 {
        t.x := NUM_COLS - 1;
        t.y := t.y - 1;
      } else {
        t.x := t.x - 1;
      }
      assert Cells(t.video[..], t.x, t.y) == Erase(s);
      if old(t.ShowsLine(hidden)) { EraseShows(s, line, hidden); }
    }
  }

  method EchoKey(shown: Term, running: Term, c: byte, hidden: bool)
    requires shown.Valid() && running.Valid() && shown.readOn
    requires shown == running || (running.video != shown.video && running.video != shown.buf)
    modifies shown`x, shown`y, shown`cnt, shown.buf, shown.video, running.video
    ensures shown.Place() == EchoPlace(old(shown.Place())) && shown.buf[..shown.cnt] == old(shown.buf[..shown.cnt]) + [c]
    ensures shown.buf[..] == old(shown.buf[..][shown.cnt := c])
    ensures Cells(shown.video[..], shown.x, shown.y)
            == old(Echo(Cells(shown.video[..], shown.x, shown.y), c, hidden, shown == running))
    ensures shown != running ==>
      running.video[..] == old(if WrapsAtBottom(shown.x, shown.y) then Scrolled(running.video[..]) else running.video[..])
  {
    ghost var s := Cells(shown.video[..], shown.x, shown.y);
    ghost var line := shown.buf[..shown.cnt];
    shown.buf[shown.cnt] := c;
    shown.cnt := shown.cnt + 1;
    shown.x := shown.x + 1;
    if shown.x == NUM_COLS {
      NewLine(shown, running);
    }
    hide Scrolled;
    ghost var own := shown == running;
    assert shown.video[..] == if WrapsAtBottom(s.x, s.y) && own then Scrolled(s.v) else s.v;
    shown.video[Offset(shown.x, shown.y) - 1] := Glyph(c, hidden);
    assert Cells(shown.video[..], shown.x, shown.y) == Echo(s, c, hidden, own);
    assert shown.buf[..shown.cnt] == line + [c];
  }

  /** Three terminals with storage of their own. */
  ghost predicate Apart(t: Term, a: Term, b: Term) {
    && t != a && t != b && a != b
    && t.buf != a.buf && t.buf != b.buf && a.buf != b.buf
    && t.video != a.video && t.video != b.video && a.video != b.video
    && t.buf != a.video && t.buf != b.video && a.buf != t.video && a.buf != b.video && b.buf != t.video && b.buf != a.video
  }

  datatype Which = Own | First | Second

  /** A key, with the terminals shown and running when it arrives. */
  datatype Stroke = Stroke(shown: Which, running: Which, key: Key)

  /** The keys that went to the reading terminal. */
  function OwnKeys(strokes: seq<Stroke>): (keys: seq<Key>)
    decreases |strokes|
  {
    if strokes == [] then []
    else
      var last := strokes[|strokes| - 1];
      OwnKeys(strokes[..|strokes| - 1]) + if last.shown == Own then [last.key] else []
  }

  lemma OneMoreStroke(strokes: seq<Stroke>, i: nat)
    requires i < |strokes|
    ensures EditKeys(Edit([], true), OwnKeys(strokes[..i + 1])) ==
            var before := EditKeys(Edit([], true), OwnKeys(strokes[..i]));
            if strokes[i].shown == Own then EditStep(before, strokes[i].key) else before
  {
    var before, after := OwnKeys(strokes[..i]), OwnKeys(strokes[..i + 1]);
    assert strokes[..i + 1][..i] == strokes[..i];
    if strokes[i].shown == Own {
      assert after[..|before|] == before && after[..|after|] == after;
      EditOneMore(Edit([], true), after, |before|);
    } else {
      assert after == before;
    }
  }

  datatype Cursors = Cursors(own: Cursor, first: Cursor, second: Cursor)

  function CursorOf(cs: Cursors, which: Which): Cursor {
    match which
    case Own => cs.own
    case First => cs.first
    case Second => cs.second
  }

  function CursorsStep(cs: Cursors, stroke: Stroke): Cursors {
    match stroke.shown
    case Own => cs.(own := CursorStep(cs.own, stroke.key))
    case First => cs.(first := CursorStep(cs.first, stroke.key))
    case Second => cs.(second := CursorStep(cs.second, stroke.key))
  }

  function CursorsAfter(cs: Cursors, strokes: seq<Stroke>): Cursors
    decreases |strokes|
  {
    if strokes == [] then cs
    else CursorsStep(CursorsAfter(cs, strokes[..|strokes| - 1]), strokes[|strokes| - 1])
  }

  /** A key that keeps the reader's line right on every page: one of its own that does not make another
      terminal's page scroll instead of its own, or one for another terminal that does not scroll its
      page, or any as long as there is no line. */
  predicate Harmless(cs: Cursors, stroke: Stroke) {
    || cs.own.cnt == 0
    || (stroke.shown == Own && (stroke.running == Own || !ScrollsLine(stroke.key, cs.own.x, cs.own.y)))
    || (stroke.shown != Own && (stroke.running != Own || ScrollsAt(CursorOf(cs, stroke.shown), stroke.key) == 0))
  }

  /** How often a key for a terminal in this state scrolls the running terminal's page. */
  function ScrollsAt(c: Cursor, key: Key): nat { if c.reading then Scrolls(key, c.cnt, c.x, c.y) else 0 }

  /** The reader's page and cursor after a key for any terminal. */
  function OwnPage(v: seq<byte>, cs: Cursors, stroke: Stroke, hidden: bool): (t: Cells)
    requires |v| == CELLS && OnScreen(cs.own)
  {
    if stroke.shown == Own then
      ScreenStep(Cells(v, cs.own.x, cs.own.y), cs.own.cnt, cs.own.reading, stroke.key, hidden, stroke.running == Own)
    else
      Cells(ScrolledTimes(v, if stroke.running == Own then ScrollsAt(CursorOf(cs, stroke.shown), stroke.key) else 0),
            cs.own.x, cs.own.y)
  }

  predicate OnScreen(c: Cursor) {
    c.x < NUM_COLS && c.y < NUM_ROWS && (c.reading ==> c.cnt < BUF_SIZE && c.cnt <= Offset(c.x, c.y))
  }

  /** A key after which the read goes on keeps the line right on every page exactly if it is harmless. */
  lemma HarmlessExactly(cs: Cursors, stroke: Stroke, line: seq<byte>, hidden: bool)
    requires OnScreen(cs.own) && cs.own.reading && |line| == cs.own.cnt && 0 !in line
    requires stroke.shown == Own ==> EditStep(Edit(line, true), stroke.key).reading
    ensures Harmless(cs, stroke) <==>
            forall v :: Shows(v, cs.own.x, cs.own.y, line, hidden) ==> StaysRight(v, cs, stroke, line, hidden)
  {
    var x, y := cs.own.x, cs.own.y;
    if stroke.shown != Own {
      OtherKeyExactly(cs, stroke, line, hidden);
    } else if Harmless(cs, stroke) {
      hide Harmless, Shows, Erase, Echo;
      forall v | Shows(v, x, y, line, hidden) ensures StaysRight(v, cs, stroke, line, hidden) {
        OwnKeyRight(v, cs, stroke, line, hidden);
      }
    } else {
      var v := EchoWrongPage(line, stroke.key.c, hidden);
      assert Shows(v, x, y, line, hidden) && !StaysRight(v, cs, stroke, line, hidden);
    }
  }

  ghost predicate StaysRight(v: seq<byte>, cs: Cursors, stroke: Stroke, line: seq<byte>, hidden: bool)
    requires |v| == CELLS && OnScreen(cs.own)
  {
    var t := OwnPage(v, cs, stroke, hidden);
    Shows(t.v, t.x, t.y, if stroke.shown == Own then EditStep(Edit(line, true), stroke.key).line else line, hidden)
  }

  lemma OwnKeyRight(v: seq<byte>, cs: Cursors, stroke: Stroke, line: seq<byte>, hidden: bool)
    requires OnScreen(cs.own) && cs.own.reading && |line| == cs.own.cnt && |v| == CELLS
    requires stroke.shown == Own && EditStep(Edit(line, true), stroke.key).reading && Harmless(cs, stroke)
    requires Shows(v, cs.own.x, cs.own.y, line, hidden)
    ensures StaysRight(v, cs, stroke, line, hidden)
  {
    var s := Cells(v, cs.own.x, cs.own.y);
    if stroke.key.c != BACKSPACE {
      EchoShows(s, line, stroke.key.c, hidden, stroke.running == Own);
    } else if line != [] {
      EraseShows(s, line, hidden);
    }
    hide Shows, Echo, Erase;
  }

  lemma OtherKeyExactly(cs: Cursors, stroke: Stroke, line: seq<byte>, hidden: bool)
    requires OnScreen(cs.own) && |line| == cs.own.cnt && |line| <= Offset(cs.own.x, cs.own.y) && 0 !in line && stroke.shown != Own
    ensures Harmless(cs, stroke) <==>
            forall v :: Shows(v, cs.own.x, cs.own.y, line, hidden) ==> StaysRight(v, cs, stroke, line, hidden)
  {
    var n := if stroke.running == Own then ScrollsAt(CursorOf(cs, stroke.shown), stroke.key) else 0;
    ScrollKeepsLine(cs.own.x, cs.own.y, line, hidden, n);
    hide ScrollsAt, ScrolledTimes;
  }

  ghost predicate AllHarmless(cs: Cursors, strokes: seq<Stroke>, n: nat)
    requires n <= |strokes|
  {
    forall k :: 0 <= k < n ==> Harmless(CursorsAfter(cs, strokes[..k]), strokes[k])
  }

  ghost function CursorsOf(t: Term, a: Term, b: Term): Cursors
    reads t, a, b
  {
    Cursors(t.Place(), a.Place(), b.Place())
  }

  /** The line is `line`, and `got` is as much of it as is copied. */
  ghost predicate Delivered(line: seq<byte>, got: seq<byte>, cap: nat) {
    |line| <= BUF_SIZE && got == line[..ReadLength(|line|, cap)]
  }

  /** A whole read on terminal `t`: `strokes` are all keys from its start until the reader runs again,
      while any terminal may be shown and any may be running. As long as no key has ended the read, its
      screen shows the line before the cursor, if every key was harmless where the cursors then were. The
      caller gets the line as its own keys have left it, cut only as ReadLength says. */
  method TerminalRead(t: Term, a: Term, b: Term, strokes: seq<Stroke>, hidden: bool, dest: array<byte>, cap: nat)
    returns (n: int)
    requires t.Valid() && a.Valid() && b.Valid() && Apart(t, a, b) && dest.Length > BUF_SIZE
    requires dest !in {t.buf, t.video, a.buf, a.video, b.buf, b.video}
    requires forall k :: 0 <= k < |strokes| && strokes[k].key.Char? ==> strokes[k].key.c != 0 && strokes[k].key.c != 255
    modifies t, t.buf, t.video, a, a.buf, a.video, b, b.buf, b.video, dest
    ensures t.Valid() && a.Valid() && b.Valid()
    ensures n == -1 <==> EditKeys(Edit([], true), OwnKeys(strokes)).reading
    ensures n == -1 ==> t.Line() == EditKeys(Edit([], true), OwnKeys(strokes)) && unchanged(dest)
    ensures CursorsOf(t, a, b) == CursorsAfter(old(Cursors(Cursor(t.x, t.y, 0, true), a.Place(), b.Place())), strokes)
    ensures n == -1 && AllHarmless(old(Cursors(Cursor(t.x, t.y, 0, true), a.Place(), b.Place())), strokes, |strokes|)
            ==> t.ShowsLine(hidden)
    ensures n != -1 ==> 0 <= n < dest.Length && dest[n] == 0
                        && Delivered(EditKeys(Edit([], true), OwnKeys(strokes)).line, dest[..n], cap)
                        && forall k :: n < k < dest.Length ==> dest[k] == old(dest[k])
  {
    hide EditKeys, EditStep, Shows, ScrolledTimes, Harmless, CursorStep, CursorsStep, OwnPage;
    t.StartRead();
    ghost var start := CursorsOf(t, a, b);
    StartStrokes(strokes, start);
    var i := 0;
    while i < |strokes|
      invariant 0 <= i <= |strokes| && t.Valid() && a.Valid() && b.Valid()
      invariant t.Line() == EditKeys(Edit([], true), OwnKeys(strokes[..i]))
      invariant CursorsOf(t, a, b) == CursorsAfter(start, strokes[..i])
      invariant unchanged(dest)
      invariant t.readOn && AllHarmless(start, strokes, i) ==> t.ShowsLine(hidden)
    {
      OneMoreStroke(strokes, i);
      assert strokes[..i + 1][..i] == strokes[..i];
      KeyFor(t, a, b, strokes[i], hidden);
      i := i + 1;
    }
    assert strokes[..i] == strokes;
    if t.readOn {
      return -1;
    }
    ghost var line := t.buf[..t.cnt];
    n := t.FinishRead(dest, cap);
    assert dest[..n] == line[..n];
  }

  lemma StartStrokes(strokes: seq<Stroke>, cs: Cursors)
    ensures OwnKeys(strokes[..0]) == [] && EditKeys(Edit([], true), []) == Edit([], true)
    ensures CursorsAfter(cs, strokes[..0]) == cs
  {
  }

  /** One key, seen from terminal `t`. */
  method KeyFor(t: Term, a: Term, b: Term, stroke: Stroke, hidden: bool)
    requires t.Valid() && a.Valid() && b.Valid() && Apart(t, a, b)
    requires stroke.key.Char? ==> stroke.key.c != 0 && stroke.key.c != 255
    modifies t, t.buf, t.video, a, a.buf, a.video, b, b.buf, b.video
    ensures t.Valid() && a.Valid() && b.Valid()
    ensures t.Line() == if stroke.shown == Own then EditStep(old(t.Line()), stroke.key) else old(t.Line())
    ensures CursorsOf(t, a, b) == CursorsStep(old(CursorsOf(t, a, b)), stroke)
    ensures t.Page() == old(OwnPage(t.video[..], CursorsOf(t, a, b), stroke, hidden))
    ensures t.readOn ==> old(t.readOn)
    ensures old(t.ShowsLine(hidden)) && t.readOn && Harmless(old(CursorsOf(t, a, b)), stroke) ==> t.ShowsLine(hidden)
  {
    hide Shows, EditStep, ScrollsAt, ScrollsLine, CursorStep, ScreenStep, BufferStep;
    var running := match stroke.running case Own => t case First => a case Second => b;
    match stroke.shown {
      case Own =>
        NoReadStarts(t.Line(), stroke.key);
        Kbd(t, running, stroke.key, hidden);
      case First => KeyElsewhere(t, a, running, stroke.key, hidden);
      case Second => KeyElsewhere(t, b, running, stroke.key, hidden);
    }
  }

  /** A key for another terminal: it can only scroll the page of `t`, if `t` is running. */
  method KeyElsewhere(t: Term, shown: Term, running: Term, key: Key, hidden: bool)
    requires t.Valid() && shown.Valid() && running.Valid() && shown != t && t.buf !in {shown.buf, shown.video, running.video}
    requires t.video != shown.video && t.video != shown.buf && (running == t || running.video != t.video)
    requires shown == running || (running.video != shown.video && running.video != shown.buf)
    requires key.Char? ==> key.c != 0 && key.c != 255
    modifies shown, shown.buf, shown.video, running.video
    ensures shown.Valid() && shown.Place() == CursorStep(old(shown.Place()), key)
    ensures t.video[..] == old(ScrolledTimes(t.video[..], if running == t then ScrollsAt(shown.Place(), key) else 0))
    ensures old(t.ShowsLine(hidden)) && (t.cnt == 0 || running != t || old(ScrollsAt(shown.Place(), key)) == 0) ==> t.ShowsLine(hidden)
  {
    hide Shows, EditStep, Scrolls, ScrolledTimes, ScrollsLine, CursorStep, ScreenStep, BufferStep;
    NotScrolled(t.video[..]);
    if t.cnt == 0 { EmptyLineShown(t, hidden); }
    Kbd(shown, running, key, hidden);
  }

  lemma NotScrolled(v: seq<byte>)
    requires |v| == CELLS
    ensures ScrolledTimes(v, 0) == v
  {
  }

  lemma NoReadStarts(e: Edit, key: Key)
    ensures EditStep(e, key).reading ==> e.reading
  {
  }

  /** With an empty line there is nothing to be shown. */
  lemma EmptyLineShown(t: Term, hidden: bool)
    requires t.Valid() && t.cnt == 0
    ensures forall v :: |v| == CELLS ==> Shows(v, t.x, t.y, t.buf[..t.cnt], hidden)
  {
  }

  /** How many bytes `terminal_read` copies for a line of `cnt` bytes; a NUL follows them. */
  function ReadLength(cnt: nat, cap: nat): nat { if cnt <= cap || cnt < BUF_SIZE then cnt else cap }

  /** The copy and its NUL stay within the caller's `cap` bytes exactly when the line is shorter than
      that, and the whole line is returned to every caller that asks for at least 127 bytes. */
  lemma ReadFits(cnt: nat, cap: nat)
    requires cnt <= BUF_SIZE
    ensures ReadLength(cnt, cap) + 1 <= cap <==> cnt < cap
    ensures ReadLength(cnt, cap) == cnt <==> cnt < BUF_SIZE || BUF_SIZE <= cap
  {
  }
}
