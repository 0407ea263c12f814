/**
 `do_one_file` of syscalls/ece391grep.c: a line search over a 1024-byte buffer that is refilled from
 the file, with the unfinished last line moved to the front each time.
 */
module Grep {
  import opened Common
  import opened FileSystem
  import opened Descriptors
  import opened Streams

  const BUFSIZE := 1024

  /** The first newline at or after `i`, or the end. */
  function LineEnd(f: seq<byte>, i: nat): (n: nat)
    requires i <= |f|
    ensures i <= n <= |f| && (n < |f| ==> f[n] == NEWLINE)
    ensures forall j :: i <= j < n ==> f[j] != NEWLINE
    decreases |f| - i
  {
    if i == |f| || f[i] == NEWLINE then i else LineEnd(f, i + 1)
  }

  /** The lines of a file; a newline at the very end starts no further line. */
  ghost function Lines(f: seq<byte>): seq<seq<byte>>
    decreases |f|
  {
    if f == [] then []
    else
      var n := LineEnd(f, 0);
      [f[..n]] + if n < |f| then Lines(f[n + 1..]) else []
  }

  /** The lines as grep sees them: a line that does not end within BUFSIZE bytes is cut there. */
  ghost function Pieces(f: seq<byte>): seq<seq<byte>>
    decreases |f|
  {
    if f == [] then []
    else
      var n := LineEnd(f, 0);
      if n < |f| && n < BUFSIZE then [f[..n]] + Pieces(f[n + 1..])
      else [f[..Min(BUFSIZE, |f|)]] + Pieces(f[Min(BUFSIZE, |f|)..])
  }

  /** The pieces when the byte after the buffer, which the program does not initialise, starts out as a
      newline: the first full buffer that ends inside a line ends that line, and overwrites the byte. */
  ghost function FirstPieces(f: seq<byte>): seq<seq<byte>>
    decreases |f|, 0
  {
    if |f| < BUFSIZE then Pieces(f)
    else Pieces(f[..BUFSIZE]) + PiecesFrom(f[BUFSIZE - 1] == NEWLINE, f[BUFSIZE..])
  }

  ghost function PiecesFrom(stale: bool, f: seq<byte>): seq<seq<byte>>
    decreases |f|, 1
  {
    if stale then FirstPieces(f) else Pieces(f)
  }

  ghost predicate OccursAt(line: seq<byte>, s: seq<byte>, k: nat) {
    k + |s| <= |line| && line[k..k + |s|] == s
  }

  ghost predicate Matches(line: seq<byte>, s: seq<byte>) {
    s != [] && exists k :: OccursAt(line, s, k)
  }

  /** What is printed for one line. */
  ghost function Hit(fname: seq<byte>, s: seq<byte>, line: seq<byte>): seq<byte> {
    if Matches(line, s) then fname + [58] + line + [NEWLINE] else []
  }

  /** What is printed for a list of lines: the matching ones, once each, in order. */
  ghost function Report(fname: seq<byte>, s: seq<byte>, lines: seq<seq<byte>>): seq<byte> {
    if lines == [] then [] else Hit(fname, s, lines[0]) + Report(fname, s, lines[1..])
  }

  /** The lines are those of the file: none holds a newline, and with one after each of them they are the
      file, up to a newline that the file may lack at its end. */
  lemma LinesJoin(f: seq<byte>)
    ensures forall i :: 0 <= i < |Lines(f)| ==> 10 !in Lines(f)[i]
    ensures Joined(Lines(f), [10]) == if f == [] || f[|f| - 1] == 10 then f else f + [10]
  {
    forall i: nat | i < |Lines(f)| ensures 10 !in Lines(f)[i] {
      LineIsPlain(f, i);
    }
    LinesJoined(f);
  }

  lemma {:induction false} LineIsPlain(f: seq<byte>, i: nat)
    requires i < |Lines(f)|
    ensures 10 !in Lines(f)[i]
    decreases |f|
  {
    var n := LineEnd(f, 0);
    if i > 0 { LineIsPlain(f[n + 1..], i - 1); }
  }

  lemma {:induction false} LinesJoined(f: seq<byte>)
    ensures Joined(Lines(f), [10]) == if f == [] || f[|f| - 1] == 10 then f else f + [10]
    decreases |f|
  {
    if f != [] {
      hide *;
      var n := LineEnd(f, 0);
      if n < |f| {
        LinesJoined(f[n + 1..]);
        JoinedWithMore(f, n);
      } else {
        JoinedOne(f);
      }
    }
  }

  lemma JoinedWithMore(f: seq<byte>, n: nat)
    requires n == LineEnd(f, 0) < |f|
    requires var rest := f[n + 1..]; Joined(Lines(rest), [10]) == if rest == [] || rest[|rest| - 1] == 10 then rest else rest + [10]
    ensures Joined(Lines(f), [10]) == if f == [] || f[|f| - 1] == 10 then f else f + [10]
  {
    var line, rest := f[..n], f[n + 1..];
    FirstOfLines(f, n, Lines(rest));
    assert f[n] == 10;
    hide *;
    JoinedMore(line, Lines(rest), [10]);
    CutAt(f, n);
    AfterLine(line, rest, Joined(Lines(rest), [10]));
  }

  lemma JoinedOne(f: seq<byte>)
    requires f != [] && LineEnd(f, 0) == |f|
    ensures Joined(Lines(f), [10]) == if f == [] || f[|f| - 1] == 10 then f else f + [10]
  {
    OneLine(f);
    NothingJoined();
    assert Joined([], [10]) == [];
    hide *;
    JoinedMore(f, [], [10]);
    assert f + [10] + [] == f + [10];
  }

  lemma OneLine(f: seq<byte>)
    requires f != [] && LineEnd(f, 0) == |f|
    ensures Lines(f) == [f] + [] && f[|f| - 1] != 10
  {
    assert f[..|f|] == f;
  }

  lemma CutAt(f: seq<byte>, n: nat)
    requires n < |f| && f[n] == 10
    ensures f == f[..n] + [10] + f[n + 1..]
  {
  }

  lemma AfterLine(line: seq<byte>, rest: seq<byte>, joined: seq<byte>)
    requires joined == if rest == [] || rest[|rest| - 1] == 10 then rest else rest + [10]
    ensures var f := line + [10] + rest; line + [10] + joined == if f[|f| - 1] == 10 then f else f + [10]
  {
    var f := line + [10] + rest;
    if rest == [] || rest[|rest| - 1] == 10 {
      assert f[|f| - 1] == 10;
    } else {
      assert f[|f| - 1] == rest[|rest| - 1];
      assert line + [10] + (rest + [10]) == f + [10];
    }
  }

  /** The pattern is somewhere in the line. */
  ghost predicate Contains(line: seq<byte>, s: seq<byte>) { exists before, behind :: line == before + s + behind }

  lemma MatchesContains(line: seq<byte>, s: seq<byte>)
    ensures Matches(line, s) <==> s != [] && Contains(line, s)
  {
    if k: nat :| OccursAt(line, s, k) {
      assert line == line[..k] + s + line[k + |s|..];
    }
    if before, behind :| line == before + s + behind {
      assert OccursAt(line, s, |before|);
    }
  }

  /** The output lines for the matching ones: the name, a colon and the line. */
  ghost function Found(fname: seq<byte>, s: seq<byte>, lines: seq<seq<byte>>): (found: seq<seq<byte>>) {
    if lines == [] then []
    else (if s != [] && Contains(lines[0], s) then [fname + [58] + lines[0]] else []) + Found(fname, s, lines[1..])
  }

  /** The output, taken apart into lines again. */
  lemma {:induction false} ReportedLines(fname: seq<byte>, s: seq<byte>, lines: seq<seq<byte>>)
    requires 10 !in fname && forall i :: 0 <= i < |lines| ==> 10 !in lines[i]
    ensures Lines(Report(fname, s, lines)) == Found(fname, s, lines)
  {
    if lines != [] {
      var line, rest := lines[0], Report(fname, s, lines[1..]);
      ReportedLines(fname, s, lines[1..]);
      MatchesContains(line, s);
      if Matches(line, s) {
        assert Report(fname, s, lines) == (fname + [58] + line) + [10] + rest;
        hide Report, Matches, Contains;
        FirstLine(fname + [58] + line, rest);
      } else {
        assert Report(fname, s, lines) == rest;
      }
    }
  }

  lemma FirstLine(line: seq<byte>, rest: seq<byte>)
    requires 10 !in line
    ensures Lines(line + [10] + rest) == [line] + Lines(rest)
  {
    var f := line + [10] + rest;
    assert f[|line|] == 10 && forall j :: 0 <= j < |line| ==> f[j] == line[j];
    assert LineEnd(f, 0) == |line| && f[..|line|] == line && f[|line| + 1..] == rest;
  }

  /** No line is longer than the buffer. */
  ghost predicate ShortLines(f: seq<byte>)
    decreases |f|
  {
    f != [] ==>
      var n := LineEnd(f, 0);
      n <= BUFSIZE && (n < |f| ==> ShortLines(f[n + 1..]))
  }

  /** Cutting loses nothing, whatever is searched for, exactly when no line is longer than the buffer. */
  lemma CuttingLosesNothing(fname: seq<byte>, f: seq<byte>)
    ensures ShortLines(f) <==> forall s :: Report(fname, s, Pieces(f)) == Report(fname, s, Lines(f))
  {
    if ShortLines(f) {
      forall s ensures Report(fname, s, Pieces(f)) == Report(fname, s, Lines(f)) {
        ReportOfPieces(fname, s, f);
      }
    } else {
      var c := LongLineDiffers(fname, f);
      assert Report(fname, [c], Pieces(f)) != Report(fname, [c], Lines(f));
    }
  }

  lemma {:induction false} ReportOfPieces(fname: seq<byte>, s: seq<byte>, f: seq<byte>)
    requires ShortLines(f)
    ensures Report(fname, s, Pieces(f)) == Report(fname, s, Lines(f))
    decreases |f|
  {
    if f != [] {
      var n := LineEnd(f, 0);
      if n < |f| {
        ReportOfPieces(fname, s, f[n + 1..]);
        ShortLine(fname, s, f);
      } else {
        assert f[n..] == [] && Min(BUFSIZE, |f|) == n;
        assert Pieces(f) == [f[..n]] + Pieces(f[n..]);
      }
    }
  }

  lemma FirstOfLines(f: seq<byte>, n: nat, more: seq<seq<byte>>)
    requires n == LineEnd(f, 0) < |f| && more == Lines(f[n + 1..])
    ensures Lines(f) == [f[..n]] + more
  {
    hide LineEnd;
  }

  lemma FirstOfPieces(f: seq<byte>, n: nat, more: seq<seq<byte>>)
    requires n == LineEnd(f, 0) < |f| && n < BUFSIZE && more == Pieces(f[n + 1..])
    ensures Pieces(f) == [f[..n]] + more
  {
    hide LineEnd;
  }

  /** A finished line that is not too long is one line and one piece. */
  lemma ShortLine(fname: seq<byte>, s: seq<byte>, f: seq<byte>)
    requires LineEnd(f, 0) < |f| && LineEnd(f, 0) <= BUFSIZE
    ensures var n := LineEnd(f, 0);
            && Report(fname, s, Lines(f)) == Hit(fname, s, f[..n]) + Report(fname, s, Lines(f[n + 1..]))
            && Report(fname, s, Pieces(f)) == Hit(fname, s, f[..n]) + Report(fname, s, Pieces(f[n + 1..]))
  {
    var n := LineEnd(f, 0);
    var more, rest := Lines(f[n + 1..]), Pieces(f[n + 1..]);
    FirstOfLines(f, n, more);
    if n < BUFSIZE { FirstOfPieces(f, n, rest); }
    hide Report, Lines, Pieces, Hit;
    ReportFirst(fname, s, f[..n], more);
    ReportFirst(fname, s, f[..n], rest);
    if n == BUFSIZE { FullLine(fname, s, f); }
  }

  /** A file with a longer line has a one-byte pattern, the first byte of that line, on which the output
      is wrong: the line is printed broken in two or more. */
  lemma {:induction false} LongLineDiffers(fname: seq<byte>, f: seq<byte>) returns (c: byte)
    requires !ShortLines(f)
    ensures c in f && Report(fname, [c], Pieces(f)) != Report(fname, [c], Lines(f))
    decreases |f|
  {
    var n := LineEnd(f, 0);
    if n > BUFSIZE {
      c := f[0];
      CutLineDiffers(fname, f);
    } else {
      c := LongLineDiffers(fname, f[n + 1..]);
      LaterLineDiffers(fname, c, f);
    }
  }

  lemma LaterLineDiffers(fname: seq<byte>, c: byte, f: seq<byte>)
    requires LineEnd(f, 0) < |f| && LineEnd(f, 0) <= BUFSIZE
    requires var g := f[LineEnd(f, 0) + 1..]; c in g && Report(fname, [c], Pieces(g)) != Report(fname, [c], Lines(g))
    ensures c in f && Report(fname, [c], Pieces(f)) != Report(fname, [c], Lines(f))
  {
    hide Report, Lines, Pieces, Hit;
    var n := LineEnd(f, 0);
    var hit, g := Hit(fname, [c], f[..n]), f[n + 1..];
    ShortLine(fname, [c], f);
    assert (hit + Report(fname, [c], Pieces(g)))[|hit|..] == Report(fname, [c], Pieces(g));
    assert (hit + Report(fname, [c], Lines(g)))[|hit|..] == Report(fname, [c], Lines(g));
  }

  lemma CutLineDiffers(fname: seq<byte>, f: seq<byte>)
    requires LineEnd(f, 0) > BUFSIZE
    ensures Report(fname, [f[0]], Pieces(f)) != Report(fname, [f[0]], Lines(f))
  {
    var s, n := [f[0]], LineEnd(f, 0);
    assert OccursAt(f[..n], s, 0) && OccursAt(f[..BUFSIZE], s, 0);
    var more := if n < |f| then Lines(f[n + 1..]) else [];
    assert Lines(f) == [f[..n]] + more && Pieces(f) == [f[..BUFSIZE]] + Pieces(f[BUFSIZE..]);
    ReportFirst(fname, s, f[..n], more);
    ReportFirst(fname, s, f[..BUFSIZE], Pieces(f[BUFSIZE..]));
    hide Report, Lines, Pieces, OccursAt;
    DifferentLines(fname, f[..BUFSIZE], f[..n], Report(fname, s, Pieces(f[BUFSIZE..])), Report(fname, s, more));
  }

  lemma DifferentLines(fname: seq<byte>, short: seq<byte>, long: seq<byte>, a: seq<byte>, b: seq<byte>)
    requires |short| < |long| && long[|short|] != NEWLINE
    ensures fname + [58] + short + [NEWLINE] + a != fname + [58] + long + [NEWLINE] + b
  {
    var at := |fname| + 1 + |short|;
    assert (fname + [58] + short + [NEWLINE] + a)[at] == NEWLINE;
    assert (fname + [58] + long + [NEWLINE] + b)[at] == long[|short|];
  }

  /** A line of exactly BUFSIZE bytes leaves its newline behind as an empty line. */
  lemma FullLine(fname: seq<byte>, s: seq<byte>, f: seq<byte>)
    requires BUFSIZE < |f| && LineEnd(f, 0) == BUFSIZE
    ensures Report(fname, s, Pieces(f)) == Report(fname, s, [f[..BUFSIZE]] + Pieces(f[BUFSIZE + 1..]))
  {
    var g := f[BUFSIZE..];
    assert g[0] == NEWLINE && LineEnd(g, 0) == 0;
    assert g[..0] == [] && g[1..] == f[BUFSIZE + 1..];
    assert Pieces(g) == [[]] + Pieces(g[1..]);
    assert Pieces(f) == [f[..BUFSIZE]] + Pieces(g);
    assert Hit(fname, s, []) == [] by { assert !Matches([], s); }
    hide Report, Pieces, Hit;
    ReportFirst(fname, s, f[..BUFSIZE], Pieces(g));
    ReportFirst(fname, s, [], Pieces(g[1..]));
    ReportFirst(fname, s, f[..BUFSIZE], Pieces(g[1..]));
  }

  /** One step of the scan: the bytes from a line's start on, seen through a window that is full or
      reaches the end of the file. */
  lemma PieceStep(rest: seq<byte>, start: nat, last: nat, end: nat)
    requires start <= last <= |rest| && last <= BUFSIZE
    requires start <= end <= last && (end < last ==> rest[end] == NEWLINE)
    requires forall j :: start <= j < end ==> rest[j] != NEWLINE
    requires end == last ==> last == |rest| || (start == 0 && last == BUFSIZE)
    ensures var next := if end < last then end + 1 else last;
            if start == |rest| then Pieces(rest[start..]) == [] && rest[start..end] == []
            else Pieces(rest[start..]) == [rest[start..end]] + Pieces(rest[next..])
  {
    if start < |rest| {
      if end < last {
        LinePiece(rest, start, end);
      } else {
        CutPiece(rest, start, last);
      }
    }
  }

  lemma LinePiece(rest: seq<byte>, start: nat, end: nat)
    requires start <= end < |rest| && end - start < BUFSIZE && rest[end] == NEWLINE
    requires forall j :: start <= j < end ==> rest[j] != NEWLINE
    ensures Pieces(rest[start..]) == [rest[start..end]] + Pieces(rest[end + 1..])
  {
    var f := rest[start..];
    assert f[end - start] == NEWLINE && forall j :: 0 <= j < end - start ==> f[j] == rest[start + j];
    assert LineEnd(f, 0) == end - start;
    assert f[..end - start] == rest[start..end] && f[end - start + 1..] == rest[end + 1..];
  }

  lemma CutPiece(rest: seq<byte>, start: nat, last: nat)
    requires start < last <= |rest| && forall j :: start <= j < last ==> rest[j] != NEWLINE
    requires last - start <= BUFSIZE && (last == |rest| || last - start == BUFSIZE)
    ensures Pieces(rest[start..]) == [rest[start..last]] + Pieces(rest[last..])
  {
    var f := rest[start..];
    var k := Min(BUFSIZE, |f|);
    assert k == last - start && forall j :: 0 <= j < k ==> f[j] == rest[start + j];
    assert LineEnd(f, 0) >= k;
    assert f[..k] == rest[start..last] && f[k..] == rest[last..];
  }

  lemma ReportFirst(fname: seq<byte>, s: seq<byte>, line: seq<byte>, more: seq<seq<byte>>)
    ensures Report(fname, s, [line] + more) == Hit(fname, s, line) + Report(fname, s, more)
  {
    assert ([line] + more)[1..] == more;
  }

  /** `ece391_strncmp` (syscalls/ece391support.c, lines 35-46) of `s`, up to its length, against the
      C string at `data + check` that ends at `end`. */
  method SameHere(data: array<byte>, check: nat, end: nat, s: seq<byte>) returns (same: bool)
    requires check <= end < data.Length && data[end] == 0 && s != [] && 0 !in s
    requires forall j :: check <= j < end ==> data[j] != 0
    ensures same <==> check + |s| <= end && data[check..check + |s|] == s
  {
    var j := 0;
    while data[check + j] == s[j]
      invariant 0 <= j < |s| && check + j <= end
      invariant data[check..check + j] == s[..j]
      decreases |s| - j
    {
      assert data[check + j] != 0;
      assert data[check..check + (j + 1)] == data[check..check + j] + [data[check + j]];
      assert s[..j + 1] == s[..j] + [s[j]];
      if j + 1 == |s| {
        assert s[..j + 1] == s;
        return true;
      }
      j := j + 1;
    }
    assert check + |s| <= end ==> data[check..check + |s|][j] == data[check + j];
    return false;
  }

  lemma SliceOfSlice(d: seq<byte>, start: nat, end: nat, k: nat, n: nat)
    requires start <= end <= |d| && k + n <= end - start
    ensures d[start..end][k..k + n] == d[start + k..start + k + n]
  {
    var t := d[start..end][k..k + n];
    assert forall i :: 0 <= i < n ==> t[i] == d[start + k + i] == d[start + k..start + k + n][i];
  }

  /** The search loop over one line. */
  method SearchLine(data: array<byte>, start: nat, end: nat, s: seq<byte>) returns (found: bool)
    requires start <= end < data.Length && data[end] == 0 && 0 !in s
    requires forall j :: start <= j < end ==> data[j] != 0
    ensures found <==> Matches(data[start..end], s)
  {
    ghost var line := data[start..end];
    var first := if s == [] then 0 else s[0];
    var check := start;
    while check < end
      invariant start <= check <= end
      invariant forall k :: 0 <= k < check - start && s != [] ==> !OccursAt(line, s, k)
    {
      ghost var k: nat := check - start;
      if k + |s| <= |line| { SliceOfSlice(data[..], start, end, k, |s|); }
      if first == data[check] {
        var same := SameHere(data, check, end, s);
        if same {
          assert OccursAt(line, s, k) && line == data[start..end];
          return true;
        }
      } else if s != [] {
        assert k + |s| <= |line| ==> line[k..k + |s|][0] == data[check];
      }
      check := check + 1;
    }
    assert line == data[start..end] && !Matches(line, s);
    return false;
  }

  /** `ece391_strcpy (data, data + from)`, where the string ends at `end`: the copy runs upwards, so it
      is right although source and destination overlap. */
  method CopyDown(data: array<byte>, from: nat, end: nat)
    requires 0 < from <= end < data.Length && data[end] == 0
    requires forall j :: from <= j < end ==> data[j] != 0
    modifies data
    ensures forall j :: 0 <= j <= end - from ==> data[j] == old(data[from + j])
    ensures forall j :: end - from < j < data.Length ==> data[j] == old(data[j])
  {
    var i := 0;
    while true
      invariant 0 <= i <= end - from
      invariant forall j :: 0 <= j < i ==> data[j] == old(data[from + j])
      invariant forall j :: i <= j < data.Length ==> data[j] == old(data[j])
      decreases end - from - i
    {
      data[i] := data[from + i];
      if data[i] == 0 {
        break;
      }
      i := i + 1;
    }
  }

  /** `data[..last]` is the part of `file` before position `pos` that has not been searched yet: the
      beginning of a line. */
  ghost predicate Carried(file: seq<byte>, pos: nat, data: seq<byte>, last: nat) {
    last <= pos <= |file| && last <= |data| && data[..last] == file[pos - last..pos] && NEWLINE !in data[..last]
  }

  /** `ece391_fdputs`: the bytes from `start` up to the NUL. */
  method Puts(data: array<byte>, start: nat, ghost end: nat) returns (text: seq<byte>)
    requires start <= end < data.Length && data[end] == 0
    requires forall j :: start <= j < end ==> data[j] != 0
    ensures text == data[start..end]
  {
    text := [];
    var i := start;
    while data[i] != 0
      invariant start <= i <= end && text == data[start..i]
      decreases end - i
    {
      assert data[start..i + 1] == data[start..i] + [data[i]];
      text := text + [data[i]];
      i := i + 1;
    }
  }

  /** What the buffer holds of `rest`, the bytes of the file from the oldest unsearched one on: as much
      as fits, or everything up to the end of the file. */
  ghost predicate Window(rest: seq<byte>, data: seq<byte>, start: nat, last: nat) {
    && |data| == BUFSIZE + 1 && (data[BUFSIZE] != NEWLINE || last == |rest|)
    && start <= last <= |rest| && (last == BUFSIZE || (last == |rest| && last < BUFSIZE))
    && forall j :: start <= j < last ==> data[j] == rest[j]
  }

  /** The unfinished line at the end of the buffer moves to the front. */
  method KeepUnfinished(data: array<byte>, start: nat, last: nat, ghost rest: seq<byte>) returns (kept: nat)
    requires Window(rest, data[..], start, last) && data.Length == BUFSIZE + 1 && 0 < start
    requires last == BUFSIZE ==> data[BUFSIZE] != NEWLINE
    requires 0 !in rest && forall j :: start <= j < last ==> rest[j] != NEWLINE
    modifies data
    ensures kept == last - start && data[..kept] == rest[start..last]
    ensures NEWLINE !in data[..kept] && (data[BUFSIZE] == NEWLINE <==> old(data[BUFSIZE]) == NEWLINE)
  {
    data[last] := 0;
    CopyDown(data, start, last);
    kept := last - start;
    assert forall j :: 0 <= j < kept ==> data[..kept][j] == rest[start + j];
  }

  /** The line is terminated, searched, and printed after the file name if the pattern occurs in it. */
  method PrintIfFound(data: array<byte>, start: nat, end: nat, s: seq<byte>, fname: seq<byte>, ghost line: seq<byte>)
    returns (hit: seq<byte>)
    requires start <= end < data.Length && data[start..end] == line && 0 !in line && 0 !in s
    modifies data
    ensures hit == Hit(fname, s, line)
    ensures data[..] == old(data[..][end := 0])
  {
    data[end] := 0;
    assert data[start..end] == line && forall j :: start <= j < end ==> data[j] == line[j - start];
    var found := SearchLine(data, start, end, s);
    hit := [];
    if found {
      var text := Puts(data, start, end);
      hit := fname + [58] + text + [NEWLINE];
    }
    HitIs(fname, s, line, found);
  }

  /** The inner loop: every line in the buffer is searched, except an unfinished one at the end, which
      moves to the front. `cnt` is what the last read returned. */
  method Scan(data: array<byte>, last: nat, cnt: nat, s: seq<byte>, fname: seq<byte>, ghost rest: seq<byte>)
    returns (out: seq<byte>, kept: nat)
    requires Window(rest, data[..], 0, last) && data.Length == BUFSIZE + 1
    requires 0 !in rest && 0 !in s && (cnt == 0 ==> last == |rest|)
    modifies data
    ensures kept <= last && kept < BUFSIZE && (cnt == 0 ==> kept == 0)
    ensures data[..kept] == rest[last - kept..last] && NEWLINE !in data[..kept]
    ensures data[BUFSIZE] == NEWLINE <==> old(data[BUFSIZE]) == NEWLINE && (last < BUFSIZE || rest[BUFSIZE - 1] == NEWLINE)
    ensures old(data[BUFSIZE]) == NEWLINE && last == BUFSIZE ==> kept == 0
    ensures out + Report(fname, s, Pieces(rest[last - kept..])) == Report(fname, s, Pieces(rest))
  {
    hide Report, Pieces, Hit, Matches;
    out := [];
    var lineStart := 0;
    assert rest[0..] == rest;
    while true
      invariant 0 <= lineStart <= last && (lineStart < last || lineStart == 0)
      invariant Window(rest, data[..], lineStart, last) && data[BUFSIZE] == old(data[BUFSIZE])
      invariant out + Report(fname, s, Pieces(rest[lineStart..])) == Report(fname, s, Pieces(rest))
      decreases last - lineStart
    {
      var lineEnd := lineStart;
      while lineEnd < last && data[lineEnd] != NEWLINE
        invariant lineStart <= lineEnd <= last
        invariant forall j :: lineStart <= j < lineEnd ==> rest[j] != NEWLINE
      {
        lineEnd := lineEnd + 1;
      }
      if data[lineEnd] != NEWLINE && cnt != 0 && lineStart != 0 {
        kept := KeepUnfinished(data, lineStart, last, rest);
        return;
      }
      assert lineEnd == last ==> last == |rest| || (lineStart == 0 && last == BUFSIZE);
      PieceStep(rest, lineStart, last, lineEnd);
      ghost var line := rest[lineStart..lineEnd];
      ghost var next := if lineEnd < last then lineEnd + 1 else last;
      assert data[lineStart..lineEnd] == line;
      var hit := PrintIfFound(data, lineStart, lineEnd, s, fname, line);
      HitThenRest(fname, s, rest, lineStart, line, next);
      Regroup(out, hit, Report(fname, s, Pieces(rest[next..])), out + hit);
      out := out + hit;
      lineStart := lineEnd + 1;
      if lineStart >= last {
        kept := 0;
        assert next == last && rest[last..last] == [];
        return;
      }
    }
  }

  lemma Regroup(before: seq<byte>, hit: seq<byte>, more: seq<byte>, out: seq<byte>)
    requires out == before + hit
    ensures before + (hit + more) == out + more
  {
  }

  lemma HitIs(fname: seq<byte>, s: seq<byte>, line: seq<byte>, found: bool)
    requires found <==> Matches(line, s)
    ensures Hit(fname, s, line) == if found then fname + [58] + line + [NEWLINE] else []
  {
  }

  lemma HitThenRest(fname: seq<byte>, s: seq<byte>, rest: seq<byte>, start: nat, line: seq<byte>, next: nat)
    requires start <= next <= |rest|
    requires if start == |rest| then Pieces(rest[start..]) == [] && line == [] && next == start
             else Pieces(rest[start..]) == [line] + Pieces(rest[next..])
    ensures Report(fname, s, Pieces(rest[start..])) == Hit(fname, s, line) + Report(fname, s, Pieces(rest[next..]))
  {
    if start == |rest| {
      assert !Matches(line, s);
    } else {
      ReportFirst(fname, s, line, Pieces(rest[next..]));
    }
  }

  lemma {:induction false} ReportJoined(fname: seq<byte>, s: seq<byte>, a: seq<seq<byte>>, b: seq<seq<byte>>)
    ensures Report(fname, s, a + b) == Report(fname, s, a) + Report(fname, s, b)
  {
    if a == [] {
      assert [] + b == b;
    } else {
      assert (a + b)[1..] == a[1..] + b;
      ReportJoined(fname, s, a[1..], b);
    }
  }

  lemma NothingLeft(fname: seq<byte>, s: seq<byte>, stale: bool)
    ensures Report(fname, s, PiecesFrom(stale, [])) == [] == Report(fname, s, Pieces([]))
  {
  }

  /** A full buffer with the stale newline behind it is searched to its end. */
  lemma StaleBuffer(fname: seq<byte>, s: seq<byte>, u: seq<byte>, found: seq<byte>)
    requires |u| >= BUFSIZE && found + Report(fname, s, Pieces([])) == Report(fname, s, Pieces(u[..BUFSIZE]))
    ensures found + Report(fname, s, PiecesFrom(u[BUFSIZE - 1] == NEWLINE, u[BUFSIZE..])) == Report(fname, s, PiecesFrom(true, u))
  {
    hide Report, Pieces, PiecesFrom, FirstPieces;
    var rest := PiecesFrom(u[BUFSIZE - 1] == NEWLINE, u[BUFSIZE..]);
    FirstBuffer(u);
    NothingLeft(fname, s, true);
    ReportJoined(fname, s, Pieces(u[..BUFSIZE]), rest);
    assert found + [] == found;
  }

  lemma FirstBuffer(u: seq<byte>)
    requires |u| >= BUFSIZE
    ensures PiecesFrom(true, u) == Pieces(u[..BUFSIZE]) + PiecesFrom(u[BUFSIZE - 1] == NEWLINE, u[BUFSIZE..])
  {
    hide Pieces;
  }

  /** A stale newline matters only for a full buffer. */
  ghost predicate StaleOk(stale: bool, file: seq<byte>, pos: nat, last: nat) {
    stale && last > 0 ==> pos == |file|
  }

  /** One round of the outer loop after the read: nothing of `file` is skipped or searched twice. */
  method SearchBuffer(data: array<byte>, last: nat, cnt: nat, s: seq<byte>, fname: seq<byte>, ghost file: seq<byte>, ghost pos: nat)
    returns (found: seq<byte>, kept: nat)
    requires data.Length == BUFSIZE + 1 && last < BUFSIZE && last + cnt <= BUFSIZE
    requires 0 !in file && 0 !in s && pos + cnt <= |file| && StaleOk(data[BUFSIZE] == NEWLINE, file, pos, last)
    requires Carried(file, pos, data[..], last) && data[last..last + cnt] == file[pos..pos + cnt]
    requires last + cnt == BUFSIZE || pos + cnt == |file|
    modifies data
    ensures kept < BUFSIZE && (cnt == 0 ==> kept == 0) && StaleOk(data[BUFSIZE] == NEWLINE, file, pos + cnt, kept)
    ensures Carried(file, pos + cnt, data[..], kept)
    ensures found + Report(fname, s, PiecesFrom(data[BUFSIZE] == NEWLINE, file[pos + cnt - kept..]))
            == Report(fname, s, PiecesFrom(old(data[BUFSIZE]) == NEWLINE, file[pos - last..]))
  {
    hide Report, Pieces, PiecesFrom;
    ghost var u := file[pos - last..];
    ghost var full := data[BUFSIZE] == NEWLINE && last + cnt == BUFSIZE;
    ghost var rest := if full then u[..BUFSIZE] else u;
    WindowAfterRead(file, pos, rest, data[..], last, cnt);
    found, kept := Scan(data, last + cnt, cnt, s, fname, rest);
    assert rest[last + cnt - kept..last + cnt] == file[pos + cnt - kept..pos + cnt];
    hide Carried, Window;
    if full {
      assert rest[BUFSIZE..] == [] && u[BUFSIZE..] == file[pos + cnt..];
      StaleBuffer(fname, s, u, found);
    } else {
      assert rest[last + cnt - kept..] == file[pos + cnt - kept..];
      SameMode(fname, s, data[BUFSIZE] == NEWLINE, u, file[pos + cnt - kept..], found);
    }
  }

  lemma SameMode(fname: seq<byte>, s: seq<byte>, stale: bool, u: seq<byte>, more: seq<byte>, found: seq<byte>)
    requires stale ==> |u| < BUFSIZE && |more| < BUFSIZE
    requires found + Report(fname, s, Pieces(more)) == Report(fname, s, Pieces(u))
    ensures found + Report(fname, s, PiecesFrom(stale, more)) == Report(fname, s, PiecesFrom(stale, u))
  {
    hide Report, Pieces;
  }

  /** The file is open at `fd` of the table `table`, and `last` bytes of it wait in the buffer. */
  ghost predicate Reading(img: seq<byte>, table: seq<Desc>, d: seq<Desc>, fd: int, e: nat, file: seq<byte>, data: seq<byte>, last: nat)
  {
    && TableOk(img, d) && |table| == 8 && 2 <= fd < 8 && d == table[fd := d[fd]] && d[fd].inUse
    && e < NumEntries(img) && FileType(img, e) in {0, 2} && file == Contents(img, e)
    && (if FileType(img, e) == 0 then d[fd].kind == Rtc else IsRegular(d[fd]) && d[fd].inode == EntryInode(img, e))
    && |data| == BUFSIZE + 1 && last < BUFSIZE && Carried(file, d[fd].pos, data, last)
    && StaleOk(data[BUFSIZE] == NEWLINE, file, d[fd].pos, last)
  }

  /** The bytes of the file that have not been searched. */
  ghost function Unsearched(d: seq<Desc>, fd: int, file: seq<byte>, last: nat): seq<byte>
    requires 0 <= fd < |d| && last <= d[fd].pos <= |file|
  {
    file[d[fd].pos - last..]
  }

  /** The read of one round: what fits into the buffer or is left of the file; nothing, from the RTC. */
  method ReadMore(img: seq<byte>, t: Table, data: array<byte>, fd: int, last: nat,
                  ghost table: seq<Desc>, ghost e: nat, ghost file: seq<byte>)
    returns (cnt: int)
    requires Reading(img, table, t.desc[..], fd, e, file, data[..], last)
    modifies t.desc, data
    ensures TableOk(img, t.desc[..]) && -1 <= cnt
    ensures cnt == -1 <==> old(t.desc[fd].pos) == |file| && EndsBadly(img, e)
    ensures cnt == -1 ==> t.desc[..] == old(t.desc[..]) && data[..] == old(data[..])
    ensures cnt >= 0 ==>
      var pos := old(t.desc[fd].pos);
      && t.desc[..] == old(t.desc[..][fd := t.desc[fd].(pos := pos + cnt)])
      && last + cnt <= BUFSIZE && pos + cnt <= |file| && (last + cnt == BUFSIZE || pos + cnt == |file|)
      && data[..last] == old(data[..last]) && data[last..last + cnt] == file[pos..pos + cnt]
      && data[BUFSIZE] == old(data[BUFSIZE])
  {
    hide Perform, File, BadSlotAtEnd;
    ghost var was := data[..];
    if FileType(img, e) == 2 {
      ReadEffect(img, t.desc[..], fd, BUFSIZE - last, file);
    } else {
      ReadRtc(img, t.desc[..], fd, BUFSIZE - last);
    }
    var driver;
    cnt, driver := t.DoRead(img, fd, data, last, BUFSIZE - last);
    if driver == Some(Rtc) {
      cnt := 0;  // read_rtc (student-distrib/rtc.c, lines 56-65)
    }
    if cnt >= 0 {
      assert data[..last] == was[..last] && data[BUFSIZE] == was[BUFSIZE];
    } else {
      assert data[..] == was;
    }
  }

  lemma ReadRtc(img: seq<byte>, d: seq<Desc>, fd: nat, cnt: nat)
    requires TableOk(img, d) && 2 <= fd < 8 && d[fd].inUse && d[fd].kind == Rtc
    ensures Perform(img, d, Read(fd, cnt)) == (d, Driver(Rtc))
  {
  }

  /** The read and the search of one round. */
  method Round(img: seq<byte>, s: seq<byte>, fname: seq<byte>, t: Table, data: array<byte>, fd: int, last: nat,
               ghost table: seq<Desc>, ghost e: nat, ghost file: seq<byte>)
    returns (cnt: int, found: seq<byte>, kept: nat)
    requires Reading(img, table, t.desc[..], fd, e, file, data[..], last) && 0 !in file && 0 !in s
    modifies t.desc, data
    ensures cnt == -1 <==> old(t.desc[fd].pos) == |file| && EndsBadly(img, e)
    ensures cnt == -1 ==> Reading(img, table, t.desc[..], fd, e, file, data[..], last)
                          && t.desc[..] == old(t.desc[..]) && data[..] == old(data[..])
    ensures cnt != -1 ==>
      && Reading(img, table, t.desc[..], fd, e, file, data[..], kept)
      && t.desc[fd].pos == old(t.desc[fd].pos) + cnt
      && (cnt == 0 ==> kept == 0 && t.desc[fd].pos == |file|) && cnt >= 0
      && found + Report(fname, s, PiecesFrom(data[BUFSIZE] == NEWLINE, Unsearched(t.desc[..], fd, file, kept)))
         == Report(fname, s, PiecesFrom(old(data[BUFSIZE]) == NEWLINE, old(Unsearched(t.desc[..], fd, file, last))))
    ensures TableOk(img, t.desc[..])
  {
    hide Report, PiecesFrom, Contents, EndsBadly, TableOk, FileType;
    ghost var pos := t.desc[fd].pos;
    found, kept := [], 0;
    cnt := ReadMore(img, t, data, fd, last, table, e, file);
    if cnt != -1 {
      found, kept := SearchBuffer(data, last, cnt, s, fname, file, pos);
    }
  }

  /** `out` reports the pieces up to an unfinished line at the end that was not searched. */
  ghost predicate MissesLastLine(fname: seq<byte>, s: seq<byte>, stale: bool, file: seq<byte>, out: seq<byte>) {
    exists k: nat :: k <= |file| && |file| - k < BUFSIZE && NEWLINE !in file[k..]
      && out + Report(fname, s, Pieces(file[k..])) == Report(fname, s, PiecesFrom(stale, file))
  }

  /** `do_one_file`, for a regular file or the RTC. On a file without NUL bytes the matching pieces are
      printed, once each and in order, and the descriptor is released. If the slot past the end of the
      file is bad, an unfinished last line is not searched and the descriptor stays open. `data` is not
      initialised by the source; only its last byte matters. */
  method DoOneFile(img: seq<byte>, s: seq<byte>, fname: seq<byte>, t: Table, data: array<byte>) returns (ret: int, out: seq<byte>)
    requires t.Valid(img) && 0 !in fname && 0 !in s && data.Length == BUFSIZE + 1
    requires var e := Lookup(img, fname, 0);
             e.Some? ==> FileType(img, e.value) in {0, 2} && 0 !in Contents(img, e.value)
    modifies t.desc, data
    ensures t.Valid(img)
    ensures match Lookup(img, fname, 0)
            case None => ret == -1 && out == []
            case Some(e) =>
              var stale := old(data[BUFSIZE]) == NEWLINE;
              if old(FreeSlot(t.desc[..], 2)) == 8 then ret == -1 && out == []
              else if EndsBadly(img, e) then
                && ret == -1 && MissesLastLine(fname, s, stale, Contents(img, e), out)
                && forall fd :: 0 <= fd < 8 ==> t.desc[fd].inUse == (old(t.desc[fd].inUse) || fd == old(FreeSlot(t.desc[..], 2)))
              else ret == 0 && out == Report(fname, s, PiecesFrom(stale, Contents(img, e)))
                   && forall fd :: 0 <= fd < 8 ==> t.desc[fd].inUse == old(t.desc[fd].inUse)
  {
    hide Perform, Lookup, FreeSlot, EndsBadly, Report, PiecesFrom, MissesLastLine, Contents, FileType;
    OpenForGrep(img, t.desc[..], fname);
    var fd := t.DoOpen(img, fname);
    if fd == -1 {
      return -1, [];
    }
    ghost var table := t.desc[..];
    ghost var e := Lookup(img, fname, 0).value;
    NothingCarried(Contents(img, e), data[..]);
    var ok;
    ok, out := SearchFile(img, s, fname, t, data, fd, table, e, Contents(img, e));
    if !ok {
      return -1, out;
    }
    CloseEffect(img, t.desc[..], fd);
    var _ := t.DoClose(img, fd);
    return 0, out;
  }

  lemma NothingCarried(file: seq<byte>, data: seq<byte>)
    ensures Carried(file, 0, data, 0)
  {
  }

  /** The outer loop, up to a failed read or the end of the file. */
  method SearchFile(img: seq<byte>, s: seq<byte>, fname: seq<byte>, t: Table, data: array<byte>, fd: int,
                    ghost table: seq<Desc>, ghost e: nat, ghost file: seq<byte>)
    returns (ok: bool, out: seq<byte>)
    requires Reading(img, table, t.desc[..], fd, e, file, data[..], 0) && t.desc[fd].pos == 0 && 0 !in file && 0 !in s
    modifies t.desc, data
    ensures TableOk(img, t.desc[..]) && 2 <= fd < 8 && t.desc[..] == table[fd := t.desc[fd]] && t.desc[fd].inUse
    ensures ok <==> !EndsBadly(img, e)
    ensures ok ==> out == Report(fname, s, PiecesFrom(old(data[BUFSIZE]) == NEWLINE, file))
    ensures !ok ==> MissesLastLine(fname, s, old(data[BUFSIZE]) == NEWLINE, file, out)
  {
    hide EndsBadly, Report, Pieces, PiecesFrom, MissesLastLine, Contents, TableOk, FileType;
    ghost var stale := data[BUFSIZE] == NEWLINE;
    out := [];
    var last: nat := 0;
    assert file[0..] == file;
    while true
      invariant Reading(img, table, t.desc[..], fd, e, file, data[..], last)
      invariant out + Report(fname, s, PiecesFrom(data[BUFSIZE] == NEWLINE, Unsearched(t.desc[..], fd, file, last)))
                == Report(fname, s, PiecesFrom(stale, file))
      decreases |file| - t.desc[fd].pos
    {
      var cnt, found, kept := Round(img, s, fname, t, data, fd, last, table, e, file);
      if cnt == -1 {
        OneLineMissing(fname, s, stale, file, data[..], last, out);
        return false, out;
      }
      Regroup(out, found, Report(fname, s, PiecesFrom(data[BUFSIZE] == NEWLINE, Unsearched(t.desc[..], fd, file, kept))), out + found);
      out := out + found;
      last := kept;
      if cnt == 0 {
        assert Unsearched(t.desc[..], fd, file, last) == [];
        NothingLeft(fname, s, data[BUFSIZE] == NEWLINE);
        return true, out;
      }
    }
  }

  lemma OpenForGrep(img: seq<byte>, d: seq<Desc>, fname: seq<byte>)
    requires TableOk(img, d) && (Lookup(img, fname, 0).Some? ==> FileType(img, Lookup(img, fname, 0).value) in {0, 2})
    ensures var (d', reply) := Perform(img, d, Open(fname));
            var e := Lookup(img, fname, 0);
            var slot := FreeSlot(d, 2);
            if e == None || slot == 8 then d' == d && reply == Ret(-1, [])
            else && |d'| == 8 && reply == Ret(slot, []) && 2 <= slot && d' == d[slot := d'[slot]] && !d[slot].inUse
                 && d'[slot].inUse && d'[slot].pos == 0
                 && if FileType(img, e.value) == 0 then d'[slot].kind == Rtc
                    else IsRegular(d'[slot]) && d'[slot].inode == EntryInode(img, e.value)
  {
    if Lookup(img, fname, 0).Some? && FileType(img, Lookup(img, fname, 0).value) == 2 {
      OpenEffect(img, d, fname);
    }
  }

  lemma OneLineMissing(fname: seq<byte>, s: seq<byte>, stale: bool, file: seq<byte>, data: seq<byte>, last: nat, out: seq<byte>)
    requires Carried(file, |file|, data, last) && last < BUFSIZE && |data| == BUFSIZE + 1
    requires out + Report(fname, s, PiecesFrom(data[BUFSIZE] == NEWLINE, file[|file| - last..])) == Report(fname, s, PiecesFrom(stale, file))
    ensures MissesLastLine(fname, s, stale, file, out)
  {
    assert file[|file| - last..] == file[|file| - last..|file|] == data[..last];
  }

  lemma WindowAfterRead(file: seq<byte>, pos: nat, rest: seq<byte>, data: seq<byte>, last: nat, cnt: nat)
    requires |data| == BUFSIZE + 1 && last < BUFSIZE && last + cnt <= BUFSIZE && last <= pos && pos + cnt <= |file|
    requires rest == if data[BUFSIZE] == NEWLINE && last + cnt == BUFSIZE then file[pos - last..][..BUFSIZE] else file[pos - last..]
    requires data[..last] == file[pos - last..pos] && data[last..last + cnt] == file[pos..pos + cnt]
    requires last + cnt == BUFSIZE || pos + cnt == |file|
    ensures Window(rest, data, 0, last + cnt)
  {
    forall j | 0 <= j < last + cnt ensures data[j] == rest[j] {
      if j < last {
        assert data[j] == data[..last][j];
      } else {
        assert data[j] == data[last..last + cnt][j - last];
      }
    }
  }
}
