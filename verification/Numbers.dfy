/**
 Number printing (student-distrib/lib.c and its copy in syscalls/ece391support.c): `itoa`, the in-place
 `strrev` it ends with, and the formats of `printf` that use it. A string is a buffer, an index, and a NUL.
 */
module Numbers {
  const NUL: char := '\0'
  const UINT32: nat := 0x1_0000_0000

  /** The string `s` is stored in `b` from `at` on. */
  ghost predicate Holds(b: seq<char>, at: nat, s: string) {
    && at + |s| < |b|
    && b[at + |s|] == NUL
    && forall k :: 0 <= k < |s| ==> s[k] == b[at + k] && s[k] != NUL
  }

  function Reversed(s: string): (r: string)
    ensures |r| == |s| && forall k :: 0 <= k < |s| ==> r[k] == s[|s| - 1 - k]
  {
    if s == [] then [] else Reversed(s[1..]) + [s[0]]
  }

  lemma ReversedTwice(s: string)
    ensures Reversed(Reversed(s)) == s
  {
    forall k | 0 <= k < |s| ensures Reversed(Reversed(s))[k] == s[k] {
      assert Reversed(s)[|s| - 1 - k] == s[k];
    }
  }

  lemma HeldAt(b: seq<char>, at: nat, s: string)
    requires Holds(b, at, s)
    ensures forall j :: at <= j < at + |s| ==> b[j] == s[j - at] && b[j] != NUL
  {
    forall j | at <= j < at + |s| ensures b[j] == s[j - at] && b[j] != NUL {
      assert b[at..at + |s|][j - at] == b[j];
      assert s[j - at] in s;
    }
  }

  method StrLen(buf: array<char>, at: nat, ghost s: string) returns (n: nat)
    requires Holds(buf[..], at, s)
    ensures n == |s|
  {
    HeldAt(buf[..], at, s);
    n := 0;
    while buf[at + n] != NUL
      invariant n <= |s|
      decreases |s| - n
    {
      n := n + 1;
    }
  }

  /** Where a character lies after the outer `done` ones on either side were exchanged. */
  function Place(at: nat, len: nat, done: nat, j: nat): (p: nat)
    requires 2 * done <= len + 1
  {
    if at <= j < at + done || at + len - done <= j < at + len then 2 * at + len - 1 - j else j
  }

  ghost predicate Swapped(b: seq<char>, buf: array<char>, at: nat, len: nat, done: nat)
    requires at + len <= |b| && 2 * done <= len + 1
    reads buf
  {
    buf.Length == |b| && forall j :: 0 <= j < |b| ==> buf[j] == b[Place(at, len, done, j)]
  }

  method Exchange(buf: array<char>, at: nat, len: nat, beg: nat, end: nat, ghost b: seq<char>)
    requires at + len <= |b| && beg < end == len - 1 - beg
    requires Swapped(b, buf, at, len, beg)
    modifies buf
    ensures Swapped(b, buf, at, len, beg + 1)
  {
    var tmp := buf[at + end];
    assert tmp == b[at + end] && buf[at + beg] == b[at + beg];
    buf[at + end] := buf[at + beg];
    buf[at + beg] := tmp;
  }

  /** `strrev` reverses the string where it lies and touches nothing else. */
  method StrRev(buf: array<char>, at: nat, ghost s: string)
    requires Holds(buf[..], at, s)
    modifies buf
    ensures Holds(buf[..], at, Reversed(s))
    ensures forall j :: 0 <= j < buf.Length && !(at <= j < at + |s|) ==> buf[j] == old(buf[j])
  {
    var len := StrLen(buf, at, s);
    var beg: int, end: int := 0, len - 1;
    ghost var was := buf[..];
    while beg < end
      invariant 0 <= beg && end == len - 1 - beg && 2 * beg <= len + 1
      invariant Swapped(was, buf, at, len, beg)
    {
      Exchange(buf, at, len, beg, end, was);
      beg := beg + 1;
      end := end - 1;
    }
    ReversedWhereItLies(was, buf, at, s, beg);
  }

  lemma ReversedAtPlace(was: seq<char>, buf: array<char>, at: nat, s: string, done: nat, k: nat)
    requires Holds(was, at, s) && |s| <= 2 * done + 1 <= |s| + 2 && k < |s|
    requires Swapped(was, buf, at, |s|, done)
    ensures buf[at + k] == Reversed(s)[k]
  {
    HeldAt(was, at, s);
    assert buf[at + k] == was[Place(at, |s|, done, at + k)] == was[at + (|s| - 1 - k)];
    assert Reversed(s)[k] == s[|s| - 1 - k];
  }

  lemma ReversedWhereItLies(was: seq<char>, buf: array<char>, at: nat, s: string, done: nat)
    requires Holds(was, at, s) && |s| <= 2 * done + 1 <= |s| + 2
    requires Swapped(was, buf, at, |s|, done)
    ensures Holds(buf[..], at, Reversed(s))
  {
    var len := |s|;
    assert |was| == buf.Length && buf[at + len] == was[Place(at, len, done, at + len)] == NUL;
    forall k: nat | k < len ensures Reversed(s)[k] == buf[at + k] && Reversed(s)[k] != NUL {
      ReversedAtPlace(was, buf, at, s, done, k);
      assert s[len - 1 - k] != NUL;
    }
  }

  /** The digits `itoa` produces, lowest place first. */
  function Low(v: nat, radix: nat): (s: string)
    requires 2 <= radix <= 36
    ensures NUL !in s && (v > 0 ==> s != [])
  {
    if v == 0 then [] else [Digit(v % radix)] + Low(v / radix, radix)
  }

  /** The numeral of `v`. */
  function Text(v: nat, radix: nat): (s: string)
    requires 2 <= radix <= 36
    ensures s != [] && NUL !in s
  {
    if v == 0 then "0" else Reversed(Low(v, radix))
  }

  /** Entry `d` of the table of digits. */
  function Digit(d: nat): (c: char)
    requires d < 36
    ensures c != NUL && DigitValue(c) == d
  {
    if d < 10 then '0' + d as char else 'A' + (d - 10) as char
  }

  lemma DigitTable(d: nat)
    requires d < 36
    ensures Digit(d) == "0123456789ABCDEFGHIJKLMNOPQRSTUVWXYZ"[d]
  {
  }

  function DigitValue(c: char): (d: nat) {
    if '0' <= c <= '9' then (c - '0') as int else if 'A' <= c <= 'Z' then (c - 'A') as int + 10 else 36
  }

  /** What a numeral means, read from left to right. */
  function Value(s: string, radix: nat): (v: nat) {
    if s == [] then 0 else Value(s[..|s| - 1], radix) * radix + DigitValue(s[|s| - 1])
  }

  lemma ReversedCons(c: char, s: string)
    ensures Reversed([c] + s) == Reversed(s) + [c]
  {
    assert ([c] + s)[1..] == s;
  }

  lemma ValueSnoc(s: string, c: char, radix: nat)
    ensures Value(s + [c], radix) == Value(s, radix) * radix + DigitValue(c)
  {
    assert (s + [c])[..|s|] == s;
  }

  lemma EmptyNumeral(radix: nat)
    ensures Reversed("") == "" && Value("", radix) == 0
  {
  }

  lemma ValueCons(d: nat, s: string, q: nat, radix: nat, v: nat)
    requires d < radix <= 36 && Value(Reversed(s), radix) == q && v == q * radix + d
    ensures Value(Reversed([Digit(d)] + s), radix) == v
  {
    hide Value, Reversed;
    ReversedCons(Digit(d), s);
    ValueSnoc(Reversed(s), Digit(d), radix);
  }

  lemma {:induction false} LowValue(v: nat, radix: nat)
    requires 2 <= radix <= 36
    ensures Value(Reversed(Low(v, radix)), radix) == v
  {
    hide Value, Reversed, Digit, DigitValue;
    EmptyNumeral(radix);
    if v > 0 {
      NextDigit(v, radix);
      LowValue(v / radix, radix);
      ValueCons(v % radix, Low(v / radix, radix), v / radix, radix, v);
    }
  }

  /** A numeral as a reader expects it: digits below the radix and no superfluous zero in front. */
  ghost predicate Numeral(s: string, radix: nat) {
    && s != []
    && (forall k :: 0 <= k < |s| ==> DigitValue(s[k]) < radix)
    && (s[0] == '0' ==> s == "0")
  }

  lemma {:induction false} LowDigits(v: nat, radix: nat)
    requires 2 <= radix <= 36
    ensures forall k :: 0 <= k < |Low(v, radix)| ==> DigitValue(Low(v, radix)[k]) < radix
    ensures v > 0 ==> Low(v, radix)[|Low(v, radix)| - 1] != '0'
  {
    if v > 0 {
      LowDigits(v / radix, radix);
      if v / radix == 0 { assert v % radix == v; }
    }
  }

  /** Printing and reading back: the value is the same and the numeral is in normal form. */
  lemma TextMeans(v: nat, radix: nat)
    requires 2 <= radix <= 36
    ensures Numeral(Text(v, radix), radix) && Value(Text(v, radix), radix) == v
  {
    LowValue(v, radix);
    LowDigits(v, radix);
    if v == 0 { assert Value("0"[..0], radix) == 0; }
  }

  lemma {:induction false} ValueBounds(s: string, radix: nat)
    requires 2 <= radix && Numeral(s, radix)
    ensures s == "0" || Value(s, radix) > 0
  {
    if |s| == 1 {
      assert Value(s[..0], radix) == 0;
      if DigitValue(s[0]) == 0 { assert s[0] == '0'; }
    } else {
      var t := s[..|s| - 1];
      assert t[0] == s[0];
      ValueBounds(t, radix);
      ProductNonNegative(Value(t, radix) - 1, radix);
    }
  }

  lemma {:induction false} LowOfValue(s: string, radix: nat)
    requires 2 <= radix <= 36 && Numeral(s, radix) && s != "0"
    ensures Low(Value(s, radix), radix) == Reversed(s)
  {
    var t, c := s[..|s| - 1], s[|s| - 1];
    var d := DigitValue(c);
    ValueBounds(s, radix);
    assert s == t + [c];
    assert Digit(d) == c;
    DivMod(Value(t, radix), d, radix);
    if t == [] {
      assert Value(t, radix) == 0;
    } else {
      assert t[0] == s[0];
      LowOfValue(t, radix);
    }
    ReversedSnoc(t, c);
  }

  lemma DivMod(q: nat, d: nat, radix: nat)
    requires d < radix
    ensures (q * radix + d) / radix == q && (q * radix + d) % radix == d
  {
    var v := q * radix + d;
    var k := v / radix - q;
    assert k * radix == d - v % radix;
    SmallMultiple(k, radix);
  }

  lemma SmallMultiple(k: int, r: int)
    requires k * r < r && 0 < r + k * r
    ensures k == 0
  {
    if k > 0 { ProductNonNegative(k - 1, r); }
    if k < 0 { ProductNonNegative(-k - 1, r); }
  }

  lemma ProductNonNegative(a: int, b: int)
    requires a >= 0 && b >= 0
    ensures a * b >= 0
  {}

  lemma ReversedSnoc(s: string, c: char)
    ensures Reversed(s + [c]) == [c] + Reversed(s)
  {
    forall k | 0 <= k <= |s| ensures Reversed(s + [c])[k] == ([c] + Reversed(s))[k] {
      if k > 0 { assert Reversed(s)[k - 1] == s[|s| - k]; }
    }
  }

  /** Reading and printing back: every numeral in normal form is what `itoa` prints for its value. */
  lemma ValuePrints(s: string, radix: nat)
    requires 2 <= radix <= 36 && Numeral(s, radix)
    ensures Text(Value(s, radix), radix) == s
  {
    if s == "0" {
      assert Value("0"[..0], radix) == 0;
    } else {
      ValueBounds(s, radix);
      LowOfValue(s, radix);
      ReversedTwice(s);
    }
  }

  function Power(b: nat, n: nat): (p: nat)
    ensures b > 0 ==> p > 0
  {
    if n == 0 then 1 else b * Power(b, n - 1)
  }

  lemma {:induction false} LowLength(v: nat, radix: nat, n: nat)
    requires 2 <= radix <= 36
    ensures |Low(v, radix)| <= n <==> v < Power(radix, n)
  {
    if v > 0 && n > 0 {
      LowLength(v / radix, radix, n - 1);
      DivBelow(v, radix, Power(radix, n - 1));
    }
  }

  lemma DivBelow(v: nat, b: nat, p: nat)
    requires b > 0
    ensures v / b < p <==> v < b * p
  {
    var q, m := v / b, v % b;
    assert v == b * q + m;
    if q < p { assert b * (q + 1) <= b * p; } else { assert b * q >= b * p; }
  }

  /** The exact length: `n` places are enough exactly for the values below `radix` to the `n`. */
  lemma TextLength(v: nat, radix: nat, n: nat)
    requires 2 <= radix <= 36 && n > 0
    ensures |Text(v, radix)| <= n <==> v < Power(radix, n)
  {
    LowLength(v, radix, n);
  }

  lemma PowersUsed()
    ensures Power(2, 32) == UINT32 == Power(16, 8) && Power(10, 10) == 10_000_000_000
  {
    assert Power(2, 8) == 0x100;
    assert Power(2, 16) == 0x1_0000;
    assert Power(2, 24) == 0x100_0000;
    assert Power(16, 4) == 0x1_0000;
    assert Power(10, 5) == 100_000;
  }

  /** Every buffer `printf` hands to `itoa` is long enough: at most 32 places, 10 decimal and 8 hexadecimal ones. */
  lemma TextFits(v: nat, radix: nat)
    requires 2 <= radix <= 36 && v < UINT32
    ensures |Text(v, radix)| <= 32 && (radix == 10 ==> |Text(v, radix)| <= 10) && (radix == 16 ==> |Text(v, radix)| <= 8)
  {
    hide Text, Power;
    PowersUsed();
    PowerGrows(radix, 32);
    TextLength(v, radix, 32);
    TextLength(v, radix, 10);
    TextLength(v, radix, 8);
  }

  lemma {:induction false} PowerGrows(b: nat, n: nat)
    requires b >= 2
    ensures Power(2, n) <= Power(b, n)
  {
    if n > 0 {
      PowerGrows(b, n - 1);
      assert 2 * Power(2, n - 1) <= b * Power(b, n - 1);
    }
  }

  /** The digits from `at` on are written, lowest place first, and nothing else. */
  ghost predicate Written(was: seq<char>, buf: array<char>, at: nat, s: string)
    requires at + |s| <= |was|
    reads buf
  {
    && buf.Length == |was|
    && forall j :: 0 <= j < |was| ==> buf[j] == if at <= j < at + |s| then s[j - at] else was[j]
  }

  lemma NextDigit(v: nat, radix: nat)
    requires 2 <= radix <= 36 && v > 0
    ensures 0 <= v / radix < v && 0 <= v % radix < radix && v == v / radix * radix + v % radix
    ensures Low(v, radix) == [Digit(v % radix)] + Low(v / radix, radix)
  {}

  method PutDigits(value: nat, buf: array<char>, at: nat, radix: nat) returns (next: nat)
    requires 2 <= radix <= 36 && at + |Low(value, radix)| <= buf.Length
    modifies buf
    ensures next == at + |Low(value, radix)|
    ensures Written(old(buf[..]), buf, at, Low(value, radix))
  {
    hide Reversed, Digit;
    next := at;
    var newval := value;
    ghost var was := buf[..];
    ghost var done: string := "";
    while newval > 0
      invariant newval >= 0 && next == at + |done| && done + Low(newval, radix) == Low(value, radix)
      invariant at + |done| <= |was| && Written(was, buf, at, done)
      decreases newval
    {
      NextDigit(newval, radix);
      var i := newval % radix;
      buf[next] := Digit(i);
      next := next + 1;
      done := done + [Digit(i)];
      newval := newval / radix;
    }
    assert done + "" == done;
  }

  /** `itoa`: the numeral of `value`, NUL-terminated, from `at` on; nothing else changes. */
  method Itoa(value: nat, buf: array<char>, at: nat, radix: nat)
    requires 2 <= radix <= 36 && value < UINT32 && at + |Text(value, radix)| < buf.Length
    modifies buf
    ensures Holds(buf[..], at, Text(value, radix))
    ensures forall k :: 0 <= k < buf.Length && !(at <= k <= at + |Text(value, radix)|) ==> buf[k] == old(buf[k])
  {
    hide Low, Reversed;
    if value == 0 {
      buf[at], buf[at + 1] := '0', NUL;
      return;
    }
    var next := PutDigits(value, buf, at, radix);
    buf[next] := NUL;
    assert buf[..][at..next] == Low(value, radix);
    StrRev(buf, at, Low(value, radix));
  }

  /** `puts` hands the characters up to the NUL to the console, one by one. */
  method Puts(buf: array<char>, at: nat, ghost s: string) returns (shown: string)
    requires Holds(buf[..], at, s)
    ensures shown == s
  {
    HeldAt(buf[..], at, s);
    shown := [];
    var index := at;
    while buf[index] != NUL
      invariant at <= index <= at + |s| && shown == s[..index - at]
      decreases at + |s| - index
    {
      shown := shown + [buf[index]];
      index := index + 1;
    }
  }

  function Zeros(n: nat): (s: string)
    ensures |s| == n && NUL !in s
    ensures forall k :: 0 <= k < n ==> DigitValue(s[k]) == 0
  {
    seq(n, _ => '0')
  }

  lemma {:induction false} ZerosAddNothing(n: nat, s: string, radix: nat)
    ensures Value(Zeros(n) + s, radix) == Value(s, radix)
    decreases n + |s|
  {
    if s == [] {
      assert Zeros(n) + s == Zeros(n);
      if n > 0 {
        assert Zeros(n)[..n - 1] == Zeros(n - 1) + [];
        ZerosAddNothing(n - 1, [], radix);
      }
    } else {
      assert (Zeros(n) + s)[..n + |s| - 1] == Zeros(n) + s[..|s| - 1];
      ZerosAddNothing(n, s[..|s| - 1], radix);
    }
  }

  /** The zeros in front of the numeral of `%#x`. */
  method PadTo8(conv: array<char>, start: nat, ghost digits: string)
    requires start == |digits| <= 8 && conv.Length == 64 && Holds(conv[..], 8, digits)
    modifies conv
    ensures Holds(conv[..], start, Zeros(8 - start) + digits)
  {
    ghost var tail := conv[8..];
    assert tail[..start] == conv[..][8..8 + start];
    var i := start;
    while i < 8
      invariant start <= i <= 8 && conv[8..] == tail
      invariant conv[start..i] == Zeros(i - start)
    {
      conv[i] := '0';
      i := i + 1;
    }
    assert conv[..][start..8 + start] == conv[start..8] + conv[8..][..start];
    assert conv[8 + start] == tail[start];
  }

  /** `%#x` prints exactly eight digits and they mean the value. */
  method PrintHex8(value: nat) returns (shown: string)
    requires value < UINT32
    ensures |shown| == 8 && Value(shown, 16) == value
    ensures forall k :: 0 <= k < 8 ==> DigitValue(shown[k]) < 16
  {
    hide Value, Text, Reversed, DigitValue, Zeros;
    TextFits(value, 16);
    TextMeans(value, 16);
    var conv := new char[64];
    Itoa(value, conv, 8, 16);
    ghost var digits := Text(value, 16);
    var start := StrLen(conv, 8, digits);
    PadTo8(conv, start, digits);
    shown := Puts(conv, start, Zeros(8 - start) + digits);
    ZerosAddNothing(8 - start, digits, 16);
  }

  /** `%x` and `%u` print the numeral itself. */
  method PrintUnsigned(value: nat, radix: nat) returns (shown: string)
    requires value < UINT32 && (radix == 10 || radix == 16)
    ensures Numeral(shown, radix) && Value(shown, radix) == value
  {
    TextFits(value, radix);
    TextMeans(value, radix);
    var conv := new char[36];
    Itoa(value, conv, 0, radix);
    shown := Puts(conv, 0, Text(value, radix));
  }

  /** `%d`: the sign is printed first and the negation is taken modulo 2^32, so the lowest value prints too. */
  method PrintSigned(value: int) returns (shown: string)
    requires -0x8000_0000 <= value < 0x8000_0000
    ensures value >= 0 ==> Numeral(shown, 10) && Value(shown, 10) == value
    ensures value < 0 ==> shown != [] && shown[0] == '-' && Numeral(shown[1..], 10) && Value(shown[1..], 10) == -value
  {
    hide Value, Text, Reversed, DigitValue;
    var conv := new char[36];
    if value < 0 {
      var magnitude := (-value) % UINT32;
      TextFits(magnitude, 10);
      TextMeans(magnitude, 10);
      conv[0] := '-';
      Itoa(magnitude, conv, 1, 10);
      ghost var digits := Text(magnitude, 10);
      assert conv[..1][0] == '-';
      assert conv[..][..1 + |digits|] == ['-'] + conv[..][1..1 + |digits|];
      shown := Puts(conv, 0, ['-'] + digits);
      assert shown[1..] == digits;
    } else {
      TextFits(value, 10);
      TextMeans(value, 10);
      Itoa(value, conv, 0, 10);
      shown := Puts(conv, 0, Text(value, 10));
    }
  }
}
