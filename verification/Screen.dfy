/**
 * The scrolling text screen of sys/kprintf.c: 24 rows of 80 cells, two bytes each.  It refines the
 * list of all rows ever completed and the unfinished row.
 */
module Screen {
  import opened CStrings

  const WIDTH: nat := 80
  const STRIDE: nat := 160
  const ROWS: nat := 24
  const SIZE: nat := 3840

  /* ---------- the text ---------- */

  datatype Text = Text(rows: seq<seq<char>>, current: seq<char>)

  function Blanks(n: nat): seq<char> { seq(n, _ => ' ') }

  // A row is complete once it is full.
  function Wrapped(t: Text): Text {
    if |t.current| >= WIDTH then Text(t.rows + [t.current], []) else t
  }

  // One character of output; a newline completes the current row with blanks.
  function With(t: Text, c: char): Text {
    if c == '\n' then Text(t.rows + [t.current + Blanks(if |t.current| < WIDTH then WIDTH - |t.current| else 0)], [])
    else Wrapped(t.(current := t.current + [c]))
  }

  function Written(t: Text, s: string): Text {
    if s == "" then t else With(Written(t, s[..|s| - 1]), s[|s| - 1])
  }

  // Printing piece by piece is printing at once.
  lemma {:induction false} WrittenInPieces(t: Text, a: string, b: string)
    ensures Written(t, a + b) == Written(Written(t, a), b)
  {
    if b == "" {
      assert a + b == a;
    } else {
      assert (a + b)[..|a + b| - 1] == a + b[..|b| - 1];
      WrittenInPieces(t, a, b[..|b| - 1]);
    }
  }

  // A newline completes the unfinished row with blanks up to the 80th column.
  lemma NewlinePads(t: Text)
    requires |t.current| < 80
    ensures var n := With(t, '\n');
            && n.current == [] && |n.rows| == |t.rows| + 1 && n.rows[..|t.rows|] == t.rows
            && |n.rows[|t.rows|]| == 80
            && forall k | 0 <= k < 80 :: n.rows[|t.rows|][k] == if k < |t.current| then t.current[k] else ' '
  {
  }

  // Lines, each with a newline at its end
  function Joined(lines: seq<string>): string {
    if lines == [] then "" else Joined(lines[..|lines| - 1]) + (lines[|lines| - 1] + "\n")
  }

  // The row is this line, with blanks up to the 80th column.
  predicate IsPadded(row: seq<char>, line: string) {
    |row| == 80 && forall k | 0 <= k < 80 :: row[k] == if k < |line| then line[k] else ' '
  }

  predicate ArePadded(rows: seq<seq<char>>, lines: seq<string>) {
    |rows| == |lines| && forall i | 0 <= i < |lines| :: IsPadded(rows[i], lines[i])
  }

  predicate IsShortLine(line: string) { |line| < 80 && forall k | 0 <= k < |line| :: line[k] != '\n' }

  // Short lines become rows, one each, with blanks at the end.
  lemma {:induction false} LinesBecomeRows(lines: seq<string>)
    requires forall i | 0 <= i < |lines| :: IsShortLine(lines[i])
    ensures var t := Written(Text([], []), Joined(lines)); t.current == [] && ArePadded(t.rows, lines)
  {
    if lines != [] {
      var less, last := lines[..|lines| - 1], lines[|lines| - 1];
      LinesBecomeRows(less);
      WrittenInPieces(Text([], []), Joined(less), last + "\n");
      LineBecomesRow(Written(Text([], []), Joined(less)), less, last);
      assert less + [last] == lines;
    }
  }

  lemma LineBecomesRow(t: Text, lines: seq<string>, line: string)
    requires t.current == [] && ArePadded(t.rows, lines) && IsShortLine(line)
    ensures var n := Written(t, line + "\n"); n.current == [] && ArePadded(n.rows, lines + [line])
  {
    ShortLine(t, line);
    assert (line + "\n")[..|line|] == line;
    NewlinePads(Text(t.rows, line));
  }

  lemma {:induction false} ShortLine(t: Text, s: string)
    requires t.current == [] && |s| < 80 && forall k | 0 <= k < |s| :: s[k] != '\n'
    ensures Written(t, s) == Text(t.rows, s)
  {
    if s != "" {
      ShortLine(t, s[..|s| - 1]);
      assert s[..|s| - 1] + [s[|s| - 1]] == s;
    }
  }

  predicate IsText(t: Text) { |t.current| < WIDTH && forall i | 0 <= i < |t.rows| :: |t.rows[i]| == WIDTH }

  lemma {:induction false} WrittenIsText(t: Text, s: string)
    requires IsText(t)
    ensures IsText(Written(t, s))
  {
    if s != "" {
      WrittenIsText(t, s[..|s| - 1]);
    }
  }

  function Flat(rows: seq<seq<char>>): seq<char> {
    if rows == [] then [] else Flat(rows[..|rows| - 1]) + rows[|rows| - 1]
  }

  lemma FlatGrows(rows: seq<seq<char>>, row: seq<char>)
    ensures Flat(rows + [row]) == Flat(rows) + row
  {
    assert (rows + [row])[..|rows|] == rows;
  }

  // t is the output s, cut every 80 characters.
  ghost predicate IsCut(t: Text, s: string) {
    match t
    case Text(rows, current) => Flat(rows) + current == s && |rows| == |s| / WIDTH && |current| == |s| % WIDTH
  }

  lemma CutGoesOn(t: Text, s: string, c: char)
    requires IsCut(t, s) && c != '\n'
    ensures IsCut(With(t, c), s + [c])
  {
    FlatGrows(t.rows, t.current + [c]);
    assert Flat(t.rows) + (t.current + [c]) == s + [c];
    NextColumn(|s|);
    if |t.current| == WIDTH - 1 {
      assert Flat(t.rows) + (t.current + [c]) + [] == s + [c];
    }
  }

  lemma NextColumn(n: nat)
    ensures (n + 1) % WIDTH == if n % WIDTH == WIDTH - 1 then 0 else n % WIDTH + 1
    ensures (n + 1) / WIDTH == n / WIDTH + if n % WIDTH == WIDTH - 1 then 1 else 0
  {
  }

  // Without newlines, the rows and the unfinished row are the output, cut every 80 characters.
  lemma {:induction false} PlainTextIsCut(s: string)
    requires forall i | 0 <= i < |s| :: s[i] != '\n'
    ensures IsCut(Written(Text([], []), s), s)
  {
    if s != "" {
      PlainTextIsCut(s[..|s| - 1]);
      CutGoesOn(Written(Text([], []), s[..|s| - 1]), s[..|s| - 1], s[|s| - 1]);
      assert s == s[..|s| - 1] + [s[|s| - 1]];
    }
  }

  /* ---------- the memory of the screen ---------- */

  ghost predicate ShowsRow(m: seq<char>, k: nat, row: seq<char>) {
    STRIDE * k + 2 * |row| <= |m| && forall j | 0 <= j < |row| :: m[STRIDE * k + 2 * j] == row[j]
  }

  // How many completed rows are on the screen; the cursor is in the row below them.
  function Above(n: nat): nat { if n < ROWS - 1 then n else ROWS - 1 }

  // What row k of the screen shows, above the cursor
  function OnScreen(rows: seq<seq<char>>, k: nat): seq<char>
    requires k < Above(|rows|)
  {
    rows[|rows| - Above(|rows|) + k]
  }

  // The rows above the cursor row are the last completed ones, and the cursor row holds the
  // unfinished row, here of up to 80 characters.
  ghost predicate IsWriting(m: seq<char>, at: int, next: int, count: int, t: Text) {
    match t
    case Text(rows, current) =>
      && |m| == SIZE && |current| <= WIDTH && count == |rows| + 1
      && next == STRIDE * Above(|rows|) + STRIDE && at == STRIDE * Above(|rows|) + 2 * |current|
      && (forall i | 0 <= i < |rows| :: |rows[i]| == WIDTH)
      && (forall k | 0 <= k < Above(|rows|) :: ShowsRow(m, k, OnScreen(rows, k)))
      && ShowsRow(m, Above(|rows|), current)
  }

  lemma PutKeepsRow(m: seq<char>, i: int, c: char, k: nat, row: seq<char>)
    requires ShowsRow(m, k, row) && 0 <= i < |m| && (i < STRIDE * k || i >= STRIDE * k + 2 * |row|)
    ensures ShowsRow(m[i := c], k, row)
  {
  }

  lemma PutExtendsRow(m: seq<char>, i: int, c: char, k: nat, row: seq<char>)
    requires ShowsRow(m, k, row) && i == STRIDE * k + 2 * |row| && i + 2 <= |m|
    ensures ShowsRow(m[i := c], k, row + [c])
  {
  }

  lemma PutAtCursor(m: seq<char>, at: int, next: int, count: int, t: Text, c: char)
    requires IsWriting(m, at, next, count, t) && |t.current| < WIDTH
    ensures 0 <= at < |m| && IsWriting(m[at := c], at + 2, next, count, t.(current := t.current + [c]))
  {
    var r := Above(|t.rows|);
    forall k | 0 <= k < r
      ensures ShowsRow(m[at := c], k, OnScreen(t.rows, k))
    {
      PutKeepsRow(m, at, c, k, OnScreen(t.rows, k));
    }
    PutExtendsRow(m, at, c, r, t.current);
  }

  // A change of the attribute bytes, at odd offsets, does not change the text.
  lemma ColourKeepsText(m: seq<char>, n: seq<char>, at: int, next: int, count: int, t: Text)
    requires IsWriting(m, at, next, count, t) && |n| == |m|
    requires forall i | 0 <= i < |m| && i % 2 == 0 :: n[i] == m[i]
    ensures IsWriting(n, at, next, count, t)
  {
    var r := Above(|t.rows|);
    forall k | 0 <= k < r
      ensures ShowsRow(n, k, OnScreen(t.rows, k))
    {
      ColourKeepsRow(m, n, k, OnScreen(t.rows, k));
    }
    ColourKeepsRow(m, n, r, t.current);
  }

  lemma ColourKeepsRow(m: seq<char>, n: seq<char>, k: nat, row: seq<char>)
    requires ShowsRow(m, k, row) && |n| == |m| && forall i | 0 <= i < |m| && i % 2 == 0 :: n[i] == m[i]
    ensures ShowsRow(n, k, row)
  {
    forall j | 0 <= j < |row|
      ensures n[STRIDE * k + 2 * j] == row[j]
    {
      assert (STRIDE * k + 2 * j) % 2 == 0;
    }
  }

  // n is m moved up by one row.
  ghost predicate IsScrolled(m: seq<char>, n: seq<char>) {
    |m| == SIZE && |n| == SIZE && forall i | 0 <= i < SIZE - STRIDE :: n[i] == m[i + STRIDE]
  }

  lemma ScrollMovesRow(m: seq<char>, n: seq<char>, k: nat, row: seq<char>)
    requires IsScrolled(m, n) && ShowsRow(m, k + 1, row) && k < ROWS - 1 && |row| <= WIDTH
    ensures ShowsRow(n, k, row)
  {
  }

  lemma ScrollShows(m: seq<char>, n: seq<char>, at: int, next: int, count: int, t: Text)
    requires IsWriting(m, at, next, count, t) && |t.current| == WIDTH && |t.rows| >= ROWS - 1 && IsScrolled(m, n)
    ensures IsWriting(n, next - STRIDE, next, count + 1, Text(t.rows + [t.current], []))
  {
    var r, all := ROWS - 1, t.rows + [t.current];
    forall k | 0 <= k < r
      ensures ShowsRow(n, k, OnScreen(all, k))
    {
      assert k < r - 1 ==> OnScreen(all, k) == OnScreen(t.rows, k + 1);
      ScrollMovesRow(m, n, k, OnScreen(all, k));
    }
  }

  lemma NextRowShows(m: seq<char>, at: int, next: int, count: int, t: Text)
    requires IsWriting(m, at, next, count, t) && |t.current| == WIDTH && |t.rows| < ROWS - 1
    ensures IsWriting(m, at, next + STRIDE, count + 1, Text(t.rows + [t.current], []))
  {
    var all := t.rows + [t.current];
    forall k | 0 <= k < |all|
      ensures ShowsRow(m, k, OnScreen(all, k))
    {
      assert k < |t.rows| ==> OnScreen(all, k) == OnScreen(t.rows, k);
    }
  }

  /* ---------- the code ---------- */

  class Console {
    const memory: array<char>
    var lineAdr: int
    var nextLineAdr: int
    var lineCount: int
    ghost var text: Text

    ghost predicate Valid()
      reads this, memory
    {
      IsWriting(memory[..], lineAdr, nextLineAdr, lineCount, text) && |text.current| < WIDTH
    }

    // The last 23 completed rows, or as many as there are, and the unfinished one below them
    lemma ShowsLastRows()
      requires Valid()
      ensures var n := if |text.rows| < 23 then |text.rows| else 23;
              && memory.Length == 160 * 24 && lineAdr == 160 * n + 2 * |text.current|
              && (forall k, j {:trigger text.rows[|text.rows| - n + k][j]} | 0 <= k < n && 0 <= j < 80 ::
                    memory[160 * k + 2 * j] == text.rows[|text.rows| - n + k][j])
              && (forall j | 0 <= j < |text.current| :: memory[160 * n + 2 * j] == text.current[j])
    {
      var n := if |text.rows| < 23 then |text.rows| else 23;
      forall k, j | 0 <= k < n && 0 <= j < 80
        ensures memory[160 * k + 2 * j] == text.rows[|text.rows| - n + k][j]
      {
        assert ShowsRow(memory[..], k, OnScreen(text.rows, k));
      }
    }

    constructor (memory: array<char>)
      requires memory.Length == SIZE
      ensures Valid() && text == Text([], []) && this.memory == memory
    {
      this.memory := memory;
      lineAdr, nextLineAdr, lineCount := 0, STRIDE, 1;
      text := Text([], []);
    }

    // The two loops that move the screen up
    method Scroll()
      requires memory.Length == SIZE
      modifies memory
      ensures IsScrolled(old(memory[..]), memory[..])
      ensures forall i | SIZE - STRIDE <= i < SIZE :: memory[i] == '\0'
    {
      for i := 0 to STRIDE * 23
        invariant forall j | 0 <= j < i :: memory[j] == old(memory[j + STRIDE])
        invariant forall j | i <= j < SIZE :: memory[j] == old(memory[j])
      {
        memory[i] := memory[i + STRIDE];
      }
      for i := STRIDE * 23 to STRIDE * 24
        invariant forall j | 0 <= j < SIZE - STRIDE :: memory[j] == old(memory[j + STRIDE])
        invariant forall j | SIZE - STRIDE <= j < i :: memory[j] == '\0'
      {
        memory[i] := '\0';
      }
    }

    method CheckIfLineFull()
      requires IsWriting(memory[..], lineAdr, nextLineAdr, lineCount, text)
      modifies this, memory
      ensures Valid() && text == Wrapped(old(text))
    {
      if lineAdr == nextLineAdr {
        lineCount := lineCount + 1;
        if lineCount > 24 {
          ghost var m, at := memory[..], lineAdr;
          Scroll();
          ScrollShows(m, memory[..], at, nextLineAdr, lineCount - 1, text);
          lineAdr := nextLineAdr - 160;
        } else {
          NextRowShows(memory[..], lineAdr, nextLineAdr, lineCount - 1, text);
          nextLineAdr := nextLineAdr + 160;
        }
        text := Text(text.rows + [text.current], []);
      }
    }

    method PutCell(c: char)
      requires Valid()
      modifies this`lineAdr, this`text, memory
      ensures IsWriting(memory[..], lineAdr, nextLineAdr, lineCount, text)
      ensures text == old(text).(current := old(text).current + [c])
    {
      PutAtCursor(memory[..], lineAdr, nextLineAdr, lineCount, text, c);
      memory[lineAdr] := c;
      lineAdr := lineAdr + 2;
      text := text.(current := text.current + [c]);
    }

    // Any character but newline
    method PutChar(c: char)
      requires Valid() && c != '\n'
      modifies this, memory
      ensures Valid() && text == With(old(text), c)
    {
      PutCell(c);
      CheckIfLineFull();
    }

    method NewLine()
      requires Valid()
      modifies this, memory
      ensures Valid() && text == With(old(text), '\n')
    {
      ghost var before := text;
      while lineAdr != nextLineAdr
        invariant IsWriting(memory[..], lineAdr, nextLineAdr, lineCount, text)
        invariant |before.current| <= |text.current|
        invariant text == before.(current := before.current + Blanks(|text.current| - |before.current|))
        decreases WIDTH - |text.current|
      {
        PutCell(' ');
      }
      CheckIfLineFull();
    }

    // All attribute bytes are set to white.
    method Whiten()
      requires Valid()
      modifies memory
      ensures Valid()
    {
      ghost var m := memory[..];
      var i := 1;
      while i < STRIDE * 24
        invariant 1 <= i <= SIZE + 1 && i % 2 == 1
        invariant memory.Length == SIZE && forall j | 0 <= j < SIZE && j % 2 == 0 :: memory[j] == m[j]
      {
        memory[i] := 7 as char;
        i := i + 2;
      }
      ColourKeepsText(m, memory[..], lineAdr, nextLineAdr, lineCount, text);
    }

    // kprintf of a text without '%', backspace and carriage return
    method Kprintf(fmt: seq<char>, ghost s: string)
      requires Valid() && IsCString(fmt, s)
      requires forall i | 0 <= i < |s| :: s[i] != '%' && s[i] != '\r' && s[i] != '\U{0008}'
      modifies this, memory
      ensures Valid() && text == Written(old(text), s)
    {
      Whiten();
      var i := 0;
      CStringAt(fmt, s, 0);
      while fmt[i] != '\0'
        invariant Valid() && i <= |s| && i < |fmt| && (fmt[i] == '\0' <==> i == |s|)
        invariant text == Written(old(text), s[..i])
        decreases |s| - i
      {
        CStringAt(fmt, s, i);
        CStringAt(fmt, s, i + 1);
        assert s[..i + 1][..i] == s[..i];
        if fmt[i] == '\n' {
          NewLine();
        } else {
          PutChar(fmt[i]);
        }
        i := i + 1;
      }
      assert s[..i] == s;
    }
  }
}
